/**
 * Reading one field of a struct value (accessor.go): the nil rule, the
 * one-level dereference of pointers to non-struct values, the optional
 * normalisation to a declared numeric type, and the "nullify empty"
 * classification.
 */
module Accessors {
  import opened Wrappers
  import opened Shapes
  import opened Values
  import opened Tags
  import opened Failures

  /** How a field's zero value may be turned into nil. */
  datatype NullifierKind = Unspecified | IntNullifier | StringNullifier | Float64Nullifier | Float32Nullifier

  /**
   * An accessor for the field called `name` at position `pos` of its
   * struct, whose declared type is `shape`.
   */
  datatype Accessor = Accessor(
    pos: nat,
    name: string,
    shape: Shape,
    deref: bool,
    normType: Option<Shape>,
    nullifier: NullifierKind)

  /** A pointer to anything but a struct, or to a time.Time, is read through. */
  predicate DerefRule(p: Shape) {
    p.Ptr? && (StructType(p.elem).None? || IsTimeType(p.elem))
  }

  /** The nullifier the tag asks for, keyed on the field's own kind. */
  function GetNullifierKind(t: Tag, shape: Shape): (r: NullifierKind)
    ensures t.nullifyEmpty != Some(true) ==> r == Unspecified
    ensures r == IntNullifier <==> t.nullifyEmpty == Some(true) && shape in IntNullifiedShapes
    ensures r == StringNullifier <==> t.nullifyEmpty == Some(true) && shape == Scalar(StringKind)
    ensures r == Float64Nullifier <==> t.nullifyEmpty == Some(true) && shape == Scalar(Float64Kind)
    ensures r == Float32Nullifier <==> t.nullifyEmpty == Some(true) && shape == Scalar(Float32Kind)
  {
    if t.nullifyEmpty == Some(true) then
      match shape
      case Scalar(IntKind) => IntNullifier
      case Scalar(Int64Kind) => IntNullifier
      case Scalar(UintKind) => IntNullifier
      case Scalar(Uint64Kind) => IntNullifier
      case Scalar(Float64Kind) => Float64Nullifier
      case Scalar(Float32Kind) => Float32Nullifier
      case Scalar(StringKind) => StringNullifier
      case _ => Unspecified
    else Unspecified
  }

  /** The integer kinds whose zero the int nullifier recognises. */
  const IntNullifiedShapes: set<Shape> :=
    {Scalar(IntKind), Scalar(Int64Kind), Scalar(UintKind), Scalar(Uint64Kind)}

  /** newAccessor: the accessor for field `decl` at position `pos`, completed by its tag. */
  function NewAccessor(pos: nat, decl: FieldDecl, t: Tag): (r: Accessor)
    ensures r.pos == pos && r.name == decl.name && r.shape == decl.shape
    ensures r.deref <==> DerefRule(decl.shape)
    ensures r.normType.None?
    ensures r.nullifier == GetNullifierKind(t, decl.shape)
  {
    Accessor(pos, decl.name, decl.shape, DerefRule(decl.shape), None, GetNullifierKind(t, decl.shape))
  }

  /** The kinds a normalising accessor can convert to. */
  const NormKinds: set<ScalarKind> := {IntKind, Int32Kind, Int64Kind, Int16Kind, Uint8Kind}

  /**
   * normalize: nil stays nil; a dereferencing accessor reads through the
   * pointer; a norm type of a supported kind retypes the number, any
   * other norm type is an error naming the value's type.
   */
  function Normalize(a: Accessor, v: Value): (r: Outcome<Value>)
    ensures !r.Panic?
    ensures v == Nil ==> r == Ok(Nil)
    ensures v != Nil && a.normType.None? ==> r == Ok(if a.deref then Deref(v) else v)
    ensures r.Fail? <==> v != Nil && a.normType.Some? && !(a.normType.value.Scalar? && a.normType.value.kind in NormKinds)
    ensures r.Fail? ==> r.error == UnsupportedNormType(if a.deref then Deref(v) else v)
  {
    if v == Nil then Ok(Nil)
    else
      var w := if a.deref then Deref(v) else v;
      match a.normType
      case None => Ok(w)
      case Some(Scalar(k)) =>
        if k in NormKinds then Ok(if w.Num? then Num(k, w.n) else w)
        else Fail(UnsupportedNormType(w))
      case Some(_) => Fail(UnsupportedNormType(w))
  }

  /**
   * The field holds nothing: Go's nil, or the zero value of a type that is
   * not an interface (an interface holding a zero is set).
   */
  predicate IsNilField(raw: Value, shape: Shape) {
    raw == Nil || (shape != Interface && IsZero(raw))
  }

  /** Value: the field of `rec` this accessor reads, nil when unset, else normalised. */
  function Read(a: Accessor, rec: Value): (r: Outcome<Value>)
    ensures IsNilField(FieldValue(rec, a.name), a.shape) ==> r == Ok(Nil)
    ensures !IsNilField(FieldValue(rec, a.name), a.shape) ==> r == Normalize(a, FieldValue(rec, a.name))
  {
    var raw := FieldValue(rec, a.name);
    if IsNilField(raw, a.shape) then Ok(Nil) else Normalize(a, raw)
  }

  /** Addr: a pointer to the field itself, as the slice differ is given it. */
  function Addr(a: Accessor, rec: Value): (r: Value)
    ensures r.Ref? && r.target == FieldValue(rec, a.name)
  {
    Ref(FieldValue(rec, a.name))
  }

  /** A read never grows the value: it is nil or lies inside the record. */
  lemma ReadSmaller(a: Accessor, rec: Value)
    ensures Read(a, rec).Ok? && Read(a, rec).value != Nil ==> Size(Read(a, rec).value) < Size(rec)
  {
  }

  /** nullifyIfNeeded: the zero of the accessor's nullifier kind becomes nil. */
  function NullifyIfNeeded(a: Accessor, v: Value): (r: Value)
    ensures a.nullifier == Unspecified ==> r == v
    ensures r == Nil <==> v == Nil || (a.nullifier != Unspecified && v.Num? && v.n == 0 && a.nullifier != StringNullifier)
                                   || (a.nullifier == StringNullifier && v.Str? && v.s == [])
    ensures r != Nil ==> r == v
  {
    match a.nullifier
    case Unspecified => v
    case StringNullifier => if v.Str? && v.s == [] then Nil else v
    case _ => if v.Num? && v.n == 0 then Nil else v
  }

  /**
   * IsNilOrEmpty: nil, or the zero of the accessor's nullifier kind: the
   * empty string for a string nullifier, zero for a numeric one, and
   * nothing else when the field is not nullified.
   */
  function IsNilOrEmpty(a: Accessor, v: Value): (r: bool)
    ensures r <==> v == Nil || (a.nullifier == StringNullifier && v.Str? && v.s == [])
                           || (a.nullifier != Unspecified && a.nullifier != StringNullifier && v.Num? && v.n == 0)
    ensures a.nullifier == Unspecified ==> (r <==> v == Nil)
  {
    v == Nil || NullifyIfNeeded(a, v) == Nil
  }
}
