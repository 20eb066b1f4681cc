/**
 * Three places where the source does something its authors evidently did
 * not intend. Each is written out here as the code stands, next to an
 * input that shows the discrepancy; the engine uses the corrected
 * behaviour, and the lemmas at the end of each part prove what the
 * correction guarantees. (The fourth, the pair decoder's unchecked
 * `pair[1]`, lives with the decoders.)
 */
module Findings {
  import opened Wrappers
  import opened Shapes
  import opened Values
  import opened Failures
  import Paths
  import opened Changes
  import opened Differs
  import opened Engine

  // ---------------------------------------------------------------------
  // 1. The change type struct.go hands a slice field's differ

  /**
   * As written: a non-nil "from" keeps "update", a nil one makes it
   * "create", and then any non-nil "to" makes it "delete".
   */
  function SliceFieldChangeTypeAsWritten(fv: Value, tv: Value): ChangeType {
    var ct := if fv != Nil then Update else Create;
    if tv != Nil then Delete else ct
  }

  /** Two present slices are passed on as a delete, and a slice only in "to" too; one only in "from" as an update. */
  lemma SliceFieldChangeTypeInverted(fv: Value, tv: Value)
    requires fv != Nil || tv != Nil
    ensures fv != Nil && tv != Nil ==> SliceFieldChangeTypeAsWritten(fv, tv) == Delete && DiscoverChangeType(fv, tv) == Update
    ensures fv == Nil ==> SliceFieldChangeTypeAsWritten(fv, tv) == Delete && DiscoverChangeType(fv, tv) == Create
    ensures tv == Nil ==> SliceFieldChangeTypeAsWritten(fv, tv) == Update && DiscoverChangeType(fv, tv) == Delete
    ensures SliceFieldChangeTypeAsWritten(fv, tv) != DiscoverChangeType(fv, tv)
  {
  }

  /**
   * What the written change type does to two present interface slices:
   * diffIfacedSlice takes its delete case, so each "from" element is
   * reported deleted whatever "to" holds, and the "to" elements are never
   * read. (A typed slice recomputes the change type itself and is not
   * affected.)
   */
  lemma {:induction false} IfaceDeleteIgnoresTo(schema: Schema, tag: Tags.Tag, path: Paths.Path, fi: seq<Value>, ti: seq<Value>, presence: bool, i: nat, fromCap: nat, toCap: nat)
    requires ItemsBelow(fi, fromCap) && ItemsBelow(ti, toCap)
    ensures IfaceSliceWalk(schema, tag, path, fi, ti, Delete, presence, i, fromCap, toCap)
         == IfaceSliceWalk(schema, tag, path, fi, [], Delete, presence, i, fromCap, toCap)
    decreases Larger(|fi|, |ti|) - i
  {
    if i < Larger(|fi|, |ti|) {
      IfaceDeleteIgnoresTo(schema, tag, path, fi, ti, presence, i + 1, fromCap, toCap);
      if |fi| <= i {
        assert IfaceSliceStep(schema, tag, path, fi, ti, Delete, presence, i, fromCap, toCap) == Nothing;
      }
    }
  }

  /**
   * The correction: a slice field's differ is told "create" exactly when
   * the "from" slice is missing, "delete" exactly when only the "to" slice
   * is, and "update" when both are there.
   */
  lemma SliceFieldChangeTypeCorrected(f: Field, from: Value, to: Value, fv: Value, tv: Value)
    requires Accessors.Read(f.from, from) == Ok(fv) && Accessors.Read(f.to, to) == Ok(tv)
    requires fv != Nil || tv != Nil
    requires f.kind == Fields.SliceField
    ensures FieldArgs(f, from, to, fv, tv).2 == Create <==> fv == Nil
    ensures FieldArgs(f, from, to, fv, tv).2 == Delete <==> fv != Nil && tv == Nil
    ensures FieldArgs(f, from, to, fv, tv).2 == Update <==> fv != Nil && tv != Nil
    ensures FieldArgs(f, from, to, fv, tv).0 == Nil <==> fv == Nil
    ensures FieldArgs(f, from, to, fv, tv).1 == Nil <==> tv == Nil
  {
  }

  // ---------------------------------------------------------------------
  // 2. The element diffIfacedSlice passes for a surplus "from" element

  /** What diffIfacedSlice hands diffIfaceElement at one index. */
  datatype ElementCall =
    | NoCall
    | Call(from: Value, to: Value, ct: ChangeType)
    | PastEnd   // the element is read beyond the end of its slice, where nothing is defined

  /**
   * As written: in update mode an index past the end of "to" reads the
   * element from "to" again, beyond its end, instead of from "from".
   */
  function IfaceElementCallAsWritten(fi: seq<Value>, ti: seq<Value>, ct: ChangeType, i: nat): ElementCall {
    match ct
    case Create => if i < |ti| then Call(Nil, ti[i], Create) else PastEnd
    case Delete => if i < |fi| then Call(fi[i], Nil, Delete) else PastEnd
    case Update =>
      if |fi| <= i then (if i < |ti| then Call(Nil, ti[i], Create) else PastEnd)
      else if |ti| <= i then PastEnd
      else Call(fi[i], ti[i], Update)
    case Untyped => NoCall
  }

  /** The corrected call: the surplus "from" element itself, as a delete. */
  function IfaceElementCall(fi: seq<Value>, ti: seq<Value>, ct: ChangeType, i: nat): ElementCall {
    match ct
    case Create => if i < |ti| then Call(Nil, ti[i], Create) else PastEnd
    case Delete => if i < |fi| then Call(fi[i], Nil, Delete) else PastEnd
    case Update =>
      if |fi| <= i then (if i < |ti| then Call(Nil, ti[i], Create) else PastEnd)
      else if |ti| <= i then Call(fi[i], Nil, Delete)
      else Call(fi[i], ti[i], Update)
    case Untyped => NoCall
  }

  /** With one element dropped from "to", the as-written walk never reads the dropped element. */
  lemma SurplusFromElementLost(a: Value)
    ensures IfaceElementCallAsWritten([a], [], Update, 0) == PastEnd
    ensures IfaceElementCall([a], [], Update, 0) == Call(a, Nil, Delete)
  {
  }

  /** In update mode the corrected walk reads every index in bounds, and hands each surplus "from" element over as a delete. */
  lemma IfaceElementCallInBounds(fi: seq<Value>, ti: seq<Value>, i: nat)
    requires i < |fi| || i < |ti|
    ensures IfaceElementCall(fi, ti, Update, i).Call?
    ensures |ti| <= i ==> IfaceElementCall(fi, ti, Update, i) == Call(fi[i], Nil, Delete)
    ensures |fi| <= i ==> IfaceElementCall(fi, ti, Update, i) == Call(Nil, ti[i], Create)
  {
  }

  /** The engine's step is the corrected call, diffed at the element's path. */
  lemma IfaceSliceStepCorrected(schema: Schema, tag: Tags.Tag, path: Paths.Path, fi: seq<Value>, ti: seq<Value>, presence: bool, i: nat, fromCap: nat, toCap: nat)
    requires ItemsBelow(fi, fromCap) && ItemsBelow(ti, toCap)
    requires |ti| <= i < |fi|
    ensures IfaceSliceStep(schema, tag, path, fi, ti, Update, presence, i, fromCap, toCap)
         == ElementDiff(schema, Some(tag), Paths.Element(path, i), fi[i], Nil, Delete, presence, fromCap, toCap)
    ensures IfaceElementCall(fi, ti, Update, i) == Call(fi[i], Nil, Delete)
  {
  }

  // ---------------------------------------------------------------------
  // 3. How diffIfaceElement prepares an element (slice.go and map.go)

  /** reflect.Kind's name for a type. */
  function ReflectKind(s: Shape): string {
    match s
    case Ptr(_) => "ptr"
    case Struct(_) => "struct"
    case Slice(_) => "slice"
    case Map(_, _) => "map"
    case Interface => "interface"
    case Scalar(k) => KindName(k)
  }

  const ZeroValueType: string := "reflect: call of reflect.Value.Type on zero Value"

  /** What diffIfaceElement reaches before it asks the registry for a differ. */
  datatype Prepared =
    | Skipped
    | Ready(from: Value, to: Value, ty: Shape)
    | Crash(reason: string)
    | Garbled   // `to` becomes a reflect.Value wrapping the element rather than the element

  /**
   * As written: the value whose type selects the differ is "to" when it
   * is non-nil, and, for slices, also when deleting; otherwise "from". For
   * a pointer, "from" becomes the chosen value's pointee and "to" the
   * pointee's own Elem, which panics unless the pointee is itself a
   * pointer or an interface.
   */
  function PrepareAsWritten(from: Value, to: Value, ct: ChangeType, forSlice: bool): Prepared {
    if from == Nil && to == Nil then Skipped
    else
      var src := if to != Nil || (forSlice && ct == Delete) then to else from;
      if src == Nil then Crash(ZeroValueType)
      else if !src.Ref? then Ready(from, to, TypeOf(src))
      else if src.target == Nil || src.target.Ref? then Garbled
      else Crash("reflect: call of reflect.Value.Elem on " + ReflectKind(TypeOf(src.target)) + " Value")
  }

  /** The corrected preparation, as ElementDiff does it: both sides one pointer level down, typed by the non-nil side. */
  function Prepare(from: Value, to: Value): (r: Prepared)
    ensures r.Skipped? <==> from == Nil && to == Nil
    ensures r.Ready? ==> r.from == Deref(from) && r.to == Deref(to)
  {
    if from == Nil && to == Nil then Skipped else Ready(Deref(from), Deref(to), ElementType(from, to))
  }

  /** A pointer to a struct, as in `[]interface{}{&Record{...}}`, crashes the as-written preparation. */
  lemma PointerElementCrashes(name: string, fields: seq<(string, Value)>, other: Value, ct: ChangeType, forSlice: bool)
    requires other == Nil || !other.Ref?
    ensures PrepareAsWritten(Ref(Rec(name, fields)), Nil, Create, forSlice) == Crash("reflect: call of reflect.Value.Elem on struct Value")
    ensures PrepareAsWritten(other, Ref(Rec(name, fields)), ct, forSlice) == Crash("reflect: call of reflect.Value.Elem on struct Value")
    ensures Prepare(other, Ref(Rec(name, fields))) == Ready(other, Rec(name, fields), Struct(name))
  {
  }

  /** Deleting a slice element crashes as written, since the type is asked of the missing "to". */
  lemma SliceDeleteCrashes(from: Value)
    requires from != Nil
    ensures PrepareAsWritten(from, Nil, Delete, true) == Crash(ZeroValueType)
    ensures Prepare(from, Nil).Ready?
  {
  }

  /**
   * The correction always reaches the registry with a type, and the type
   * is the non-pointer type of the side that is there ("to" first).
   */
  lemma PrepareCorrected(from: Value, to: Value)
    requires from != Nil || to != Nil
    ensures Prepare(from, to).Ready?
    ensures to != Nil ==> Prepare(from, to).ty == TypeOf(to) || (to.Ref? && Prepare(from, to).ty == TypeOf(to).elem)
    ensures to == Nil ==> Prepare(from, to).ty == TypeOf(from) || (from.Ref? && Prepare(from, to).ty == TypeOf(from).elem)
  {
  }

  /** The engine diffs an element exactly as the corrected preparation says. */
  lemma ElementDiffPrepared(schema: Schema, tag: Option<Tags.Tag>, at: Paths.Path, from: Value, to: Value, ct: ChangeType, presence: bool, fromCap: nat, toCap: nat)
    requires from == Nil || Size(from) < fromCap
    requires to == Nil || Size(to) < toCap
    requires from != Nil || to != Nil
    ensures var p := Prepare(from, to);
            ElementDiff(schema, tag, at, from, to, ct, presence, fromCap, toCap)
            == match Build(schema, Some(p.ty), Some(p.ty), Settings.RegistryConfig(tag), NestingLimit)
               case Ok(d) => DiffWith(schema, d, at, p.from, p.to, ct, presence)
               case Fail(e) => Emit([], Failed(e))
               case Panic(why) => Emit([], Crashed(why))
  {
  }
}
