/**
 * Static types as the differ sees them through reflection, and the helpers
 * of type.go that look through pointers for a struct, slice, interface or
 * map type.
 */
module Shapes {
  import opened Wrappers

  /** The kinds of non-composite Go types the differ distinguishes. */
  datatype ScalarKind =
    | BoolKind | IntKind | Int8Kind | Int16Kind | Int32Kind | Int64Kind
    | UintKind | Uint8Kind | Uint16Kind | Uint32Kind | Uint64Kind
    | Float32Kind | Float64Kind | StringKind

  /** A Go type: a struct type is named and its fields live in a Schema. */
  datatype Shape =
    | Ptr(elem: Shape)
    | Struct(name: string)
    | Slice(elem: Shape)
    | Map(key: Shape, elem: Shape)
    | Interface
    | Scalar(kind: ScalarKind)

  /** One declared struct field: its name, type and raw struct tag. */
  datatype FieldDecl = FieldDecl(name: string, shape: Shape, rawTag: string)

  /** The declared fields of every struct type, by type name. */
  type Schema = map<string, seq<FieldDecl>>

  const TimeName: string := "time.Time"
  const TimeShape: Shape := Struct(TimeName)
  const StringsShape: Shape := Slice(Scalar(StringKind))
  const StringMapShape: Shape := Map(Scalar(StringKind), Interface)

  /** structType: the struct type reached through any number of pointers. */
  function StructType(p: Shape): (r: Option<Shape>)
    ensures r.Some? ==> r.value.Struct?
  {
    match p
    case Ptr(e) => StructType(e)
    case Struct(_) => Some(p)
    case _ => None
  }

  /** sliceType: the slice type reached through any number of pointers. */
  function SliceType(p: Shape): (r: Option<Shape>)
    ensures r.Some? ==> r.value.Slice?
  {
    match p
    case Ptr(e) => SliceType(e)
    case Slice(_) => Some(p)
    case _ => None
  }

  /**
   * interfaceType: an interface type itself, but for a pointer it answers
   * with the slice type behind the pointer.
   */
  function InterfaceType(p: Shape): (r: Option<Shape>)
    ensures r.Some? ==> r.value.Interface? || r.value.Slice?
  {
    match p
    case Ptr(e) => SliceType(e)
    case Interface => Some(p)
    case _ => None
  }

  /** mapType: the map type reached through any number of pointers. */
  function MapType(p: Shape): (r: Option<Shape>)
    ensures r.Some? ==> r.value.Map?
  {
    match p
    case Ptr(e) => MapType(e)
    case Map(_, _) => Some(p)
    case _ => None
  }

  /** isTimeType: the struct behind the pointers is time.Time. */
  function IsTimeType(p: Shape): (r: bool)
    ensures r <==> Base(p) == TimeShape
  {
    LookThroughPointers(p);
    StructType(p) == Some(TimeShape)
  }

  /** The type with every leading pointer removed. */
  function Base(p: Shape): Shape {
    if p.Ptr? then Base(p.elem) else p
  }

  /** reflect.Type.Elem: defined for pointer, slice and map types only. */
  function Elem(p: Shape): Option<Shape> {
    match p
    case Ptr(e) => Some(e)
    case Slice(e) => Some(e)
    case Map(_, e) => Some(e)
    case _ => None
  }

  /** Each lookup answers exactly for the type found under the pointers. */
  lemma {:induction false} LookThroughPointers(p: Shape)
    ensures StructType(p).Some? <==> Base(p).Struct?
    ensures SliceType(p).Some? <==> Base(p).Slice?
    ensures MapType(p).Some? <==> Base(p).Map?
    ensures StructType(p).Some? ==> StructType(p) == Some(Base(p))
    ensures SliceType(p).Some? ==> SliceType(p) == Some(Base(p))
    ensures MapType(p).Some? ==> MapType(p) == Some(Base(p))
  {
    if p.Ptr? {
      LookThroughPointers(p.elem);
    }
  }

  /** A type is at most one of struct, slice and map. */
  lemma ShapeClassesDisjoint(p: Shape)
    ensures !(StructType(p).Some? && SliceType(p).Some?)
    ensures !(StructType(p).Some? && MapType(p).Some?)
    ensures !(SliceType(p).Some? && MapType(p).Some?)
  {
    LookThroughPointers(p);
  }

  /** interfaceType says yes to a pointer to a slice, and no to a slice itself. */
  lemma InterfaceTypeOfPointerToSlice(e: Shape)
    ensures InterfaceType(Ptr(Slice(e))) == Some(Slice(e))
    ensures InterfaceType(Slice(e)) == None
  {
  }
}
