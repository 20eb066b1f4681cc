/** The errors the differ reports and the outcome of an operation that can fail or panic. */
module Failures {
  import opened Shapes
  import opened Values

  /** Go's %T rendering of a type. */
  function TypeName(p: Shape): string {
    match p
    case Ptr(e) => "*" + TypeName(e)
    case Struct(n) => n
    case Slice(e) => "[]" + TypeName(e)
    case Map(k, e) => "map[" + TypeName(k) + "]" + TypeName(e)
    case Interface => "interface {}"
    case Scalar(k) => KindName(k)
  }

  function KindName(k: ScalarKind): string {
    match k
    case BoolKind => "bool"
    case IntKind => "int"
    case Int8Kind => "int8"
    case Int16Kind => "int16"
    case Int32Kind => "int32"
    case Int64Kind => "int64"
    case UintKind => "uint"
    case Uint8Kind => "uint8"
    case Uint16Kind => "uint16"
    case Uint32Kind => "uint32"
    case Uint64Kind => "uint64"
    case Float32Kind => "float32"
    case Float64Kind => "float64"
    case StringKind => "string"
  }

  /** %T of a dynamic value; a nil interface prints as <nil>. */
  function ValueTypeName(v: Value): string {
    if v == Nil then "<nil>" else TypeName(TypeOf(v))
  }

  /** Every error the core constructs. */
  datatype Error =
    | UnsupportedNormType(value: Value)
    | InvalidPrecision(raw: string, reason: string)
    | PresenceFieldMismatch(name: string)
    | MapTypeNotSupported(from: Value)
    | InvalidFromMap(from: Value)
    | InvalidToMap(from: Value)
    | InvalidFromStruct(structShape: Shape)
    | InvalidToStruct(structShape: Shape)
    | UnsupportedMatchTypes(fromShape: Shape, toShape: Shape)

  /** err.Error() of each error. */
  function Message(e: Error): (r: string)
    ensures r != []
  {
    match e
    case UnsupportedNormType(v) => "unsupported norm type: " + ValueTypeName(v)
    case InvalidPrecision(raw, reason) => "invalid precission: " + reason + ", " + raw
    case PresenceFieldMismatch(n) => "failed to match presence field " + n
    case MapTypeNotSupported(v) => "type: " + ValueTypeName(v) + " not supported yet"
    case InvalidFromMap(v) => "invalid from type: " + ValueTypeName(v)
    case InvalidToMap(v) => "invalid to type: " + ValueTypeName(v)
    case InvalidFromStruct(p) => "invalid 'from' struct type: " + TypeName(p)
    case InvalidToStruct(p) => "invalid 'to' struct type: " + TypeName(p)
    case UnsupportedMatchTypes(f, t) => "unsupported match types: " + TypeName(f) + ", " + TypeName(t)
  }

  /** An operation's result: a value, a returned error, or a run-time panic. */
  datatype Outcome<+T> = Ok(value: T) | Fail(error: Error) | Panic(reason: string)
}
