/** Change kinds, changes and flattened change records (change.go). */
module Changes {
  import opened Values
  import opened Paths

  /** A change's type; an error entry carries the empty type. */
  datatype ChangeType = Create | Update | Delete | Untyped

  /** The string value of each ChangeType constant. */
  function TypeText(t: ChangeType): (r: string)
    ensures r == [] <==> t == Untyped
  {
    match t
    case Create => "create"
    case Update => "update"
    case Delete => "delete"
    case Untyped => ""
  }

  /** One difference at one path; `error` is set only on error entries. */
  datatype Change = Change(kind: ChangeType, path: Path, from: Value, to: Value, error: string)

  /** A change flattened for storage: the path printed, the type as text. */
  datatype ChangeRecord = ChangeRecord(
    source: string, sourceID: string, userID: string,
    path: string, change: string, from: Value, to: Value, error: string)
}
