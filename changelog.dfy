/** The change log a diff appends to (log.go). */
module ChangeLogs {
  import opened Wrappers
  import opened Values
  import opened Paths
  import opened Failures
  import opened Changes

  /** The entry AddError appends: no type, no values, the error's text. */
  function ErrorChange(path: Path, e: Error): Change {
    Change(Untyped, path, Nil, Nil, Message(e))
  }

  function CreateChange(path: Path, v: Value): Change {
    Change(Create, path, Nil, v, "")
  }

  function DeleteChange(path: Path, v: Value): Change {
    Change(Delete, path, v, Nil, "")
  }

  function UpdateChange(path: Path, from: Value, to: Value): Change {
    Change(Update, path, from, to, "")
  }

  /** The record ToChangeRecords makes of one change: the error text is not carried over. */
  function RecordOf(c: Change, source: string, id: string): ChangeRecord {
    ChangeRecord(source, id, "", Render(c.path), TypeText(c.kind), c.from, c.to, "")
  }

  class ChangeLog {
    var changes: seq<Change>

    constructor()
      ensures changes == []
    {
      changes := [];
    }

    /** Size: the number of changes logged. */
    function Size(): (n: nat)
      reads this
      ensures n == |changes|
      ensures n == 0 <==> changes == []
    {
      |changes|
    }

    method Add(c: Change)
      modifies this
      ensures changes == old(changes) + [c]
    {
      changes := changes + [c];
    }

    /** AddError: a nil error adds nothing. */
    method AddError(path: Path, err: Option<Error>)
      modifies this
      ensures err.None? ==> changes == old(changes)
      ensures err.Some? ==> changes == old(changes) + [ErrorChange(path, err.value)]
    {
      if err.Some? {
        Add(ErrorChange(path, err.value));
      }
    }

    method AddCreate(path: Path, v: Value)
      modifies this
      ensures changes == old(changes) + [CreateChange(path, v)]
    {
      Add(CreateChange(path, v));
    }

    method AddDelete(path: Path, v: Value)
      modifies this
      ensures changes == old(changes) + [DeleteChange(path, v)]
    {
      Add(DeleteChange(path, v));
    }

    method AddUpdate(path: Path, from: Value, to: Value)
      modifies this
      ensures changes == old(changes) + [UpdateChange(path, from, to)]
    {
      Add(UpdateChange(path, from, to));
    }

    /** ToChangeRecords: one record per change, in log order, stamped with the source and id. */
    method ToChangeRecords(source: string, id: string) returns (records: seq<ChangeRecord>)
      ensures |records| == |changes|
      ensures forall i :: 0 <= i < |changes| ==> records[i] == RecordOf(changes[i], source, id)
    {
      records := [];
      var i := 0;
      while i < |changes|
        invariant 0 <= i <= |changes|
        invariant |records| == i
        invariant forall j :: 0 <= j < i ==> records[j] == RecordOf(changes[j], source, id)
      {
        records := records + [RecordOf(changes[i], source, id)];
        i := i + 1;
      }
    }

    /**
     * String: an empty log prints as the empty string. A non-empty log
     * prints as the JSON text of its records, which is not modelled
     * (None); JSON text is never empty, so only an empty log prints "".
     */
    function String(): (r: Option<string>)
      reads this
      ensures r == Some("") <==> Size() == 0
    {
      if changes == [] then Some("") else None
    }
  }

  /** A record keeps the path as text and the change type as its string, but never an error. */
  lemma RecordContents(c: Change, source: string, id: string)
    ensures RecordOf(c, source, id).path == Render(c.path)
    ensures RecordOf(c, source, id).change == [] <==> c.kind == Untyped
    ensures RecordOf(c, source, id).error == []
    ensures RecordOf(c, source, id).from == c.from && RecordOf(c, source, id).to == c.to
  {
  }

  /** An error entry turns into a record that says nothing about the error. */
  lemma ErrorRecordLosesMessage(path: Path, e: Error, source: string, id: string)
    ensures RecordOf(ErrorChange(path, e), source, id)
         == ChangeRecord(source, id, "", Render(path), "", Nil, Nil, "")
  {
  }
}
