/**
 * What the struct differ (struct.go diff) reports, field by field. Each
 * compared field records its changes at or below its own path, so with
 * distinct field names the changes under one field are exactly what that
 * field's step produced; the presence check decides which fields are
 * compared at all; and the basic struct cases of the differ's tests follow.
 */
module StructLaws {
  import opened Wrappers
  import opened Shapes
  import opened Values
  import opened Tags
  import opened Failures
  import Paths
  import opened Changes
  import opened ChangeLogs
  import opened Accessors
  import opened Presences
  import opened Differs
  import opened Engine
  import opened Placement

  // ---------------------------------------------------------------------
  // Sibling fields do not overlap

  /** The number of nodes between a path and the root. */
  function Depth(p: Paths.Path): nat {
    if p.Root? then 0 else 1 + Depth(p.parent)
  }

  lemma {:induction false} WithinDepth(p: Paths.Path, base: Paths.Path)
    requires Within(p, base)
    ensures Depth(base) <= Depth(p)
    decreases p
  {
    if p != base {
      WithinDepth(p.parent, base);
    }
  }

  /** A path has at most one ancestor at each depth. */
  lemma {:induction false} AncestorUnique(p: Paths.Path, x: Paths.Path, y: Paths.Path)
    requires Within(p, x) && Within(p, y) && Depth(x) == Depth(y)
    ensures x == y
    decreases p
  {
    if p == x {
      if p != y {
        WithinDepth(p.parent, y);
      }
    } else if p == y {
      WithinDepth(p.parent, x);
    } else {
      AncestorUnique(p.parent, x, y);
    }
  }

  /** No path lies below two fields of one struct with different names. */
  lemma SiblingsDisjoint(p: Paths.Path, path: Paths.Path, a: string, b: string)
    requires a != b
    ensures !(Within(p, Paths.Field(path, a)) && Within(p, Paths.Field(path, b)))
  {
    if Within(p, Paths.Field(path, a)) && Within(p, Paths.Field(path, b)) {
      AncestorUnique(p, Paths.Field(path, a), Paths.Field(path, b));
    }
  }

  // ---------------------------------------------------------------------
  // The changes under one node

  /** The changes recorded at or below `base`, in order. */
  function ChangesWithin(cs: seq<Change>, base: Paths.Path): seq<Change> {
    if cs == [] then []
    else (if Within(cs[0].path, base) then [cs[0]] else []) + ChangesWithin(cs[1..], base)
  }

  lemma {:induction false} ChangesWithinAppend(a: seq<Change>, b: seq<Change>, base: Paths.Path)
    ensures ChangesWithin(a + b, base) == ChangesWithin(a, base) + ChangesWithin(b, base)
    decreases |a|
  {
    if a != [] {
      var head := if Within(a[0].path, base) then [a[0]] else [];
      assert (a + b)[0] == a[0] && (a + b)[1..] == a[1..] + b;
      ChangesWithinAppend(a[1..], b, base);
      assert head + (ChangesWithin(a[1..], base) + ChangesWithin(b, base))
          == (head + ChangesWithin(a[1..], base)) + ChangesWithin(b, base);
    } else {
      assert a + b == b;
    }
  }

  /** Changes placed under `base` are all kept. */
  lemma {:induction false} ChangesWithinAll(cs: seq<Change>, base: Paths.Path)
    requires Placed(cs, base)
    ensures ChangesWithin(cs, base) == cs
    decreases |cs|
  {
    if cs != [] {
      assert cs[0] in cs;
      assert Placed(cs[1..], base) by {
        forall c | c in cs[1..]
          ensures Within(c.path, base) && WellFormed(c)
        {
          assert c in cs;
        }
      }
      ChangesWithinAll(cs[1..], base);
      assert [cs[0]] + cs[1..] == cs;
    }
  }

  /** Changes placed under a sibling field are all dropped. */
  lemma {:induction false} ChangesWithinSibling(cs: seq<Change>, path: Paths.Path, a: string, b: string)
    requires a != b && Placed(cs, Paths.Field(path, a))
    ensures ChangesWithin(cs, Paths.Field(path, b)) == []
    decreases |cs|
  {
    if cs != [] {
      assert cs[0] in cs;
      SiblingsDisjoint(cs[0].path, path, a, b);
      assert Placed(cs[1..], Paths.Field(path, a)) by {
        forall c | c in cs[1..]
          ensures Within(c.path, Paths.Field(path, a)) && WellFormed(c)
        {
          assert c in cs;
        }
      }
      ChangesWithinSibling(cs[1..], path, a, b);
    }
  }

  // ---------------------------------------------------------------------
  // One field's step

  /** Every change a field comparison records lies at or below that field. */
  lemma CompareFieldUnder(schema: Schema, sd: StructDiffer, f: Field, path: Paths.Path, from: Value, to: Value, fv: Value, tv: Value, ct: ChangeType, presence: bool)
    requires Read(f.from, from) == Ok(fv) && Read(f.to, to) == Ok(tv)
    ensures Placed(CompareField(schema, sd, f, path, from, to, fv, tv, ct, presence).changes, Paths.Field(path, f.name))
  {
    var at := Paths.Field(path, f.name);
    if fv != Nil || tv != Nil {
      var args := FieldArgs(f, from, to, fv, tv);
      if f.plan.NoDiffer? {
        ScalarFieldPlaced(f, at, from, to, fv, tv, ct);
      } else if f.plan.Self? {
        StructDiffPlaced(schema, sd, at, args.0, args.1, args.2, presence);
      } else {
        DiffWithPlaced(schema, f.plan.differ, at, args.0, args.1, args.2, presence);
      }
    }
  }

  /** Every change one field's step records lies at or below that field. */
  lemma FieldStepUnder(schema: Schema, sd: StructDiffer, f: Field, path: Paths.Path, from: Value, to: Value, ct: ChangeType, presence: bool)
    ensures Placed(FieldStep(schema, sd, f, path, from, to, ct, presence).changes, Paths.Field(path, f.name))
  {
    var at := Paths.Field(path, f.name);
    var rf, rt := Read(f.from, from), Read(f.to, to);
    if rf.Fail? {
      ErrorWellFormed(at, rf.error);
    } else if rf.Ok? && rt.Fail? {
      ErrorWellFormed(at, rt.error);
    } else if rf.Ok? && rt.Ok? {
      CompareFieldUnder(schema, sd, f, path, from, to, rf.value, rt.value, ct, presence);
    }
  }

  /** Whether the presence holder marks field `f` as set, read from "to" unless its holder is nil. */
  function Marked(sd: StructDiffer, f: Field, from: Value, to: Value): Outcome<bool> {
    IsFieldSet(sd.presence, PresenceRecord(sd.presence, from, to), f.to.pos)
  }

  /** A field that cannot be read records its error at the field, and the walk goes on. */
  lemma FieldUnreadable(schema: Schema, sd: StructDiffer, f: Field, path: Paths.Path, from: Value, to: Value, ct: ChangeType, presence: bool)
    ensures Read(f.from, from).Fail? ==>
              FieldStep(schema, sd, f, path, from, to, ct, presence) == Emit([ErrorChange(Paths.Field(path, f.name), Read(f.from, from).error)], Done)
    ensures Read(f.from, from).Ok? && Read(f.to, to).Fail? ==>
              FieldStep(schema, sd, f, path, from, to, ct, presence) == Emit([ErrorChange(Paths.Field(path, f.name), Read(f.to, to).error)], Done)
  {
  }

  /**
   * A readable field is compared when presence checking is off, or when
   * the holder marks it as set and it is not the holder itself.
   */
  lemma FieldCompared(schema: Schema, sd: StructDiffer, f: Field, path: Paths.Path, from: Value, to: Value, ct: ChangeType, presence: bool)
    requires Read(f.from, from).Ok? && Read(f.to, to).Ok?
    requires !presence || (Marked(sd, f, from, to) == Ok(true) && !f.tag.presence)
    ensures FieldStep(schema, sd, f, path, from, to, ct, presence)
         == CompareField(schema, sd, f, path, from, to, Read(f.from, from).value, Read(f.to, to).value, ct, presence)
  {
  }

  /** With presence checking on, a field the holder does not mark as set, and the holder field itself, are passed over. */
  lemma FieldPassedOver(schema: Schema, sd: StructDiffer, f: Field, path: Paths.Path, from: Value, to: Value, ct: ChangeType)
    requires Read(f.from, from).Ok? && Read(f.to, to).Ok?
    requires Marked(sd, f, from, to).Ok? && (!Marked(sd, f, from, to).value || f.tag.presence)
    ensures FieldStep(schema, sd, f, path, from, to, ct, true) == Nothing
  {
  }

  // ---------------------------------------------------------------------
  // The whole struct, field by field

  predicate DistinctNames(fields: seq<Field>) {
    forall i, j :: 0 <= i < j < |fields| ==> fields[i].name != fields[j].name
  }

  /** A walk that finishes has finished every step from the k-th on. */
  lemma {:induction false} StructWalkDone(schema: Schema, sd: StructDiffer, path: Paths.Path, from: Value, to: Value, ct: ChangeType, presence: bool, k: nat, j: nat)
    requires k <= j < |sd.fields|
    requires StructWalk(schema, sd, path, from, to, ct, presence, k).status == Done
    ensures FieldStep(schema, sd, sd.fields[j], path, from, to, ct, presence).status == Done
    decreases |sd.fields| - k
  {
    if k < j {
      StructWalkDone(schema, sd, path, from, to, ct, presence, k + 1, j);
    }
  }

  lemma {:induction false} StructWalkByField(schema: Schema, sd: StructDiffer, path: Paths.Path, from: Value, to: Value, ct: ChangeType, presence: bool, k: nat, j: nat)
    requires k <= |sd.fields| && j < |sd.fields| && DistinctNames(sd.fields)
    requires StructWalk(schema, sd, path, from, to, ct, presence, k).status == Done
    ensures ChangesWithin(StructWalk(schema, sd, path, from, to, ct, presence, k).changes, Paths.Field(path, sd.fields[j].name))
         == if k <= j then FieldStep(schema, sd, sd.fields[j], path, from, to, ct, presence).changes else []
    decreases |sd.fields| - k
  {
    if k < |sd.fields| {
      var base := Paths.Field(path, sd.fields[j].name);
      var step := FieldStep(schema, sd, sd.fields[k], path, from, to, ct, presence);
      var rest := StructWalk(schema, sd, path, from, to, ct, presence, k + 1);
      assert step.status == Done;
      StructWalkByField(schema, sd, path, from, to, ct, presence, k + 1, j);
      ChangesWithinAppend(step.changes, rest.changes, base);
      FieldStepUnder(schema, sd, sd.fields[k], path, from, to, ct, presence);
      if k == j {
        ChangesWithinAll(step.changes, base);
        assert rest.changes == [] || ChangesWithin(rest.changes, base) == [];
        assert step.changes + [] == step.changes;
      } else {
        ChangesWithinSibling(step.changes, path, sd.fields[k].name, sd.fields[j].name);
        assert [] + ChangesWithin(rest.changes, base) == ChangesWithin(rest.changes, base);
      }
    }
  }

  /**
   * struct.go diff, field by field: when the walk over the fields
   * finishes, every field's step finished, and when the compared fields
   * have distinct names, the changes recorded at or below one field are
   * exactly those its own step recorded.
   */
  lemma StructDiffByField(schema: Schema, sd: StructDiffer, path: Paths.Path, from: Value, to: Value, ct: ChangeType, presence: bool, j: nat)
    requires j < |sd.fields| && DistinctNames(sd.fields)
    requires StructDiff(schema, sd, path, from, to, ct, presence).status == Done
    ensures FieldStep(schema, sd, sd.fields[j], path, from, to, ct, presence).status == Done
    ensures ChangesWithin(StructDiff(schema, sd, path, from, to, ct, presence).changes, Paths.Field(path, sd.fields[j].name))
         == FieldStep(schema, sd, sd.fields[j], path, from, to, ct, presence).changes
  {
    StructWalkDone(schema, sd, path, from, to, ct, presence, 0, j);
    StructWalkByField(schema, sd, path, from, to, ct, presence, 0, j);
  }

  /**
   * With presence checking on, nothing is recorded under a field the
   * holder does not mark as set, nor under the holder field itself.
   */
  lemma StructDiffSkipsUnset(schema: Schema, sd: StructDiffer, path: Paths.Path, from: Value, to: Value, ct: ChangeType, j: nat)
    requires j < |sd.fields| && DistinctNames(sd.fields)
    requires StructDiff(schema, sd, path, from, to, ct, true).status == Done
    requires Read(sd.fields[j].from, from).Ok? && Read(sd.fields[j].to, to).Ok?
    requires Marked(sd, sd.fields[j], from, to).Ok?
    requires !Marked(sd, sd.fields[j], from, to).value || sd.fields[j].tag.presence
    ensures ChangesWithin(StructDiff(schema, sd, path, from, to, ct, true).changes, Paths.Field(path, sd.fields[j].name)) == []
  {
    StructDiffByField(schema, sd, path, from, to, ct, true, j);
    FieldPassedOver(schema, sd, sd.fields[j], path, from, to, ct);
  }

  // ---------------------------------------------------------------------
  // The basic struct cases of the differ's tests

  /** An accessor that reads its field as stored: no pointer to follow, no normalisation, no nullifier. */
  function PlainAccessor(pos: nat, name: string, shape: Shape): Accessor {
    Accessor(pos, name, shape, false, None, Unspecified)
  }

  /** A field compared by the scalar rules of struct.go, without a differ of its own. */
  function ScalarFieldOf(pos: nat, name: string, shape: Shape): Field {
    Field(name, PlainAccessor(pos, name, shape), PlainAccessor(pos, name, shape), Fields.NoKind, EmptyTag, NoDiffer)
  }

  /** The compared fields of the tests' `Record`: ID, Name and Time (ScratchPad is tagged `-`). */
  const RecordFields: seq<Field> := [
    ScalarFieldOf(0, "ID", Scalar(IntKind)),
    ScalarFieldOf(1, "Name", Scalar(StringKind)),
    ScalarFieldOf(3, "Time", TimeShape)]

  /** `&Record{ID: id, Name: name}`: ScratchPad empty and Time at its zero value. */
  function RecordPtr(id: int, name: string): Value {
    Ref(Rec("Record", [("ID", Num(IntKind, id)), ("Name", Str(name)), ("ScratchPad", Str("")), ("Time", Opaque(TimeShape, 0))]))
  }

  /** How a plain field reads a stored value: its type's zero reads as nil. */
  function Seen(v: Value): Value {
    if IsZero(v) then Nil else v
  }

  /**
   * struct.go's rule for a field without a differ, on the values read:
   * nothing when both are nil; in create mode a create of a present "to"
   * value; in delete mode a delete of a present "from" value; otherwise an
   * update when the two differ.
   */
  function ScalarRule(at: Paths.Path, fv: Value, tv: Value, ct: ChangeType): seq<Change> {
    if fv == Nil && tv == Nil then []
    else if ct == Create && tv != Nil then [CreateChange(at, tv)]
    else if ct == Delete && fv != Nil then [DeleteChange(at, fv)]
    else if fv != tv then [UpdateChange(at, fv, tv)]
    else []
  }

  /** A plain accessor reads the stored value, its type's zero as nil. */
  lemma PlainRead(pos: nat, name: string, shape: Shape, v: Value)
    requires shape != Interface
    ensures Read(PlainAccessor(pos, name, shape), v) == Ok(Seen(FieldValue(v, name)))
  {
  }

  /** On a plainly read field, struct.go's scalar rules are the scalar rule on the values read. */
  lemma PlainScalarRule(pos: nat, name: string, shape: Shape, at: Paths.Path, from: Value, to: Value, ct: ChangeType)
    requires shape != Interface
    ensures ScalarField(ScalarFieldOf(pos, name, shape), at, from, to, Seen(FieldValue(from, name)), Seen(FieldValue(to, name)), ct)
         == ScalarRule(at, Seen(FieldValue(from, name)), Seen(FieldValue(to, name)), ct)
  {
  }

  /** A field without a differ, once read, is compared by the scalar rule. */
  lemma PlainCompare(schema: Schema, sd: StructDiffer, pos: nat, name: string, shape: Shape, path: Paths.Path, from: Value, to: Value, ct: ChangeType, presence: bool)
    requires shape != Interface
    ensures var f := ScalarFieldOf(pos, name, shape);
            Read(f.from, from) == Ok(Seen(FieldValue(from, name))) && Read(f.to, to) == Ok(Seen(FieldValue(to, name)))
            && CompareField(schema, sd, f, path, from, to, Seen(FieldValue(from, name)), Seen(FieldValue(to, name)), ct, presence)
               == Emit(ScalarRule(Paths.Field(path, name), Seen(FieldValue(from, name)), Seen(FieldValue(to, name)), ct), Done)
  {
    PlainRead(pos, name, shape, from);
    PlainRead(pos, name, shape, to);
    PlainScalarRule(pos, name, shape, Paths.Field(path, name), from, to, ct);
  }

  /** A field compared without a differ and read plainly follows the scalar rule. */
  lemma PlainFieldStep(schema: Schema, sd: StructDiffer, pos: nat, name: string, shape: Shape, path: Paths.Path, from: Value, to: Value, ct: ChangeType)
    requires shape != Interface
    ensures FieldStep(schema, sd, ScalarFieldOf(pos, name, shape), path, from, to, ct, false)
         == Emit(ScalarRule(Paths.Field(path, name), Seen(FieldValue(from, name)), Seen(FieldValue(to, name)), ct), Done)
  {
    PlainCompare(schema, sd, pos, name, shape, path, from, to, ct, false);
    FieldCompared(schema, sd, ScalarFieldOf(pos, name, shape), path, from, to, ct, false);
  }

  /** The zero Time on both sides ends a Record walk without a change. */
  lemma RecordTimeQuiet(schema: Schema, sd: StructDiffer, path: Paths.Path, from: Value, to: Value, ct: ChangeType)
    requires sd.fields == RecordFields
    requires IsZero(FieldValue(from, "Time")) && IsZero(FieldValue(to, "Time"))
    ensures StructWalk(schema, sd, path, from, to, ct, false, 2) == Nothing
  {
    assert sd.fields[2] == ScalarFieldOf(3, "Time", TimeShape) && |sd.fields| == 3;
    PlainFieldStep(schema, sd, 3, "Time", TimeShape, path, from, to, ct);
    assert StructWalk(schema, sd, path, from, to, ct, false, 3) == Nothing;
  }

  /** After ID, a Record differ compares Name by the scalar rule; the zero Time adds nothing. */
  lemma RecordTail(schema: Schema, sd: StructDiffer, path: Paths.Path, from: Value, to: Value, ct: ChangeType)
    requires sd.fields == RecordFields
    requires IsZero(FieldValue(from, "Time")) && IsZero(FieldValue(to, "Time"))
    ensures StructWalk(schema, sd, path, from, to, ct, false, 1)
         == Emit(ScalarRule(Paths.Field(path, "Name"), Seen(FieldValue(from, "Name")), Seen(FieldValue(to, "Name")), ct), Done)
  {
    assert sd.fields[1] == ScalarFieldOf(1, "Name", Scalar(StringKind));
    PlainFieldStep(schema, sd, 1, "Name", Scalar(StringKind), path, from, to, ct);
    RecordTimeQuiet(schema, sd, path, from, to, ct);
    var rule := ScalarRule(Paths.Field(path, "Name"), Seen(FieldValue(from, "Name")), Seen(FieldValue(to, "Name")), ct);
    assert rule + [] == rule;
  }

  /** A Record differ compares ID and then Name by the scalar rule; the zero Time adds nothing. */
  lemma RecordDiff(schema: Schema, sd: StructDiffer, path: Paths.Path, from: Value, to: Value, ct: ChangeType)
    requires sd.fields == RecordFields
    requires IsZero(FieldValue(from, "Time")) && IsZero(FieldValue(to, "Time"))
    ensures StructDiff(schema, sd, path, from, to, ct, false)
         == Emit(ScalarRule(Paths.Field(path, "ID"), Seen(FieldValue(from, "ID")), Seen(FieldValue(to, "ID")), ct)
                 + ScalarRule(Paths.Field(path, "Name"), Seen(FieldValue(from, "Name")), Seen(FieldValue(to, "Name")), ct), Done)
  {
    assert sd.fields[0] == ScalarFieldOf(0, "ID", Scalar(IntKind));
    PlainFieldStep(schema, sd, 0, "ID", Scalar(IntKind), path, from, to, ct);
    RecordTail(schema, sd, path, from, to, ct);
  }

  lemma RecordFieldValues(id: int, name: string)
    ensures FieldValue(RecordPtr(id, name), "ID") == Num(IntKind, id)
    ensures FieldValue(RecordPtr(id, name), "Name") == Str(name)
    ensures FieldValue(RecordPtr(id, name), "Time") == Opaque(TimeShape, 0)
  {
    var fields := RecordPtr(id, name).target.fields;
    assert FieldsOf(RecordPtr(id, name)) == fields;
    assert "ID" != "Name" && "ID" != "Time" && "Name" != "Time" by {
      assert "ID"[0] != "Name"[0] && "ID"[0] != "Time"[0] && "Name"[0] != "Time"[0];
    }
    assert "ScratchPad" != "Time" by {
      assert "ScratchPad"[0] != "Time"[0];
    }
    var rest := fields[1..];
    assert rest == [("Name", Str(name)), ("ScratchPad", Str("")), ("Time", Opaque(TimeShape, 0))];
    assert Lookup(fields, "Name") == Lookup(rest, "Name") == Str(name);
    assert rest[1..][1..] == [("Time", Opaque(TimeShape, 0))];
    assert Lookup(rest[1..], "Time") == Lookup(rest[1..][1..], "Time") == Opaque(TimeShape, 0);
    assert Lookup(fields, "Time") == Lookup(rest, "Time") == Lookup(rest[1..], "Time");
  }

  /** What the scalar rule makes of two Records, ID first, in the change type discovered from the two sides. */
  function RecordChanges(from: Value, to: Value): seq<Change> {
    var ct := DiscoverChangeType(from, to);
    ScalarRule(Paths.Field(Paths.Root, "ID"), Seen(FieldValue(from, "ID")), Seen(FieldValue(to, "ID")), ct)
    + ScalarRule(Paths.Field(Paths.Root, "Name"), Seen(FieldValue(from, "Name")), Seen(FieldValue(to, "Name")), ct)
  }

  /** Differ.Diff of two Records, or of a Record and nil, with a zero Time: nothing fails, and the scalar rule decides. */
  lemma RecordTopLevel(schema: Schema, d: Differ, from: Value, to: Value)
    requires d.kind.StructKind? && d.kind.structDiffer.fields == RecordFields
    requires IsZero(FieldValue(from, "Time")) && IsZero(FieldValue(to, "Time"))
    ensures Diff(schema, d, from, to, false) == Ok(RecordChanges(from, to))
  {
    RecordDiff(schema, d.kind.structDiffer, Paths.Root, from, to, DiscoverChangeType(from, to));
  }

  /** A Record with a non-zero ID and a non-empty Name against nil deletes both. */
  lemma RecordDeletes(id: int, name: string)
    requires id != 0 && name != ""
    ensures RecordChanges(RecordPtr(id, name), Nil)
         == [DeleteChange(Paths.Field(Paths.Root, "ID"), Num(IntKind, id)), DeleteChange(Paths.Field(Paths.Root, "Name"), Str(name))]
  {
    RecordFieldValues(id, name);
    var c0, c1 := DeleteChange(Paths.Field(Paths.Root, "ID"), Num(IntKind, id)), DeleteChange(Paths.Field(Paths.Root, "Name"), Str(name));
    assert ScalarRule(Paths.Field(Paths.Root, "ID"), Num(IntKind, id), Nil, Delete) == [c0];
    assert ScalarRule(Paths.Field(Paths.Root, "Name"), Str(name), Nil, Delete) == [c1];
    assert [c0] + [c1] == [c0, c1];
  }

  /** Two Records with different non-zero IDs and different non-empty Names update both. */
  lemma RecordUpdates(id: int, name: string, id': int, name': string)
    requires id != 0 && id' != 0 && id != id' && name != "" && name' != "" && name != name'
    ensures RecordChanges(RecordPtr(id, name), RecordPtr(id', name'))
         == [UpdateChange(Paths.Field(Paths.Root, "ID"), Num(IntKind, id), Num(IntKind, id')),
             UpdateChange(Paths.Field(Paths.Root, "Name"), Str(name), Str(name'))]
  {
    RecordFieldValues(id, name);
    RecordFieldValues(id', name');
    var c0, c1 := UpdateChange(Paths.Field(Paths.Root, "ID"), Num(IntKind, id), Num(IntKind, id')), UpdateChange(Paths.Field(Paths.Root, "Name"), Str(name), Str(name'));
    assert ScalarRule(Paths.Field(Paths.Root, "ID"), Num(IntKind, id), Num(IntKind, id'), Update) == [c0];
    assert ScalarRule(Paths.Field(Paths.Root, "Name"), Str(name), Str(name'), Update) == [c1];
    assert [c0] + [c1] == [c0, c1];
  }

  /** nil against a Record with a non-zero ID and a non-empty Name creates both. */
  lemma RecordCreates(id: int, name: string)
    requires id != 0 && name != ""
    ensures RecordChanges(Nil, RecordPtr(id, name))
         == [CreateChange(Paths.Field(Paths.Root, "ID"), Num(IntKind, id)), CreateChange(Paths.Field(Paths.Root, "Name"), Str(name))]
  {
    RecordFieldValues(id, name);
    var c0, c1 := CreateChange(Paths.Field(Paths.Root, "ID"), Num(IntKind, id)), CreateChange(Paths.Field(Paths.Root, "Name"), Str(name));
    assert ScalarRule(Paths.Field(Paths.Root, "ID"), Nil, Num(IntKind, id), Create) == [c0];
    assert ScalarRule(Paths.Field(Paths.Root, "Name"), Nil, Str(name), Create) == [c1];
    assert [c0] + [c1] == [c0, c1];
  }

  /** basic struct - delete: `&Record{ID: 123, Name: "abc"}` against nil deletes ID and then Name. */
  lemma BasicStructDelete(schema: Schema, d: Differ)
    requires d.kind.StructKind? && d.kind.structDiffer.fields == RecordFields
    ensures Diff(schema, d, RecordPtr(123, "abc"), Nil, false)
         == Ok([DeleteChange(Paths.Field(Paths.Root, "ID"), Num(IntKind, 123)), DeleteChange(Paths.Field(Paths.Root, "Name"), Str("abc"))])
  {
    RecordFieldValues(123, "abc");
    RecordTopLevel(schema, d, RecordPtr(123, "abc"), Nil);
    RecordDeletes(123, "abc");
  }

  /** basic struct - update: both fields change, ID and then Name are updated. */
  lemma BasicStructUpdate(schema: Schema, d: Differ)
    requires d.kind.StructKind? && d.kind.structDiffer.fields == RecordFields
    ensures Diff(schema, d, RecordPtr(123, "abc"), RecordPtr(323, "xtz"), false)
         == Ok([UpdateChange(Paths.Field(Paths.Root, "ID"), Num(IntKind, 123), Num(IntKind, 323)),
                UpdateChange(Paths.Field(Paths.Root, "Name"), Str("abc"), Str("xtz"))])
  {
    RecordFieldValues(123, "abc");
    RecordFieldValues(323, "xtz");
    RecordTopLevel(schema, d, RecordPtr(123, "abc"), RecordPtr(323, "xtz"));
    assert "abc" != "xtz" by {
      assert "abc"[0] != "xtz"[0];
    }
    RecordUpdates(123, "abc", 323, "xtz");
  }

  /** basic struct - create: nil against `&Record{ID: 323, Name: "az"}` creates ID and then Name. */
  lemma BasicStructCreate(schema: Schema, d: Differ)
    requires d.kind.StructKind? && d.kind.structDiffer.fields == RecordFields
    ensures Diff(schema, d, Nil, RecordPtr(323, "az"), false)
         == Ok([CreateChange(Paths.Field(Paths.Root, "ID"), Num(IntKind, 323)), CreateChange(Paths.Field(Paths.Root, "Name"), Str("az"))])
  {
    RecordFieldValues(323, "az");
    RecordTopLevel(schema, d, Nil, RecordPtr(323, "az"));
    RecordCreates(323, "az");
  }

  // ---------------------------------------------------------------------
  // The presence case of the differ's tests

  /** Record fields whose names start with distinct letters. */
  predicate Initials(entries: seq<(string, Value)>) {
    && (forall j :: 0 <= j < |entries| ==> entries[j].0 != [])
    && (forall j, l :: 0 <= j < l < |entries| ==> entries[j].0[0] != entries[l].0[0])
  }

  /** With distinct initials, each name finds its own entry. */
  lemma {:induction false} LookupByInitial(entries: seq<(string, Value)>, i: nat)
    requires i < |entries| && Initials(entries)
    ensures Lookup(entries, entries[i].0) == entries[i].1
    decreases i
  {
    if i > 0 {
      assert entries[0].0 != entries[i].0 by {
        assert entries[0].0[0] != entries[i].0[0];
      }
      assert Initials(entries[1..]) by {
        forall j, l | 0 <= j < l < |entries[1..]|
          ensures entries[1..][j].0[0] != entries[1..][l].0[0]
        {
          assert entries[1..][j] == entries[j + 1] && entries[1..][l] == entries[l + 1];
        }
      }
      LookupByInitial(entries[1..], i - 1);
      assert entries[1..][i - 1] == entries[i];
    }
  }

  /** `&PresRecordHas{...}`: which PresRecord fields are marked as set. */
  function HasFlags(id: bool, name: bool, scratch: bool, time: bool): Value {
    Ref(Rec("PresRecordHas", [("ID", Flag(id)), ("Name", Flag(name)), ("ScratchPad", Flag(scratch)), ("Time", Flag(time))]))
  }

  /** `&PresRecord{...}` with Time at its zero value. */
  function PresRecordPtr(id: int, name: string, scratch: string, bar: int, has: Value): Value {
    Ref(Rec("PresRecord", [("ID", Num(IntKind, id)), ("Name", Str(name)), ("ScratchPad", Str(scratch)),
                           ("Time", Opaque(TimeShape, 0)), ("Bar", Num(IntKind, bar)), ("Has", has)]))
  }

  /** The two sides of the presence test. */
  const PresFrom: Value := PresRecordPtr(20, "abc", "", 23, HasFlags(true, true, false, false))
  const PresTo: Value := PresRecordPtr(21, "xyz", "xx", 0, HasFlags(false, true, true, false))

  const HasShape: Shape := Ptr(Struct("PresRecordHas"))

  /**
   * The presence flags of PresRecord: the holder is the `Has` field, and
   * each of ID, Name, ScratchPad and Time (positions 0 to 3) has a flag of
   * the same name; Bar and Has have none.
   */
  const PresFlags: Presence := Presence(Some(FieldDecl("Has", HasShape, "diff:\"presence=true\"")),
                                        [Some("ID"), Some("Name"), Some("ScratchPad"), Some("Time"), None, None])

  /**
   * The compared fields of PresRecord: ID, Name, Time and Bar. ScratchPad is
   * tagged `-`, and the holder `Has` carries the presence tag, so matchFields
   * keeps neither (struct.go:111-113).
   */
  const PresFields: seq<Field> := [
    ScalarFieldOf(0, "ID", Scalar(IntKind)),
    ScalarFieldOf(1, "Name", Scalar(StringKind)),
    ScalarFieldOf(3, "Time", TimeShape),
    ScalarFieldOf(4, "Bar", Scalar(IntKind))]

  lemma PresValues(id: int, name: string, scratch: string, bar: int, has: Value)
    ensures var r := PresRecordPtr(id, name, scratch, bar, has);
            && FieldValue(r, "ID") == Num(IntKind, id) && FieldValue(r, "Name") == Str(name)
            && FieldValue(r, "Time") == Opaque(TimeShape, 0) && FieldValue(r, "Bar") == Num(IntKind, bar)
            && FieldValue(r, "Has") == has
  {
    var entries := PresRecordPtr(id, name, scratch, bar, has).target.fields;
    assert FieldsOf(PresRecordPtr(id, name, scratch, bar, has)) == entries;
    PresInitials(id, name, scratch, bar, has);
    LookupByInitial(entries, 0);
    LookupByInitial(entries, 1);
    LookupByInitial(entries, 3);
    LookupByInitial(entries, 4);
    LookupByInitial(entries, 5);
  }

  /** PresRecord's field names start with distinct letters. */
  lemma PresInitials(id: int, name: string, scratch: string, bar: int, has: Value)
    ensures Initials(PresRecordPtr(id, name, scratch, bar, has).target.fields)
  {
    assert "ID"[0] == 'I' && "Name"[0] == 'N' && "ScratchPad"[0] == 'S' && "Time"[0] == 'T' && "Bar"[0] == 'B' && "Has"[0] == 'H';
  }

  lemma HasValues(id: bool, name: bool, scratch: bool, time: bool)
    ensures var r := HasFlags(id, name, scratch, time);
            FieldValue(r, "ID") == Flag(id) && FieldValue(r, "Name") == Flag(name) && FieldValue(r, "Time") == Flag(time)
  {
    var entries := HasFlags(id, name, scratch, time).target.fields;
    assert FieldsOf(HasFlags(id, name, scratch, time)) == entries;
    assert "ID"[0] == 'I' && "Name"[0] == 'N' && "ScratchPad"[0] == 'S' && "Time"[0] == 'T';
    assert Initials(entries);
    LookupByInitial(entries, 0);
    LookupByInitial(entries, 1);
    LookupByInitial(entries, 3);
  }

  /** The holder of "to" is present, so the flags are read from "to". */
  lemma PresHolderInTo()
    ensures PresenceRecord(PresFlags, PresFrom, PresTo) == PresTo
  {
    PresValues(21, "xyz", "xx", 0, HasFlags(false, true, true, false));
  }

  /** A flagged position is read from a present holder. */
  lemma HolderFlag(p: Presence, rec: Value, holder: Value, pos: nat)
    requires p.holder.Some? && pos < |p.slots| && p.slots[pos].Some?
    requires FieldValue(rec, p.holder.value.name) == holder && holder != Nil
    ensures IsFieldSet(p, rec, pos) == Ok(FieldValue(holder, p.slots[pos].value) == Flag(true))
  {
  }

  /** A flagged position is read from the holder in the test's "to". */
  lemma PresFlagged(pos: nat, name: string)
    requires pos < |PresFlags.slots| && PresFlags.slots[pos] == Some(name)
    ensures IsFieldSet(PresFlags, PresTo, pos) == Ok(FieldValue(HasFlags(false, true, true, false), name) == Flag(true))
  {
    PresValues(21, "xyz", "xx", 0, HasFlags(false, true, true, false));
    assert PresFlags.holder.value.name == "Has";
    HolderFlag(PresFlags, PresTo, HasFlags(false, true, true, false), pos);
  }

  /** What the holder in "to" marks among the compared fields: Name only. */
  lemma PresMarked(pos: nat)
    requires pos != 2
    ensures IsFieldSet(PresFlags, PresTo, pos) == Ok(pos == 1)
  {
    HasValues(false, true, true, false);
    if pos == 0 {
      PresFlagged(0, "ID");
    } else if pos == 1 {
      PresFlagged(1, "Name");
    } else if pos == 3 {
      PresFlagged(3, "Time");
    } else {
      assert pos >= |PresFlags.slots| || PresFlags.slots[pos].None?;
    }
  }

  /** A plainly read field the holder does not mark is passed over. */
  lemma PlainSkip(schema: Schema, sd: StructDiffer, f: Field, path: Paths.Path, from: Value, to: Value, ct: ChangeType, pos: nat, name: string, shape: Shape)
    requires shape != Interface && f.from == PlainAccessor(pos, name, shape) && f.to == f.from
    requires Marked(sd, f, from, to) == Ok(false)
    ensures FieldStep(schema, sd, f, path, from, to, ct, true) == Nothing
  {
    PlainRead(pos, name, shape, from);
    PlainRead(pos, name, shape, to);
    FieldPassedOver(schema, sd, f, path, from, to, ct);
  }

  /** How the holder marks PresRecord's compared fields, as in the test. */
  predicate PresMarks(sd: StructDiffer, from: Value, to: Value)
    requires |sd.fields| == 4
  {
    && Marked(sd, sd.fields[0], from, to) == Ok(false)
    && Marked(sd, sd.fields[1], from, to) == Ok(true)
    && Marked(sd, sd.fields[2], from, to) == Ok(false)
    && Marked(sd, sd.fields[3], from, to) == Ok(false)
  }

  /** The holder in the test's "to" marks Name and none of ID, Time and Bar. */
  lemma PresTestMarks(sd: StructDiffer)
    requires sd.fields == PresFields && sd.presence == PresFlags
    ensures PresMarks(sd, PresFrom, PresTo)
  {
    PresHolderInTo();
    PresMarked(0);
    PresMarked(1);
    PresMarked(3);
    PresMarked(4);
  }

  /** Bar, the last compared field, has no flag and records nothing. */
  lemma PresWalkTail(schema: Schema, sd: StructDiffer, path: Paths.Path, from: Value, to: Value, ct: ChangeType)
    requires sd.fields == PresFields && PresMarks(sd, from, to)
    ensures StructWalk(schema, sd, path, from, to, ct, true, 3) == Nothing
  {
    PlainSkip(schema, sd, sd.fields[3], path, from, to, ct, 4, "Bar", Scalar(IntKind));
    assert StructWalk(schema, sd, path, from, to, ct, true, 4) == Nothing;
  }

  /** Time and Bar, both unmarked, record nothing. */
  lemma PresWalkRest(schema: Schema, sd: StructDiffer, path: Paths.Path, from: Value, to: Value, ct: ChangeType)
    requires sd.fields == PresFields && PresMarks(sd, from, to)
    ensures StructWalk(schema, sd, path, from, to, ct, true, 2) == Nothing
  {
    PlainSkip(schema, sd, sd.fields[2], path, from, to, ct, 3, "Time", TimeShape);
    PresWalkTail(schema, sd, path, from, to, ct);
  }

  /** Name, marked, is compared by the scalar rule; nothing after it is recorded. */
  lemma PresWalkName(schema: Schema, sd: StructDiffer, path: Paths.Path, from: Value, to: Value, ct: ChangeType)
    requires sd.fields == PresFields && PresMarks(sd, from, to)
    ensures StructWalk(schema, sd, path, from, to, ct, true, 1)
         == Emit(ScalarRule(Paths.Field(path, "Name"), Seen(FieldValue(from, "Name")), Seen(FieldValue(to, "Name")), ct), Done)
  {
    var f := ScalarFieldOf(1, "Name", Scalar(StringKind));
    assert sd.fields[1] == f;
    PlainCompare(schema, sd, 1, "Name", Scalar(StringKind), path, from, to, ct, true);
    FieldCompared(schema, sd, f, path, from, to, ct, true);
    PresWalkRest(schema, sd, path, from, to, ct);
    var rule := ScalarRule(Paths.Field(path, "Name"), Seen(FieldValue(from, "Name")), Seen(FieldValue(to, "Name")), ct);
    assert rule + [] == rule;
  }

  /** With the test's marks, the whole PresRecord walk is Name's comparison alone. */
  lemma PresWalk(schema: Schema, sd: StructDiffer, path: Paths.Path, from: Value, to: Value, ct: ChangeType)
    requires sd.fields == PresFields && PresMarks(sd, from, to)
    ensures StructDiff(schema, sd, path, from, to, ct, true)
         == Emit(ScalarRule(Paths.Field(path, "Name"), Seen(FieldValue(from, "Name")), Seen(FieldValue(to, "Name")), ct), Done)
  {
    PlainSkip(schema, sd, sd.fields[0], path, from, to, ct, 0, "ID", Scalar(IntKind));
    PresWalkName(schema, sd, path, from, to, ct);
    var rule := ScalarRule(Paths.Field(path, "Name"), Seen(FieldValue(from, "Name")), Seen(FieldValue(to, "Name")), ct);
    assert [] + rule == rule;
  }

  /** A PresRecord with a non-empty Name is not nil, and its Name reads as itself. */
  lemma PresReadName(id: int, name: string, scratch: string, bar: int, has: Value)
    requires name != ""
    ensures var r := PresRecordPtr(id, name, scratch, bar, has);
            r != Nil && Seen(FieldValue(r, "Name")) == Str(name)
  {
    PresValues(id, name, scratch, bar, has);
  }

  /** The test's Name values differ, so Name is reported as an update. */
  lemma PresNameRule()
    ensures ScalarRule(Paths.Field(Paths.Root, "Name"), Seen(FieldValue(PresFrom, "Name")), Seen(FieldValue(PresTo, "Name")), DiscoverChangeType(PresFrom, PresTo))
         == [UpdateChange(Paths.Field(Paths.Root, "Name"), Str("abc"), Str("xyz"))]
  {
    PresReadName(20, "abc", "", 23, HasFlags(true, true, false, false));
    PresReadName(21, "xyz", "xx", 0, HasFlags(false, true, true, false));
    assert Str("abc") != Str("xyz") by {
      assert "abc"[0] != "xyz"[0];
    }
  }

  /** The test's PresRecord walk, in the change type discovered from its two sides. */
  lemma PresTestWalk(schema: Schema, sd: StructDiffer)
    requires sd.fields == PresFields && sd.presence == PresFlags
    ensures StructDiff(schema, sd, Paths.Root, PresFrom, PresTo, DiscoverChangeType(PresFrom, PresTo), true)
         == Emit([UpdateChange(Paths.Field(Paths.Root, "Name"), Str("abc"), Str("xyz"))], Done)
  {
    PresTestMarks(sd);
    PresWalk(schema, sd, Paths.Root, PresFrom, PresTo, DiscoverChangeType(PresFrom, PresTo));
    PresNameRule();
  }

  /**
   * diff with field presence check: with presence checking on, only Name,
   * which the holder in "to" marks and both sides hold differently, is
   * reported; ID changes too but is not marked, and Bar has no flag.
   */
  lemma PresenceExample(schema: Schema, d: Differ)
    requires d.kind.StructKind?
    requires d.kind.structDiffer.fields == PresFields && d.kind.structDiffer.presence == PresFlags
    ensures Diff(schema, d, PresFrom, PresTo, true) == Ok([UpdateChange(Paths.Field(Paths.Root, "Name"), Str("abc"), Str("xyz"))])
  {
    PresTestWalk(schema, d.kind.structDiffer);
  }
}
