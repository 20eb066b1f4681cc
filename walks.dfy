/**
 * The differs at work: each method appends to a ChangeLog what the
 * function of the same name in module Engine says, in the same order,
 * and returns how the walk ended. A returned error stops the walk it
 * comes from, as Go's `if err != nil { return err }` does; a panic is
 * returned as Crashed and stops everything.
 */
module Walks {
  import opened Wrappers
  import opened Shapes
  import opened Values
  import opened Failures
  import Paths
  import opened Changes
  import opened ChangeLogs
  import opened Tags
  import opened Accessors
  import opened Fields
  import opened Presences
  import opened Indexing
  import opened Sorting
  import opened Decoders
  import opened Differs
  import Engine

  /** What a caller sees of a walk that has logged `logged` so far and goes on with `rest`. */
  function After(logged: seq<Change>, rest: Engine.Emit): Engine.Emit {
    Engine.Then(Engine.Emit(logged, Engine.Done), rest)
  }

  lemma Regroup(a: seq<Change>, b: seq<Change>, c: seq<Change>)
    ensures (a + b) + c == a + (b + c)
  {
  }

  /** One step of a walk moves its changes into the log; a step that does not end normally ends the walk. */
  lemma AfterStep(logged: seq<Change>, step: Engine.Emit, rest: Engine.Emit)
    ensures step.status.Done? ==> After(logged, Engine.Then(step, rest)) == After(logged + step.changes, rest)
    ensures !step.status.Done? ==> After(logged, Engine.Then(step, rest)) == Engine.Emit(logged + step.changes, step.status)
  {
    Regroup(logged, step.changes, rest.changes);
  }

  /** Differ.Diff: a fresh log, the walk from the root, and a returned error logged at the root; a panic escapes. */
  method Diff(schema: Schema, d: Differ, from: Value, to: Value, presence: bool) returns (log: ChangeLog, panicked: Option<string>)
    ensures fresh(log)
    ensures Engine.Diff(schema, d, from, to, presence).Ok? ==>
              panicked.None? && log.changes == Engine.Diff(schema, d, from, to, presence).value
    ensures Engine.Diff(schema, d, from, to, presence).Panic? ==>
              panicked == Some(Engine.Diff(schema, d, from, to, presence).reason)
  {
    log := new ChangeLog();
    var st := DiffWith(schema, d, log, Paths.Root, from, to, Engine.DiscoverChangeType(from, to), presence);
    match st
    case Done => panicked := None;
    case Failed(e) =>
      log.AddError(Paths.Root, Some(e));
      panicked := None;
    case Crashed(why) => panicked := Some(why);
  }

  /** The scalar fallback of Differ.diff. */
  method ScalarDiff(log: ChangeLog, path: Paths.Path, from: Value, to: Value, ct: ChangeType)
    modifies log
    ensures log.changes == old(log.changes) + Engine.ScalarDiff(path, from, to, ct)
  {
    if !Matches(from, to) {
      if ct == Delete && to == Nil {
        log.AddDelete(path, from);
      } else if ct == Create && from == Nil {
        log.AddCreate(path, to);
      } else {
        log.AddUpdate(path, from, to);
      }
    }
  }

  /** Differ.diff: decode if the differ decodes, then dispatch. */
  method DiffWith(schema: Schema, d: Differ, log: ChangeLog, path: Paths.Path, from: Value, to: Value, ct: ChangeType, presence: bool)
    returns (st: Engine.Status)
    modifies log
    ensures log.changes == old(log.changes) + Engine.DiffWith(schema, d, path, from, to, ct, presence).changes
    ensures st == Engine.DiffWith(schema, d, path, from, to, ct, presence).status
    decreases Size(from) + Size(to), 12, 0
  {
    match d.kind
    case Plain =>
      ScalarDiff(log, path, from, to, ct);
      st := Engine.Done;
    case StructKind(sd) => st := StructDiff(schema, sd, log, path, from, to, ct, presence);
    case SliceKind(s) => st := SliceDiff(schema, s, log, path, from, to, ct, presence);
    case IfaceKind(tag) => st := IfaceDiff(schema, tag, log, path, from, to, ct, presence);
    case MapKind(m) =>
      Engine.MapBelow(from);
      Engine.MapBelow(to);
      st := MapDiff(schema, m, log, path, from, to, presence, Size(from), Size(to));
    case DecodedSlice(s, tag) =>
      st := DecodedSliceDiff(schema, d, s, tag, log, path, from, to, ct, presence);
    case DecodedMap(m, tag) =>
      st := DecodedMapDiff(schema, d, m, tag, log, path, from, to, ct, presence);
  }

  /** An item-decoding differ diffs, as a plain slice, what its decoder makes of the two sides. */
  lemma {:induction false} DiffWithDecodedItems(schema: Schema, d: Differ, s: SliceDiffer, tag: Tag, path: Paths.Path, from: Value, to: Value, ct: ChangeType, presence: bool)
    requires d.kind == DecodedSlice(s, tag)
    ensures Engine.DiffWith(schema, d, path, from, to, ct, presence)
         == Engine.PlainSliceDiff(schema, s, path, Engine.DecodeItemsOf(tag, from), Engine.DecodeItemsOf(tag, to))
  {
  }

  /** A pair-decoding differ diffs, as a map, what its decoder makes of the two sides. */
  lemma {:induction false} DiffWithDecodedPairs(schema: Schema, d: Differ, m: MapDiffer, tag: Tag, path: Paths.Path, from: Value, to: Value, ct: ChangeType, presence: bool)
    requires d.kind == DecodedMap(m, tag)
    ensures Engine.DiffWith(schema, d, path, from, to, ct, presence)
         == Engine.MapDiff(schema, m, path, Engine.DecodePairsOf(tag, from), Engine.DecodePairsOf(tag, to), presence, Size(from), Size(to))
  {
  }

  /** decodedSliceDiff: the item decoder runs on each non-nil side first. */
  method DecodedSliceDiff(schema: Schema, d: Differ, s: SliceDiffer, tag: Tag, log: ChangeLog, path: Paths.Path, from: Value, to: Value, ct: ChangeType, presence: bool)
    returns (st: Engine.Status)
    requires d.kind == DecodedSlice(s, tag)
    modifies log
    ensures log.changes == old(log.changes) + Engine.DiffWith(schema, d, path, from, to, ct, presence).changes
    ensures st == Engine.DiffWith(schema, d, path, from, to, ct, presence).status
  {
    DiffWithDecodedItems(schema, d, s, tag, path, from, to, ct, presence);
    var f, t := from, to;
    if from != Nil {
      f := DecodeItems(tag, from);
    }
    if to != Nil {
      t := DecodeItems(tag, to);
    }
    st := PlainSliceDiff(schema, s, log, path, f, t);
  }

  /** decodedMapDiff: the pair decoder runs on each non-nil side first. */
  method DecodedMapDiff(schema: Schema, d: Differ, m: MapDiffer, tag: Tag, log: ChangeLog, path: Paths.Path, from: Value, to: Value, ct: ChangeType, presence: bool)
    returns (st: Engine.Status)
    requires d.kind == DecodedMap(m, tag)
    modifies log
    ensures log.changes == old(log.changes) + Engine.DiffWith(schema, d, path, from, to, ct, presence).changes
    ensures st == Engine.DiffWith(schema, d, path, from, to, ct, presence).status
    decreases Size(from) + Size(to), 11, 0
  {
    DiffWithDecodedPairs(schema, d, m, tag, path, from, to, ct, presence);
    var f, t := from, to;
    if from != Nil {
      f := DecodePairs(tag, from);
    }
    if to != Nil {
      t := DecodePairs(tag, to);
    }
    assert f == Engine.DecodePairsOf(tag, from) && t == Engine.DecodePairsOf(tag, to);
    st := MapDiff(schema, m, log, path, f, t, presence, Size(from), Size(to));
  }

  // ---------------------------------------------------------------------
  // Structs

  /** structDiffer.diff: the fields in order until one returns an error or panics. */
  method StructDiff(schema: Schema, sd: StructDiffer, log: ChangeLog, path: Paths.Path, from: Value, to: Value, ct: ChangeType, presence: bool)
    returns (st: Engine.Status)
    modifies log
    ensures log.changes == old(log.changes) + Engine.StructDiff(schema, sd, path, from, to, ct, presence).changes
    ensures st == Engine.StructDiff(schema, sd, path, from, to, ct, presence).status
    decreases Size(from) + Size(to), 9, 0
  {
    var k := 0;
    while k < |sd.fields|
      invariant k <= |sd.fields|
      invariant After(log.changes, Engine.StructWalk(schema, sd, path, from, to, ct, presence, k))
             == After(old(log.changes), Engine.StructWalk(schema, sd, path, from, to, ct, presence, 0))
    {
      ghost var logged := log.changes;
      ghost var step := Engine.FieldStep(schema, sd, sd.fields[k], path, from, to, ct, presence);
      ghost var rest := Engine.StructWalk(schema, sd, path, from, to, ct, presence, k + 1);
      assert Engine.StructWalk(schema, sd, path, from, to, ct, presence, k) == Engine.Then(step, rest);
      var s := FieldStep(schema, sd, sd.fields[k], log, path, from, to, ct, presence);
      AfterStep(logged, step, rest);
      if !s.Done? {
        return s;
      }
      k := k + 1;
    }
    st := Engine.Done;
  }

  /** One field: read both sides, consult the presence flags, compare. */
  method FieldStep(schema: Schema, sd: StructDiffer, f: Field, log: ChangeLog, path: Paths.Path, from: Value, to: Value, ct: ChangeType, presence: bool)
    returns (st: Engine.Status)
    modifies log
    ensures log.changes == old(log.changes) + Engine.FieldStep(schema, sd, f, path, from, to, ct, presence).changes
    ensures st == Engine.FieldStep(schema, sd, f, path, from, to, ct, presence).status
    decreases Size(from) + Size(to), 7, 0
  {
    var at := Paths.Field(path, f.name);
    var rf := Read(f.from, from);
    if rf.Fail? {
      log.AddError(at, Some(rf.error));
      return Engine.Done;
    }
    var rt := Read(f.to, to);
    if rt.Fail? {
      log.AddError(at, Some(rt.error));
      return Engine.Done;
    }
    st := PresentField(schema, sd, f, log, path, from, to, rf.value, rt.value, ct, presence);
  }

  /** A field both of whose sides were read: skipped when the presence flags say so, compared otherwise. */
  method PresentField(schema: Schema, sd: StructDiffer, f: Field, log: ChangeLog, path: Paths.Path, from: Value, to: Value, fv: Value, tv: Value, ct: ChangeType, presence: bool)
    returns (st: Engine.Status)
    requires Read(f.from, from) == Ok(fv) && Read(f.to, to) == Ok(tv)
    modifies log
    ensures log.changes == old(log.changes) + Engine.FieldStep(schema, sd, f, path, from, to, ct, presence).changes
    ensures st == Engine.FieldStep(schema, sd, f, path, from, to, ct, presence).status
    decreases Size(from) + Size(to), 6, 1
  {
    if presence {
      var present := IsFieldSet(sd.presence, Engine.PresenceRecord(sd.presence, from, to), f.to.pos);
      match present
      case Fail(e) => return Engine.Failed(e);
      case Panic(why) => return Engine.Crashed(why);
      case Ok(isSet) =>
        if !isSet || f.tag.presence {
          return Engine.Done;
        }
    }
    st := CompareField(schema, sd, f, log, path, from, to, fv, tv, ct, presence);
  }

  /** A field's comparison: skipped when both sides are nil, delegated when it has a differ, scalar otherwise. */
  method CompareField(schema: Schema, sd: StructDiffer, f: Field, log: ChangeLog, path: Paths.Path, from: Value, to: Value, fv: Value, tv: Value, ct: ChangeType, presence: bool)
    returns (st: Engine.Status)
    requires Read(f.from, from) == Ok(fv) && Read(f.to, to) == Ok(tv)
    modifies log
    ensures log.changes == old(log.changes) + Engine.CompareField(schema, sd, f, path, from, to, fv, tv, ct, presence).changes
    ensures st == Engine.CompareField(schema, sd, f, path, from, to, fv, tv, ct, presence).status
    decreases Size(from) + Size(to), 6, 0
  {
    var at := Paths.Field(path, f.name);
    if fv == Nil && tv == Nil {
      return Engine.Done;
    }
    var args := Engine.FieldArgs(f, from, to, fv, tv);
    match f.plan
    case NoDiffer =>
      ScalarField(f, log, at, from, to, fv, tv, ct);
      st := Engine.Done;
    case Self => st := StructDiff(schema, sd, log, at, args.0, args.1, args.2, presence);
    case Nested(d) => st := DiffWith(schema, d, log, at, args.0, args.1, args.2, presence);
  }

  /** A field without a differ: created, deleted or updated as its change type and values say. */
  method ScalarField(f: Field, log: ChangeLog, at: Paths.Path, from: Value, to: Value, fv: Value, tv: Value, ct: ChangeType)
    modifies log
    ensures log.changes == old(log.changes) + Engine.ScalarField(f, at, from, to, fv, tv, ct)
  {
    if ct == Create && !IsNilField(FieldValue(to, f.to.name), f.to.shape) {
      log.AddCreate(at, tv);
    } else if ct == Delete && !IsNilField(FieldValue(from, f.from.name), f.from.shape) {
      log.AddDelete(at, fv);
    } else if !Matches(fv, tv) {
      log.AddUpdate(at, fv, tv);
    }
  }

  // ---------------------------------------------------------------------
  // Interfaces

  /** ifaceDiffer.diff: structs behind the interfaces are compared by a struct differ for their types. */
  method IfaceDiff(schema: Schema, tag: Option<Tag>, log: ChangeLog, path: Paths.Path, from: Value, to: Value, ct: ChangeType, presence: bool)
    returns (st: Engine.Status)
    modifies log
    ensures log.changes == old(log.changes) + Engine.IfaceDiff(schema, tag, path, from, to, ct, presence).changes
    ensures st == Engine.IfaceDiff(schema, tag, path, from, to, ct, presence).status
    decreases Size(from) + Size(to), 11, 0
  {
    match Engine.IfaceTarget(from, to, ct)
    case None => st := Engine.Done;
    case Some(c) => st := IfaceStruct(schema, tag, c.fromType, c.toType, log, path, c.from, c.to, c.ct, presence);
  }

  /** The registry's struct differ for the two types compares the two sides; an error building it is passed on. */
  method IfaceStruct(schema: Schema, tag: Option<Tag>, fromType: Shape, toType: Shape, log: ChangeLog, path: Paths.Path, from: Value, to: Value, ct: ChangeType, presence: bool)
    returns (st: Engine.Status)
    modifies log
    ensures log.changes == old(log.changes) + Engine.IfaceStruct(schema, tag, fromType, toType, path, from, to, ct, presence).changes
    ensures st == Engine.IfaceStruct(schema, tag, fromType, toType, path, from, to, ct, presence).status
    decreases Size(from) + Size(to), 10, 0
  {
    var built := NewStructDiffer(schema, fromType, toType, Settings.RegistryConfig(tag), NestingLimit);
    match built
    case Ok(sd) => st := StructDiff(schema, sd, log, path, from, to, ct, presence);
    case Fail(e) => st := Engine.Failed(e);
    case Panic(why) => st := Engine.Crashed(why);
  }

  // ---------------------------------------------------------------------
  // Slices

  /** sliceDiffer.diff. */
  method SliceDiff(schema: Schema, s: SliceDiffer, log: ChangeLog, path: Paths.Path, from: Value, to: Value, ct: ChangeType, presence: bool)
    returns (st: Engine.Status)
    modifies log
    ensures log.changes == old(log.changes) + Engine.SliceDiff(schema, s, path, from, to, ct, presence).changes
    ensures st == Engine.SliceDiff(schema, s, path, from, to, ct, presence).status
    decreases Size(from) + Size(to), 11, 0
  {
    if s.isInterface {
      st := IfaceSliceDiff(schema, s, log, path, from, to, ct, presence);
    } else if s.item.None? {
      st := PlainSliceDiff(schema, s, log, path, from, to);
    } else {
      st := ItemSliceDiff(schema, s, s.item.value, log, path, from, to, presence);
    }
  }

  /** What diffSliceElements logs at one index for scalar elements. */
  method ScalarAt(log: ChangeLog, path: Paths.Path, fi: seq<Value>, ti: seq<Value>, mode: ChangeType, i: nat)
    modifies log
    ensures log.changes == old(log.changes) + Engine.ScalarAt(path, fi, ti, mode, i)
  {
    var at := Paths.Element(path, i);
    match mode {
      case Create => log.AddCreate(at, Engine.At(ti, i));
      case Delete => log.AddCreate(at, Engine.At(fi, i));
      case Update =>
        if |fi| <= i {
          log.AddCreate(at, Engine.At(ti, i));
        } else if |ti| <= i {
          log.AddCreate(at, fi[i]);
        } else if !Matches(fi[i], ti[i]) {
          log.AddUpdate(at, fi[i], ti[i]);
        }
      case Untyped =>
    }
  }

  /** diffSliceElements for scalars: one index after the other. */
  method ScalarWalk(log: ChangeLog, path: Paths.Path, fi: seq<Value>, ti: seq<Value>, mode: ChangeType)
    modifies log
    ensures log.changes == old(log.changes) + Engine.ScalarWalk(path, fi, ti, mode, 0)
  {
    var i := 0;
    while i < Engine.Larger(|fi|, |ti|)
      invariant i <= Engine.Larger(|fi|, |ti|)
      invariant log.changes + Engine.ScalarWalk(path, fi, ti, mode, i) == old(log.changes) + Engine.ScalarWalk(path, fi, ti, mode, 0)
    {
      ghost var logged := log.changes;
      ScalarAt(log, path, fi, ti, mode, i);
      Regroup(logged, Engine.ScalarAt(path, fi, ti, mode, i), Engine.ScalarWalk(path, fi, ti, mode, i + 1));
      i := i + 1;
    }
  }

  /** A key's entry is at position j exactly when j is the key's last occurrence. */
  lemma EntryAtLast(keys: seq<Value>, items: seq<Value>, j: nat)
    requires |keys| == |items| && j < |keys|
    ensures keys[j] in Index(keys, items)
    ensures Index(keys, items)[keys[j]].index == j <==> LastAt(keys, j)
  {
    IndexPrefixDomain(keys, items, |keys|);
    IndexPrefixEntries(keys, items, |keys|);
    assert EntryFor(keys, items, |keys|, keys[j], Index(keys, items)[keys[j]]);
    if LastAt(keys, j) {
      IndexAtLast(keys, items, j);
    }
  }

  /** The first loop of diffIndexedElement for scalars: each "from" key, in the order of its entry's position. */
  method IndexedScalars(log: ChangeLog, path: Paths.Path, fk: seq<Value>, fi: seq<Value>, tk: seq<Value>, ti: seq<Value>,
                        fromIndex: map<Value, IndexEntry>, toIndex: map<Value, IndexEntry>)
    requires |fk| == |fi| && |tk| == |ti|
    requires fromIndex == Index(fk, fi) && toIndex == Index(tk, ti)
    modifies log
    ensures log.changes == old(log.changes) + Engine.IndexedScalars(path, fk, fi, tk, ti, 0)
  {
    var j := 0;
    while j < |fk|
      invariant j <= |fk|
      invariant log.changes + Engine.IndexedScalars(path, fk, fi, tk, ti, j) == old(log.changes) + Engine.IndexedScalars(path, fk, fi, tk, ti, 0)
    {
      ghost var logged := log.changes;
      ghost var rest := Engine.IndexedScalars(path, fk, fi, tk, ti, j + 1);
      EntryAtLast(fk, fi, j);
      var key := fk[j];
      if fromIndex[key].index == j {
        if key !in toIndex {
          log.AddDelete(Paths.Element(path, j), fi[j]);
        } else if !Matches(fi[j], toIndex[key].value) {
          log.AddUpdate(Paths.Element(path, j), fi[j], toIndex[key].value);
        }
      }
      Regroup(logged, log.changes[|logged|..], rest);
      assert log.changes == logged + log.changes[|logged|..];
      j := j + 1;
    }
  }

  /** The second loop of diffIndexedElement: keys only in "to" are created at their "to" position. */
  method ToOnly(log: ChangeLog, path: Paths.Path, fk: seq<Value>, fi: seq<Value>, tk: seq<Value>, ti: seq<Value>,
                fromIndex: map<Value, IndexEntry>, toIndex: map<Value, IndexEntry>)
    requires |fk| == |fi| && |tk| == |ti|
    requires fromIndex == Index(fk, fi) && toIndex == Index(tk, ti)
    modifies log
    ensures log.changes == old(log.changes) + Engine.ToOnly(path, fk, fi, tk, ti, 0)
  {
    var j := 0;
    while j < |tk|
      invariant j <= |tk|
      invariant log.changes + Engine.ToOnly(path, fk, fi, tk, ti, j) == old(log.changes) + Engine.ToOnly(path, fk, fi, tk, ti, 0)
    {
      ghost var logged := log.changes;
      ghost var rest := Engine.ToOnly(path, fk, fi, tk, ti, j + 1);
      EntryAtLast(tk, ti, j);
      var key := tk[j];
      if toIndex[key].index == j && key !in fromIndex {
        log.AddCreate(Paths.Element(path, j), ti[j]);
      }
      Regroup(logged, log.changes[|logged|..], rest);
      assert log.changes == logged + log.changes[|logged|..];
      j := j + 1;
    }
  }

  /** diffTypedSlice without an item differ: sort if asked, then by key or by position. */
  method PlainSliceDiff(schema: Schema, s: SliceDiffer, log: ChangeLog, path: Paths.Path, from: Value, to: Value)
    returns (st: Engine.Status)
    modifies log
    ensures log.changes == old(log.changes) + Engine.PlainSliceDiff(schema, s, path, from, to).changes
    ensures st == Engine.PlainSliceDiff(schema, s, path, from, to).status
  {
    var f, t := from, to;
    if s.tag.sort {
      f, t := SortPrimitive(from), SortPrimitive(to);
    }
    var fi, ti := Items(f), Items(t);
    if s.tag.indexBy != [] && |fi| > 0 && |ti| > 0 {
      st := IndexedPlainSlice(schema, s, log, path, from, to, f, t);
    } else {
      ScalarWalk(log, path, fi, ti, Engine.SliceMode(f, t));
      st := Engine.Done;
    }
  }

  /** The by-key half of diffTypedSlice without an item differ: both sides indexed, then the two loops. */
  method IndexedPlainSlice(schema: Schema, s: SliceDiffer, log: ChangeLog, path: Paths.Path, from: Value, to: Value, f: Value, t: Value)
    returns (st: Engine.Status)
    requires f == (if s.tag.sort then SortPrimitive(from) else from)
    requires t == (if s.tag.sort then SortPrimitive(to) else to)
    requires s.tag.indexBy != [] && |Items(f)| > 0 && |Items(t)| > 0
    modifies log
    ensures log.changes == old(log.changes) + Engine.PlainSliceDiff(schema, s, path, from, to).changes
    ensures st == Engine.PlainSliceDiff(schema, s, path, from, to).status
  {
    var fi, ti := Items(f), Items(t);
    var fromIndexer := new Indexer();
    var toIndexer := new Indexer();
    var fromIndex := fromIndexer.IndexBy(schema, fi, s.fromElem, s.tag.indexBy);
    var toIndex := toIndexer.IndexBy(schema, ti, s.toElem, s.tag.indexBy);
    if fromIndex.Panic? {
      return Engine.Crashed(fromIndex.reason);
    } else if toIndex.Panic? {
      return Engine.Crashed(toIndex.reason);
    }
    var fk := KeysBy(schema, s.tag.indexBy, s.fromElem, fi).value;
    var tk := KeysBy(schema, s.tag.indexBy, s.toElem, ti).value;
    assert fromIndex.value == Index(fk, fi) && toIndex.value == Index(tk, ti);
    ghost var logged := log.changes;
    IndexedScalars(log, path, fk, fi, tk, ti, fromIndex.value, toIndex.value);
    ToOnly(log, path, fk, fi, tk, ti, fromIndex.value, toIndex.value);
    Regroup(logged, Engine.IndexedScalars(path, fk, fi, tk, ti, 0), Engine.ToOnly(path, fk, fi, tk, ti, 0));
    assert Engine.PlainSliceDiff(schema, s, path, from, to)
        == Engine.Emit(Engine.IndexedScalars(path, fk, fi, tk, ti, 0) + Engine.ToOnly(path, fk, fi, tk, ti, 0), Engine.Done);
    st := Engine.Done;
  }

  /** diffTypedSlice with a struct item differ. */
  method ItemSliceDiff(schema: Schema, s: SliceDiffer, sd: StructDiffer, log: ChangeLog, path: Paths.Path, from: Value, to: Value, presence: bool)
    returns (st: Engine.Status)
    modifies log
    ensures log.changes == old(log.changes) + Engine.ItemSliceDiff(schema, s, sd, path, from, to, presence).changes
    ensures st == Engine.ItemSliceDiff(schema, s, sd, path, from, to, presence).status
    decreases Size(from) + Size(to), 10, 0
  {
    var fi, ti := Items(from), Items(to);
    ItemsOfBelow(from);
    ItemsOfBelow(to);
    if s.tag.indexBy != [] && |fi| > 0 && |ti| > 0 {
      var fromIndexer := new Indexer();
      var toIndexer := new Indexer();
      var fromIndex := fromIndexer.IndexBy(schema, fi, s.fromElem, s.tag.indexBy);
      var toIndex := toIndexer.IndexBy(schema, ti, s.toElem, s.tag.indexBy);
      if fromIndex.Panic? {
        return Engine.Crashed(fromIndex.reason);
      } else if toIndex.Panic? {
        return Engine.Crashed(toIndex.reason);
      }
      var fk := KeysBy(schema, s.tag.indexBy, s.fromElem, fi).value;
      var tk := KeysBy(schema, s.tag.indexBy, s.toElem, ti).value;
      st := KeyedItems(schema, sd, log, path, fk, fi, tk, ti, fromIndex.value, toIndex.value, presence, Size(from), Size(to));
    } else {
      st := ItemWalk(schema, sd, log, path, fi, ti, Engine.SliceMode(from, to), presence, Size(from), Size(to));
    }
  }

  /** diffIndexedElement with a struct item differ: the common keys compared, then, unless that failed, the keys only in "to" created. */
  method KeyedItems(schema: Schema, sd: StructDiffer, log: ChangeLog, path: Paths.Path, fk: seq<Value>, fi: seq<Value>, tk: seq<Value>, ti: seq<Value>,
                    fromIndex: map<Value, IndexEntry>, toIndex: map<Value, IndexEntry>, presence: bool, fromCap: nat, toCap: nat)
    returns (st: Engine.Status)
    requires |fk| == |fi| && |tk| == |ti|
    requires fromIndex == Index(fk, fi) && toIndex == Index(tk, ti)
    requires ItemsBelow(fi, fromCap) && ItemsBelow(ti, toCap)
    modifies log
    ensures log.changes == old(log.changes)
              + Engine.Then(Engine.IndexedItems(schema, sd, path, fk, fi, tk, ti, presence, 0, fromCap, toCap),
                            Engine.Emit(Engine.ToOnly(path, fk, fi, tk, ti, 0), Engine.Done)).changes
    ensures st == Engine.Then(Engine.IndexedItems(schema, sd, path, fk, fi, tk, ti, presence, 0, fromCap, toCap),
                              Engine.Emit(Engine.ToOnly(path, fk, fi, tk, ti, 0), Engine.Done)).status
    decreases fromCap + toCap, 9, 0
  {
    st := IndexedItems(schema, sd, log, path, fk, fi, tk, ti, fromIndex, toIndex, presence, fromCap, toCap);
    if st.Done? {
      ToOnly(log, path, fk, fi, tk, ti, fromIndex, toIndex);
    }
  }

  /** diffSliceElements with a struct item differ: each index through the item differ until one fails. */
  method ItemWalk(schema: Schema, sd: StructDiffer, log: ChangeLog, path: Paths.Path, fi: seq<Value>, ti: seq<Value>, mode: ChangeType, presence: bool, fromCap: nat, toCap: nat)
    returns (st: Engine.Status)
    requires ItemsBelow(fi, fromCap) && ItemsBelow(ti, toCap)
    modifies log
    ensures log.changes == old(log.changes) + Engine.ItemWalk(schema, sd, path, fi, ti, mode, presence, 0, fromCap, toCap).changes
    ensures st == Engine.ItemWalk(schema, sd, path, fi, ti, mode, presence, 0, fromCap, toCap).status
    decreases fromCap + toCap, 8, 0
  {
    var i := 0;
    while i < Engine.Larger(|fi|, |ti|)
      invariant i <= Engine.Larger(|fi|, |ti|)
      invariant After(log.changes, Engine.ItemWalk(schema, sd, path, fi, ti, mode, presence, i, fromCap, toCap))
             == After(old(log.changes), Engine.ItemWalk(schema, sd, path, fi, ti, mode, presence, 0, fromCap, toCap))
    {
      ghost var logged := log.changes;
      ghost var step := Engine.ItemStep(schema, sd, path, fi, ti, mode, presence, i, fromCap, toCap);
      ghost var rest := Engine.ItemWalk(schema, sd, path, fi, ti, mode, presence, i + 1, fromCap, toCap);
      assert Engine.ItemWalk(schema, sd, path, fi, ti, mode, presence, i, fromCap, toCap) == Engine.Then(step, rest);
      var s := ItemStep(schema, sd, log, path, fi, ti, mode, presence, i, fromCap, toCap);
      AfterStep(logged, step, rest);
      if !s.Done? {
        return s;
      }
      i := i + 1;
    }
    st := Engine.Done;
  }

  /** One index of diffSliceElements with a struct item differ. */
  method ItemStep(schema: Schema, sd: StructDiffer, log: ChangeLog, path: Paths.Path, fi: seq<Value>, ti: seq<Value>, mode: ChangeType, presence: bool, i: nat, fromCap: nat, toCap: nat)
    returns (st: Engine.Status)
    requires ItemsBelow(fi, fromCap) && ItemsBelow(ti, toCap)
    requires i < |fi| || i < |ti|
    modifies log
    ensures log.changes == old(log.changes) + Engine.ItemStep(schema, sd, path, fi, ti, mode, presence, i, fromCap, toCap).changes
    ensures st == Engine.ItemStep(schema, sd, path, fi, ti, mode, presence, i, fromCap, toCap).status
    decreases fromCap + toCap, 7, 0
  {
    var at := Paths.Element(path, i);
    Engine.CapsCover(fi, ti, i, fromCap, toCap);
    match mode
    case Create => st := StructDiff(schema, sd, log, at, Nil, Engine.At(ti, i), Create, presence);
    case Delete => st := StructDiff(schema, sd, log, at, Engine.At(fi, i), Nil, Delete, presence);
    case Update =>
      if |fi| <= i {
        st := StructDiff(schema, sd, log, at, Nil, Engine.At(ti, i), Create, presence);
      } else if |ti| <= i {
        st := StructDiff(schema, sd, log, at, fi[i], Nil, Delete, presence);
      } else {
        st := StructDiff(schema, sd, log, at, fi[i], ti[i], Update, presence);
      }
    case Untyped => st := Engine.Done;
  }

  /** diffIndexedElement with a struct item differ: common keys are compared at the slice's path. */
  method IndexedItems(schema: Schema, sd: StructDiffer, log: ChangeLog, path: Paths.Path, fk: seq<Value>, fi: seq<Value>, tk: seq<Value>, ti: seq<Value>,
                      fromIndex: map<Value, IndexEntry>, toIndex: map<Value, IndexEntry>, presence: bool, fromCap: nat, toCap: nat)
    returns (st: Engine.Status)
    requires |fk| == |fi| && |tk| == |ti|
    requires fromIndex == Index(fk, fi) && toIndex == Index(tk, ti)
    requires ItemsBelow(fi, fromCap) && ItemsBelow(ti, toCap)
    modifies log
    ensures log.changes == old(log.changes) + Engine.IndexedItems(schema, sd, path, fk, fi, tk, ti, presence, 0, fromCap, toCap).changes
    ensures st == Engine.IndexedItems(schema, sd, path, fk, fi, tk, ti, presence, 0, fromCap, toCap).status
    decreases fromCap + toCap, 8, 0
  {
    var j := 0;
    while j < |fk|
      invariant j <= |fk|
      invariant After(log.changes, Engine.IndexedItems(schema, sd, path, fk, fi, tk, ti, presence, j, fromCap, toCap))
             == After(old(log.changes), Engine.IndexedItems(schema, sd, path, fk, fi, tk, ti, presence, 0, fromCap, toCap))
    {
      ghost var logged := log.changes;
      ghost var step := Engine.IndexedItem(schema, sd, path, fk, fi, tk, ti, presence, j, fromCap, toCap);
      ghost var rest := Engine.IndexedItems(schema, sd, path, fk, fi, tk, ti, presence, j + 1, fromCap, toCap);
      assert Engine.IndexedItems(schema, sd, path, fk, fi, tk, ti, presence, j, fromCap, toCap) == Engine.Then(step, rest);
      var s := IndexedItem(schema, sd, log, path, fk, fi, tk, ti, fromIndex, toIndex, presence, j, fromCap, toCap);
      AfterStep(logged, step, rest);
      if !s.Done? {
        return s;
      }
      j := j + 1;
    }
    st := Engine.Done;
  }

  /** One "from" key of diffIndexedElement with a struct item differ. */
  method IndexedItem(schema: Schema, sd: StructDiffer, log: ChangeLog, path: Paths.Path, fk: seq<Value>, fi: seq<Value>, tk: seq<Value>, ti: seq<Value>,
                     fromIndex: map<Value, IndexEntry>, toIndex: map<Value, IndexEntry>, presence: bool, j: nat, fromCap: nat, toCap: nat)
    returns (st: Engine.Status)
    requires |fk| == |fi| && |tk| == |ti| && j < |fk|
    requires fromIndex == Index(fk, fi) && toIndex == Index(tk, ti)
    requires ItemsBelow(fi, fromCap) && ItemsBelow(ti, toCap)
    modifies log
    ensures log.changes == old(log.changes) + Engine.IndexedItem(schema, sd, path, fk, fi, tk, ti, presence, j, fromCap, toCap).changes
    ensures st == Engine.IndexedItem(schema, sd, path, fk, fi, tk, ti, presence, j, fromCap, toCap).status
    decreases fromCap + toCap, 7, 0
  {
    EntryAtLast(fk, fi, j);
    EntriesAreItems(tk, ti);
    var key := fk[j];
    if fromIndex[key].index != j {
      st := Engine.Done;
    } else if key !in toIndex {
      log.AddDelete(Paths.Element(path, j), fi[j]);
      st := Engine.Done;
    } else {
      st := StructDiff(schema, sd, log, path, fi[j], toIndex[key].value, Update, presence);
    }
  }

  /** diffIfacedSlice: each index through the registry's differ for its element type. */
  method IfaceSliceDiff(schema: Schema, s: SliceDiffer, log: ChangeLog, path: Paths.Path, from: Value, to: Value, ct: ChangeType, presence: bool)
    returns (st: Engine.Status)
    modifies log
    ensures log.changes == old(log.changes) + Engine.IfaceSliceDiff(schema, s, path, from, to, ct, presence).changes
    ensures st == Engine.IfaceSliceDiff(schema, s, path, from, to, ct, presence).status
    decreases Size(from) + Size(to), 10, 0
  {
    ItemsOfBelow(from);
    ItemsOfBelow(to);
    st := IfaceSliceWalk(schema, s.tag, log, path, Items(from), Items(to), ct, presence, Size(from), Size(to));
  }

  method IfaceSliceWalk(schema: Schema, tag: Tag, log: ChangeLog, path: Paths.Path, fi: seq<Value>, ti: seq<Value>, ct: ChangeType, presence: bool, fromCap: nat, toCap: nat)
    returns (st: Engine.Status)
    requires ItemsBelow(fi, fromCap) && ItemsBelow(ti, toCap)
    modifies log
    ensures log.changes == old(log.changes) + Engine.IfaceSliceWalk(schema, tag, path, fi, ti, ct, presence, 0, fromCap, toCap).changes
    ensures st == Engine.IfaceSliceWalk(schema, tag, path, fi, ti, ct, presence, 0, fromCap, toCap).status
    decreases fromCap + toCap, 8, 0
  {
    var i := 0;
    while i < Engine.Larger(|fi|, |ti|)
      invariant i <= Engine.Larger(|fi|, |ti|)
      invariant After(log.changes, Engine.IfaceSliceWalk(schema, tag, path, fi, ti, ct, presence, i, fromCap, toCap))
             == After(old(log.changes), Engine.IfaceSliceWalk(schema, tag, path, fi, ti, ct, presence, 0, fromCap, toCap))
    {
      ghost var logged := log.changes;
      ghost var step := Engine.IfaceSliceStep(schema, tag, path, fi, ti, ct, presence, i, fromCap, toCap);
      ghost var rest := Engine.IfaceSliceWalk(schema, tag, path, fi, ti, ct, presence, i + 1, fromCap, toCap);
      assert Engine.IfaceSliceWalk(schema, tag, path, fi, ti, ct, presence, i, fromCap, toCap) == Engine.Then(step, rest);
      var s := IfaceSliceStep(schema, tag, log, path, fi, ti, ct, presence, i, fromCap, toCap);
      AfterStep(logged, step, rest);
      if !s.Done? {
        return s;
      }
      i := i + 1;
    }
    st := Engine.Done;
  }

  /** One index of diffIfacedSlice; a surplus "from" element is read from "from". */
  method IfaceSliceStep(schema: Schema, tag: Tag, log: ChangeLog, path: Paths.Path, fi: seq<Value>, ti: seq<Value>, ct: ChangeType, presence: bool, i: nat, fromCap: nat, toCap: nat)
    returns (st: Engine.Status)
    requires ItemsBelow(fi, fromCap) && ItemsBelow(ti, toCap)
    modifies log
    ensures log.changes == old(log.changes) + Engine.IfaceSliceStep(schema, tag, path, fi, ti, ct, presence, i, fromCap, toCap).changes
    ensures st == Engine.IfaceSliceStep(schema, tag, path, fi, ti, ct, presence, i, fromCap, toCap).status
    decreases fromCap + toCap, 7, 0
  {
    var at := Paths.Element(path, i);
    match ct
    case Create => st := ElementDiff(schema, Some(tag), log, at, Nil, Engine.At(ti, i), Create, presence, fromCap, toCap);
    case Delete => st := ElementDiff(schema, Some(tag), log, at, Engine.At(fi, i), Nil, Delete, presence, fromCap, toCap);
    case Update =>
      if |fi| <= i {
        st := ElementDiff(schema, Some(tag), log, at, Nil, Engine.At(ti, i), Create, presence, fromCap, toCap);
      } else if |ti| <= i {
        st := ElementDiff(schema, Some(tag), log, at, fi[i], Nil, Delete, presence, fromCap, toCap);
      } else {
        st := ElementDiff(schema, Some(tag), log, at, fi[i], ti[i], Update, presence, fromCap, toCap);
      }
    case Untyped => st := Engine.Done;
  }

  /** diffIfaceElement, as intended: both sides one pointer level down, through the differ for the element type. */
  method ElementDiff(schema: Schema, tag: Option<Tag>, log: ChangeLog, at: Paths.Path, from: Value, to: Value, ct: ChangeType, presence: bool, fromCap: nat, toCap: nat)
    returns (st: Engine.Status)
    requires from == Nil || Size(from) < fromCap
    requires to == Nil || Size(to) < toCap
    modifies log
    ensures log.changes == old(log.changes) + Engine.ElementDiff(schema, tag, at, from, to, ct, presence, fromCap, toCap).changes
    ensures st == Engine.ElementDiff(schema, tag, at, from, to, ct, presence, fromCap, toCap).status
    decreases fromCap + toCap, 6, 0
  {
    if from == Nil && to == Nil {
      return Engine.Done;
    }
    var ty := Engine.ElementType(from, to);
    match Build(schema, Some(ty), Some(ty), Settings.RegistryConfig(tag), NestingLimit)
    case Ok(d) =>
      assert Size(Deref(from)) + Size(Deref(to)) < fromCap + toCap;
      assert Engine.ElementDiff(schema, tag, at, from, to, ct, presence, fromCap, toCap) == Engine.DiffWith(schema, d, at, Deref(from), Deref(to), ct, presence);
      st := DiffWith(schema, d, log, at, Deref(from), Deref(to), ct, presence);
    case Fail(e) =>
      assert Engine.ElementDiff(schema, tag, at, from, to, ct, presence, fromCap, toCap) == Engine.Emit([], Engine.Failed(e));
      st := Engine.Failed(e);
    case Panic(why) =>
      assert Engine.ElementDiff(schema, tag, at, from, to, ct, presence, fromCap, toCap) == Engine.Emit([], Engine.Crashed(why));
      st := Engine.Crashed(why);
  }

  // ---------------------------------------------------------------------
  // Maps

  /** mapDiffer.diff. */
  method MapDiff(schema: Schema, m: MapDiffer, log: ChangeLog, path: Paths.Path, from: Value, to: Value, presence: bool, fromCap: nat, toCap: nat)
    returns (st: Engine.Status)
    requires from.Dict? ==> EntriesBelow(from.entries, fromCap)
    requires to.Dict? ==> EntriesBelow(to.entries, toCap)
    modifies log
    ensures log.changes == old(log.changes) + Engine.MapDiff(schema, m, path, from, to, presence, fromCap, toCap).changes
    ensures st == Engine.MapDiff(schema, m, path, from, to, presence, fromCap, toCap).status
    decreases fromCap + toCap, 10, 0
  {
    if from == Nil && to == Nil {
      return Engine.Done;
    } else if !m.isStringIface {
      return Engine.Failed(MapTypeNotSupported(from));
    } else if from != Nil && !IsStringMap(from) {
      return Engine.Failed(InvalidFromMap(from));
    } else if to != Nil && !IsStringMap(to) {
      return Engine.Failed(InvalidToMap(from));
    }
    if from == Nil {
      st := ToOnlyEntries(schema, m.tag, log, path, [], to.entries, Delete, presence, fromCap, toCap);
    } else if to == Nil {
      st := FromEntries(schema, m.tag, log, path, from.entries, [], presence, fromCap, toCap);
    } else {
      st := BothEntries(schema, m.tag, log, path, from.entries, to.entries, presence, fromCap, toCap);
    }
  }

  /** Two maps: the "from" entries first, then, unless that stopped, the "to" entries "from" lacks. */
  method BothEntries(schema: Schema, tag: Option<Tag>, log: ChangeLog, path: Paths.Path, fe: seq<(string, Value)>, te: seq<(string, Value)>, presence: bool, fromCap: nat, toCap: nat)
    returns (st: Engine.Status)
    requires EntriesBelow(fe, fromCap) && EntriesBelow(te, toCap)
    modifies log
    ensures var both := Engine.Then(Engine.FromEntries(schema, tag, path, fe, te, presence, 0, fromCap, toCap),
                                    Engine.ToOnlyEntries(schema, tag, path, fe, te, Create, presence, 0, fromCap, toCap));
            log.changes == old(log.changes) + both.changes && st == both.status
    decreases fromCap + toCap, 9, 0
  {
    ghost var first := Engine.FromEntries(schema, tag, path, fe, te, presence, 0, fromCap, toCap);
    ghost var second := Engine.ToOnlyEntries(schema, tag, path, fe, te, Create, presence, 0, fromCap, toCap);
    st := FromEntries(schema, tag, log, path, fe, te, presence, fromCap, toCap);
    if st.Done? {
      st := ToOnlyEntries(schema, tag, log, path, fe, te, Create, presence, fromCap, toCap);
      Regroup(old(log.changes), first.changes, second.changes);
    }
  }

  /** The loop over the "from" entries: each is compared with the "to" entry of its key, or created when there is none. */
  method FromEntries(schema: Schema, tag: Option<Tag>, log: ChangeLog, path: Paths.Path, fe: seq<(string, Value)>, te: seq<(string, Value)>, presence: bool, fromCap: nat, toCap: nat)
    returns (st: Engine.Status)
    requires EntriesBelow(fe, fromCap) && EntriesBelow(te, toCap)
    modifies log
    ensures log.changes == old(log.changes) + Engine.FromEntries(schema, tag, path, fe, te, presence, 0, fromCap, toCap).changes
    ensures st == Engine.FromEntries(schema, tag, path, fe, te, presence, 0, fromCap, toCap).status
    decreases fromCap + toCap, 8, 0
  {
    var j := 0;
    while j < |fe|
      invariant j <= |fe|
      invariant After(log.changes, Engine.FromEntries(schema, tag, path, fe, te, presence, j, fromCap, toCap))
             == After(old(log.changes), Engine.FromEntries(schema, tag, path, fe, te, presence, 0, fromCap, toCap))
    {
      var s := FromEntry(schema, tag, log, path, fe, te, presence, j, fromCap, toCap);
      if !s.Done? {
        return s;
      }
      j := j + 1;
    }
    st := Engine.Done;
  }

  /** The j-th "from" entry against the "to" entry under its key. */
  method FromEntry(schema: Schema, tag: Option<Tag>, log: ChangeLog, path: Paths.Path, fe: seq<(string, Value)>, te: seq<(string, Value)>, presence: bool, j: nat, fromCap: nat, toCap: nat)
    returns (st: Engine.Status)
    requires j < |fe| && EntriesBelow(fe, fromCap) && EntriesBelow(te, toCap)
    modifies log
    ensures After(old(log.changes), Engine.FromEntries(schema, tag, path, fe, te, presence, j, fromCap, toCap))
         == if st.Done? then After(log.changes, Engine.FromEntries(schema, tag, path, fe, te, presence, j + 1, fromCap, toCap))
            else Engine.Emit(log.changes, st)
    decreases fromCap + toCap, 7, 0
  {
    var k, v := fe[j].0, fe[j].1;
    LookupBelow(te, k, toCap);
    ghost var logged := log.changes;
    ghost var step := Engine.ElementDiff(schema, tag, Paths.Entry(path, k), v, Lookup(te, k), Create, presence, fromCap, toCap);
    ghost var rest := Engine.FromEntries(schema, tag, path, fe, te, presence, j + 1, fromCap, toCap);
    assert Engine.FromEntries(schema, tag, path, fe, te, presence, j, fromCap, toCap) == Engine.Then(step, rest);
    st := ElementDiff(schema, tag, log, Paths.Entry(path, k), v, Lookup(te, k), Create, presence, fromCap, toCap);
    AfterStep(logged, step, rest);
  }

  /** The loop over the "to" entries whose key "from" lacks. */
  method ToOnlyEntries(schema: Schema, tag: Option<Tag>, log: ChangeLog, path: Paths.Path, fe: seq<(string, Value)>, te: seq<(string, Value)>, mode: ChangeType, presence: bool, fromCap: nat, toCap: nat)
    returns (st: Engine.Status)
    requires EntriesBelow(te, toCap)
    modifies log
    ensures log.changes == old(log.changes) + Engine.ToOnlyEntries(schema, tag, path, fe, te, mode, presence, 0, fromCap, toCap).changes
    ensures st == Engine.ToOnlyEntries(schema, tag, path, fe, te, mode, presence, 0, fromCap, toCap).status
    decreases fromCap + toCap, 8, 0
  {
    var j := 0;
    while j < |te|
      invariant j <= |te|
      invariant After(log.changes, Engine.ToOnlyEntries(schema, tag, path, fe, te, mode, presence, j, fromCap, toCap))
             == After(old(log.changes), Engine.ToOnlyEntries(schema, tag, path, fe, te, mode, presence, 0, fromCap, toCap))
    {
      var s := ToOnlyEntry(schema, tag, log, path, fe, te, mode, presence, j, fromCap, toCap);
      if !s.Done? {
        return s;
      }
      j := j + 1;
    }
    st := Engine.Done;
  }

  /** The j-th "to" entry: skipped when "from" has its key, diffed against nothing otherwise. */
  method ToOnlyEntry(schema: Schema, tag: Option<Tag>, log: ChangeLog, path: Paths.Path, fe: seq<(string, Value)>, te: seq<(string, Value)>, mode: ChangeType, presence: bool, j: nat, fromCap: nat, toCap: nat)
    returns (st: Engine.Status)
    requires j < |te| && EntriesBelow(te, toCap)
    modifies log
    ensures After(old(log.changes), Engine.ToOnlyEntries(schema, tag, path, fe, te, mode, presence, j, fromCap, toCap))
         == if st.Done? then After(log.changes, Engine.ToOnlyEntries(schema, tag, path, fe, te, mode, presence, j + 1, fromCap, toCap))
            else Engine.Emit(log.changes, st)
    decreases fromCap + toCap, 7, 0
  {
    var k, v := te[j].0, te[j].1;
    ghost var rest := Engine.ToOnlyEntries(schema, tag, path, fe, te, mode, presence, j + 1, fromCap, toCap);
    if HasKey(fe, k) {
      assert Engine.ToOnlyEntries(schema, tag, path, fe, te, mode, presence, j, fromCap, toCap) == rest;
      return Engine.Done;
    }
    ghost var logged := log.changes;
    ghost var step := Engine.ElementDiff(schema, tag, Paths.Entry(path, k), Nil, v, mode, presence, fromCap, toCap);
    assert Engine.ToOnlyEntries(schema, tag, path, fe, te, mode, presence, j, fromCap, toCap) == Engine.Then(step, rest);
    st := ElementDiff(schema, tag, log, Paths.Entry(path, k), Nil, v, mode, presence, fromCap, toCap);
    AfterStep(logged, step, rest);
  }
}
