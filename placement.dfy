/**
 * Where a diff reports its changes, and what every change looks like:
 * each change lies at or below the path the differ was called with (a
 * struct field's changes under that field, a slice element's under that
 * element, a map entry's under that entry), a create never carries a
 * "from" value, a delete never a "to" value, and exactly the error
 * entries have no type and a message.
 */
module Placement {
  import Wrappers
  import opened Shapes
  import opened Values
  import Tags
  import Settings
  import Sorting
  import opened Failures
  import Paths
  import opened Changes
  import opened ChangeLogs
  import opened Accessors
  import opened Presences
  import opened Indexing
  import opened Differs
  import opened Engine

  /** `p` is `base` or lies below it. */
  predicate Within(p: Paths.Path, base: Paths.Path)
    decreases p
  {
    p == base || (!p.Root? && Within(p.parent, base))
  }

  /** The shape every logged change has (log.go AddError, AddCreate, AddDelete, AddUpdate). */
  predicate WellFormed(c: Change) {
    && (c.kind == Untyped <==> c.error != [])
    && (c.kind == Create ==> c.from == Nil)
    && (c.kind == Delete ==> c.to == Nil)
    && (c.kind == Untyped ==> c.from == Nil && c.to == Nil)
  }

  /** Every change is well formed and lies at or below `base`. */
  predicate Placed(changes: seq<Change>, base: Paths.Path) {
    forall c :: c in changes ==> Within(c.path, base) && WellFormed(c)
  }

  lemma {:induction false} WithinTrans(p: Paths.Path, mid: Paths.Path, base: Paths.Path)
    requires Within(p, mid) && Within(mid, base)
    ensures Within(p, base)
    decreases p
  {
    if p != mid {
      WithinTrans(p.parent, mid, base);
    }
  }

  /** Every path lies below the root. */
  lemma {:induction false} WithinRoot(p: Paths.Path)
    ensures Within(p, Paths.Root)
    decreases p
  {
    if !p.Root? {
      WithinRoot(p.parent);
    }
  }

  /** Changes placed under a child node are placed under its parent. */
  lemma Lift(changes: seq<Change>, child: Paths.Path)
    requires !child.Root? && Placed(changes, child)
    ensures Placed(changes, child.parent)
  {
    assert Within(child, child.parent);
    forall c | c in changes
      ensures Within(c.path, child.parent)
    {
      WithinTrans(c.path, child, child.parent);
    }
  }

  lemma ThenPlaced(first: Emit, rest: Emit, base: Paths.Path)
    requires Placed(first.changes, base) && Placed(rest.changes, base)
    ensures Placed(Then(first, rest).changes, base)
  {
  }

  /** An error entry at a node is well formed. */
  lemma ErrorWellFormed(at: Paths.Path, e: Error)
    ensures WellFormed(ErrorChange(at, e))
  {
    var m := Message(e);
  }

  // ---------------------------------------------------------------------
  // The walks without nested differs

  lemma {:induction false} ScalarWalkPlaced(path: Paths.Path, fi: seq<Value>, ti: seq<Value>, mode: ChangeType, i: nat)
    ensures Placed(ScalarWalk(path, fi, ti, mode, i), path)
    decreases Larger(|fi|, |ti|) - i
  {
    if i < Larger(|fi|, |ti|) {
      ScalarWalkPlaced(path, fi, ti, mode, i + 1);
      assert Within(Paths.Element(path, i), path);
    }
  }

  lemma {:induction false} IndexedScalarsPlaced(path: Paths.Path, fk: seq<Value>, fi: seq<Value>, tk: seq<Value>, ti: seq<Value>, j: nat)
    requires |fk| == |fi| && |tk| == |ti| && j <= |fk|
    ensures Placed(IndexedScalars(path, fk, fi, tk, ti, j), path)
    decreases |fk| - j
  {
    if j < |fk| {
      IndexedScalarsPlaced(path, fk, fi, tk, ti, j + 1);
      assert Within(Paths.Element(path, j), path);
    }
  }

  lemma {:induction false} ToOnlyPlaced(path: Paths.Path, fk: seq<Value>, fi: seq<Value>, tk: seq<Value>, ti: seq<Value>, j: nat)
    requires |fk| == |fi| && |tk| == |ti| && j <= |tk|
    ensures Placed(ToOnly(path, fk, fi, tk, ti, j), path)
    decreases |tk| - j
  {
    if j < |tk| {
      ToOnlyPlaced(path, fk, fi, tk, ti, j + 1);
      assert Within(Paths.Element(path, j), path);
    }
  }

  lemma PlainSlicePlaced(schema: Schema, s: SliceDiffer, path: Paths.Path, from: Value, to: Value)
    ensures Placed(PlainSliceDiff(schema, s, path, from, to).changes, path)
  {
    var f := if s.tag.sort then Sorting.SortPrimitive(from) else from;
    var t := if s.tag.sort then Sorting.SortPrimitive(to) else to;
    var fi, ti := Items(f), Items(t);
    if s.tag.indexBy != [] && |fi| > 0 && |ti| > 0 {
      var fk := KeysBy(schema, s.tag.indexBy, s.fromElem, fi);
      var tk := KeysBy(schema, s.tag.indexBy, s.toElem, ti);
      if fk.Ok? && tk.Ok? {
        IndexedScalarsPlaced(path, fk.value, fi, tk.value, ti, 0);
        ToOnlyPlaced(path, fk.value, fi, tk.value, ti, 0);
      }
    } else {
      ScalarWalkPlaced(path, fi, ti, SliceMode(f, t), 0);
    }
  }

  // ---------------------------------------------------------------------
  // The recursive differs, by the same induction that makes them terminate

  lemma {:induction false} DiffWithPlaced(schema: Schema, d: Differ, path: Paths.Path, from: Value, to: Value, ct: ChangeType, presence: bool)
    ensures Placed(DiffWith(schema, d, path, from, to, ct, presence).changes, path)
    decreases Size(from) + Size(to), 12, 0
  {
    if d.kind.Plain? {
      ScalarDiffPlaced(path, from, to, ct);
    } else if d.kind.StructKind? {
      StructDiffPlaced(schema, d.kind.structDiffer, path, from, to, ct, presence);
    } else if d.kind.SliceKind? {
      SliceDiffPlaced(schema, d.kind.sliceDiffer, path, from, to, ct, presence);
    } else if d.kind.IfaceKind? {
      IfaceDiffPlaced(schema, d.kind.ifaceTag, path, from, to, ct, presence);
    } else if d.kind.MapKind? {
      MapBelow(from);
      MapBelow(to);
      MapDiffPlaced(schema, d.kind.mapDiffer, path, from, to, presence, Size(from), Size(to));
    } else {
      DecodedDiffPlaced(schema, d.kind, path, from, to, presence);
    }
  }

  lemma {:induction false} DecodedDiffPlaced(schema: Schema, kind: DifferKind, path: Paths.Path, from: Value, to: Value, presence: bool)
    requires kind.DecodedSlice? || kind.DecodedMap?
    ensures Placed(DecodedDiff(schema, kind, path, from, to, presence).changes, path)
    decreases Size(from) + Size(to), 11, 0
  {
    match kind
    case DecodedSlice(s, tag) => PlainSlicePlaced(schema, s, path, DecodeItemsOf(tag, from), DecodeItemsOf(tag, to));
    case DecodedMap(m, tag) =>
      MapDiffPlaced(schema, m, path, DecodePairsOf(tag, from), DecodePairsOf(tag, to), presence, Size(from), Size(to));
  }

  lemma ScalarDiffPlaced(path: Paths.Path, from: Value, to: Value, ct: ChangeType)
    ensures Placed(ScalarDiff(path, from, to, ct), path)
  {
    var r := ScalarDiff(path, from, to, ct);
    assert r == [] || r == [CreateChange(path, to)] || r == [DeleteChange(path, from)] || r == [UpdateChange(path, from, to)];
  }

  lemma {:induction false} StructDiffPlaced(schema: Schema, sd: StructDiffer, path: Paths.Path, from: Value, to: Value, ct: ChangeType, presence: bool)
    ensures Placed(StructDiff(schema, sd, path, from, to, ct, presence).changes, path)
    decreases Size(from) + Size(to), 9, 0
  {
    StructWalkPlaced(schema, sd, path, from, to, ct, presence, 0);
  }

  lemma {:induction false} StructWalkPlaced(schema: Schema, sd: StructDiffer, path: Paths.Path, from: Value, to: Value, ct: ChangeType, presence: bool, k: nat)
    requires k <= |sd.fields|
    ensures Placed(StructWalk(schema, sd, path, from, to, ct, presence, k).changes, path)
    decreases Size(from) + Size(to), 8, |sd.fields| - k
  {
    if k < |sd.fields| {
      FieldStepPlaced(schema, sd, sd.fields[k], path, from, to, ct, presence);
      StructWalkPlaced(schema, sd, path, from, to, ct, presence, k + 1);
    }
  }

  lemma {:induction false} FieldStepPlaced(schema: Schema, sd: StructDiffer, f: Field, path: Paths.Path, from: Value, to: Value, ct: ChangeType, presence: bool)
    ensures Placed(FieldStep(schema, sd, f, path, from, to, ct, presence).changes, path)
    decreases Size(from) + Size(to), 7, 0
  {
    var at := Paths.Field(path, f.name);
    assert Within(at, path);
    var rf, rt := Read(f.from, from), Read(f.to, to);
    if rf.Fail? {
      ErrorWellFormed(at, rf.error);
    } else if rf.Ok? && rt.Fail? {
      ErrorWellFormed(at, rt.error);
    } else if rf.Ok? && rt.Ok? {
      CompareFieldPlaced(schema, sd, f, path, from, to, rf.value, rt.value, ct, presence);
    }
  }

  lemma ScalarFieldPlaced(f: Field, at: Paths.Path, from: Value, to: Value, fv: Value, tv: Value, ct: ChangeType)
    ensures Placed(ScalarField(f, at, from, to, fv, tv, ct), at)
  {
    var r := ScalarField(f, at, from, to, fv, tv, ct);
    assert r == [] || r == [CreateChange(at, tv)] || r == [DeleteChange(at, fv)] || r == [UpdateChange(at, fv, tv)];
  }

  lemma {:induction false} CompareFieldPlaced(schema: Schema, sd: StructDiffer, f: Field, path: Paths.Path, from: Value, to: Value, fv: Value, tv: Value, ct: ChangeType, presence: bool)
    requires Read(f.from, from) == Ok(fv) && Read(f.to, to) == Ok(tv)
    ensures Placed(CompareField(schema, sd, f, path, from, to, fv, tv, ct, presence).changes, path)
    decreases Size(from) + Size(to), 6, 0
  {
    var at := Paths.Field(path, f.name);
    if fv != Nil || tv != Nil {
      var args := FieldArgs(f, from, to, fv, tv);
      if f.plan.NoDiffer? {
        ScalarFieldPlaced(f, at, from, to, fv, tv, ct);
        Lift(ScalarField(f, at, from, to, fv, tv, ct), at);
      } else if f.plan.Self? {
        StructDiffPlaced(schema, sd, at, args.0, args.1, args.2, presence);
        Lift(StructDiff(schema, sd, at, args.0, args.1, args.2, presence).changes, at);
      } else {
        DiffWithPlaced(schema, f.plan.differ, at, args.0, args.1, args.2, presence);
        Lift(DiffWith(schema, f.plan.differ, at, args.0, args.1, args.2, presence).changes, at);
      }
    }
  }

  lemma {:induction false} IfaceDiffPlaced(schema: Schema, tag: Wrappers.Option<Tags.Tag>, path: Paths.Path, from: Value, to: Value, ct: ChangeType, presence: bool)
    ensures Placed(IfaceDiff(schema, tag, path, from, to, ct, presence).changes, path)
    decreases Size(from) + Size(to), 11, 0
  {
    match IfaceTarget(from, to, ct)
    case None =>
    case Some(c) => IfaceStructPlaced(schema, tag, c.fromType, c.toType, path, c.from, c.to, c.ct, presence);
  }

  lemma {:induction false} IfaceStructPlaced(schema: Schema, tag: Wrappers.Option<Tags.Tag>, fromType: Shapes.Shape, toType: Shapes.Shape, path: Paths.Path, from: Value, to: Value, ct: ChangeType, presence: bool)
    ensures Placed(IfaceStruct(schema, tag, fromType, toType, path, from, to, ct, presence).changes, path)
    decreases Size(from) + Size(to), 10, 0
  {
    var built := NewStructDiffer(schema, fromType, toType, Settings.RegistryConfig(tag), NestingLimit);
    if built.Ok? {
      StructDiffPlaced(schema, built.value, path, from, to, ct, presence);
    }
  }

  lemma {:induction false} SliceDiffPlaced(schema: Schema, s: SliceDiffer, path: Paths.Path, from: Value, to: Value, ct: ChangeType, presence: bool)
    ensures Placed(SliceDiff(schema, s, path, from, to, ct, presence).changes, path)
    decreases Size(from) + Size(to), 11, 0
  {
    if s.isInterface {
      IfaceSliceDiffPlaced(schema, s, path, from, to, ct, presence);
    } else if s.item.None? {
      PlainSlicePlaced(schema, s, path, from, to);
    } else {
      ItemSliceDiffPlaced(schema, s, s.item.value, path, from, to, presence);
    }
  }

  lemma {:induction false} ItemSliceDiffPlaced(schema: Schema, s: SliceDiffer, sd: StructDiffer, path: Paths.Path, from: Value, to: Value, presence: bool)
    ensures Placed(ItemSliceDiff(schema, s, sd, path, from, to, presence).changes, path)
    decreases Size(from) + Size(to), 10, 0
  {
    var fi, ti := Items(from), Items(to);
    ItemsOfBelow(from);
    ItemsOfBelow(to);
    if s.tag.indexBy != [] && |fi| > 0 && |ti| > 0 {
      var fk := KeysBy(schema, s.tag.indexBy, s.fromElem, fi);
      var tk := KeysBy(schema, s.tag.indexBy, s.toElem, ti);
      if fk.Ok? && tk.Ok? {
        IndexedItemsPlaced(schema, sd, path, fk.value, fi, tk.value, ti, presence, 0, Size(from), Size(to));
        ToOnlyPlaced(path, fk.value, fi, tk.value, ti, 0);
      }
    } else {
      ItemWalkPlaced(schema, sd, path, fi, ti, SliceMode(from, to), presence, 0, Size(from), Size(to));
    }
  }

  lemma {:induction false} ItemWalkPlaced(schema: Schema, sd: StructDiffer, path: Paths.Path, fi: seq<Value>, ti: seq<Value>, mode: ChangeType, presence: bool, i: nat, fromCap: nat, toCap: nat)
    requires ItemsBelow(fi, fromCap) && ItemsBelow(ti, toCap)
    ensures Placed(ItemWalk(schema, sd, path, fi, ti, mode, presence, i, fromCap, toCap).changes, path)
    decreases fromCap + toCap, 8, Larger(|fi|, |ti|) - i
  {
    if i < Larger(|fi|, |ti|) {
      ItemStepPlaced(schema, sd, path, fi, ti, mode, presence, i, fromCap, toCap);
      ItemWalkPlaced(schema, sd, path, fi, ti, mode, presence, i + 1, fromCap, toCap);
    }
  }

  lemma {:induction false} ItemStepPlaced(schema: Schema, sd: StructDiffer, path: Paths.Path, fi: seq<Value>, ti: seq<Value>, mode: ChangeType, presence: bool, i: nat, fromCap: nat, toCap: nat)
    requires ItemsBelow(fi, fromCap) && ItemsBelow(ti, toCap)
    requires i < |fi| || i < |ti|
    ensures Placed(ItemStep(schema, sd, path, fi, ti, mode, presence, i, fromCap, toCap).changes, path)
    decreases fromCap + toCap, 7, 0
  {
    var at := Paths.Element(path, i);
    CapsCover(fi, ti, i, fromCap, toCap);
    var (f, t, ct) :=
      match mode
      case Create => (Nil, At(ti, i), Create)
      case Delete => (At(fi, i), Nil, Delete)
      case _ =>
        if |fi| <= i then (Nil, At(ti, i), Create)
        else if |ti| <= i then (fi[i], Nil, Delete)
        else (fi[i], ti[i], Update);
    if mode != Untyped {
      StructDiffPlaced(schema, sd, at, f, t, ct, presence);
      Lift(StructDiff(schema, sd, at, f, t, ct, presence).changes, at);
    }
  }

  lemma {:induction false} IndexedItemsPlaced(schema: Schema, sd: StructDiffer, path: Paths.Path, fk: seq<Value>, fi: seq<Value>, tk: seq<Value>, ti: seq<Value>, presence: bool, j: nat, fromCap: nat, toCap: nat)
    requires |fk| == |fi| && |tk| == |ti| && j <= |fk|
    requires ItemsBelow(fi, fromCap) && ItemsBelow(ti, toCap)
    ensures Placed(IndexedItems(schema, sd, path, fk, fi, tk, ti, presence, j, fromCap, toCap).changes, path)
    decreases fromCap + toCap, 8, |fk| - j
  {
    if j < |fk| {
      IndexedItemPlaced(schema, sd, path, fk, fi, tk, ti, presence, j, fromCap, toCap);
      IndexedItemsPlaced(schema, sd, path, fk, fi, tk, ti, presence, j + 1, fromCap, toCap);
    }
  }

  lemma {:induction false} IndexedItemPlaced(schema: Schema, sd: StructDiffer, path: Paths.Path, fk: seq<Value>, fi: seq<Value>, tk: seq<Value>, ti: seq<Value>, presence: bool, j: nat, fromCap: nat, toCap: nat)
    requires |fk| == |fi| && |tk| == |ti| && j < |fk|
    requires ItemsBelow(fi, fromCap) && ItemsBelow(ti, toCap)
    ensures Placed(IndexedItem(schema, sd, path, fk, fi, tk, ti, presence, j, fromCap, toCap).changes, path)
    decreases fromCap + toCap, 7, 0
  {
    if LastAt(fk, j) {
      if fk[j] !in Index(tk, ti) {
        assert Within(Paths.Element(path, j), path);
      } else {
        EntriesAreItems(tk, ti);
        StructDiffPlaced(schema, sd, path, fi[j], Index(tk, ti)[fk[j]].value, Update, presence);
      }
    }
  }

  lemma {:induction false} IfaceSliceDiffPlaced(schema: Schema, s: SliceDiffer, path: Paths.Path, from: Value, to: Value, ct: ChangeType, presence: bool)
    ensures Placed(IfaceSliceDiff(schema, s, path, from, to, ct, presence).changes, path)
    decreases Size(from) + Size(to), 10, 0
  {
    ItemsOfBelow(from);
    ItemsOfBelow(to);
    IfaceSliceWalkPlaced(schema, s.tag, path, Items(from), Items(to), ct, presence, 0, Size(from), Size(to));
  }

  lemma {:induction false} IfaceSliceWalkPlaced(schema: Schema, tag: Tags.Tag, path: Paths.Path, fi: seq<Value>, ti: seq<Value>, ct: ChangeType, presence: bool, i: nat, fromCap: nat, toCap: nat)
    requires ItemsBelow(fi, fromCap) && ItemsBelow(ti, toCap)
    ensures Placed(IfaceSliceWalk(schema, tag, path, fi, ti, ct, presence, i, fromCap, toCap).changes, path)
    decreases fromCap + toCap, 8, Larger(|fi|, |ti|) - i
  {
    if i < Larger(|fi|, |ti|) {
      IfaceSliceStepPlaced(schema, tag, path, fi, ti, ct, presence, i, fromCap, toCap);
      IfaceSliceWalkPlaced(schema, tag, path, fi, ti, ct, presence, i + 1, fromCap, toCap);
    }
  }

  lemma {:induction false} IfaceSliceStepPlaced(schema: Schema, tag: Tags.Tag, path: Paths.Path, fi: seq<Value>, ti: seq<Value>, ct: ChangeType, presence: bool, i: nat, fromCap: nat, toCap: nat)
    requires ItemsBelow(fi, fromCap) && ItemsBelow(ti, toCap)
    ensures Placed(IfaceSliceStep(schema, tag, path, fi, ti, ct, presence, i, fromCap, toCap).changes, path)
    decreases fromCap + toCap, 7, 0
  {
    var at := Paths.Element(path, i);
    var (f, t, m) :=
      match ct
      case Create => (Nil, At(ti, i), Create)
      case Delete => (At(fi, i), Nil, Delete)
      case _ =>
        if |fi| <= i then (Nil, At(ti, i), Create)
        else if |ti| <= i then (fi[i], Nil, Delete)
        else (fi[i], ti[i], Update);
    if ct != Untyped {
      ElementDiffPlaced(schema, Wrappers.Some(tag), at, f, t, m, presence, fromCap, toCap);
      Lift(ElementDiff(schema, Wrappers.Some(tag), at, f, t, m, presence, fromCap, toCap).changes, at);
    }
  }

  lemma {:induction false} ElementDiffPlaced(schema: Schema, tag: Wrappers.Option<Tags.Tag>, at: Paths.Path, from: Value, to: Value, ct: ChangeType, presence: bool, fromCap: nat, toCap: nat)
    requires from == Nil || Size(from) < fromCap
    requires to == Nil || Size(to) < toCap
    ensures Placed(ElementDiff(schema, tag, at, from, to, ct, presence, fromCap, toCap).changes, at)
    decreases fromCap + toCap, 6, 0
  {
    if from != Nil || to != Nil {
      var ty := ElementType(from, to);
      var built := Build(schema, Wrappers.Some(ty), Wrappers.Some(ty), Settings.RegistryConfig(tag), NestingLimit);
      if built.Ok? {
        DiffWithPlaced(schema, built.value, at, Deref(from), Deref(to), ct, presence);
      }
    }
  }

  lemma {:induction false} MapDiffPlaced(schema: Schema, m: MapDiffer, path: Paths.Path, from: Value, to: Value, presence: bool, fromCap: nat, toCap: nat)
    requires from.Dict? ==> EntriesBelow(from.entries, fromCap)
    requires to.Dict? ==> EntriesBelow(to.entries, toCap)
    ensures Placed(MapDiff(schema, m, path, from, to, presence, fromCap, toCap).changes, path)
    decreases fromCap + toCap, 10, 0
  {
    if (from != Nil || to != Nil) && m.isStringIface
       && (from == Nil || IsStringMap(from)) && (to == Nil || IsStringMap(to)) {
      if from == Nil {
        ToOnlyEntriesPlaced(schema, m.tag, path, [], to.entries, Delete, presence, 0, fromCap, toCap);
      } else if to == Nil {
        FromEntriesPlaced(schema, m.tag, path, from.entries, [], presence, 0, fromCap, toCap);
      } else {
        FromEntriesPlaced(schema, m.tag, path, from.entries, to.entries, presence, 0, fromCap, toCap);
        ToOnlyEntriesPlaced(schema, m.tag, path, from.entries, to.entries, Create, presence, 0, fromCap, toCap);
      }
    }
  }

  lemma {:induction false} FromEntriesPlaced(schema: Schema, tag: Wrappers.Option<Tags.Tag>, path: Paths.Path, fe: seq<(string, Value)>, te: seq<(string, Value)>, presence: bool, j: nat, fromCap: nat, toCap: nat)
    requires j <= |fe| && EntriesBelow(fe, fromCap) && EntriesBelow(te, toCap)
    ensures Placed(FromEntries(schema, tag, path, fe, te, presence, j, fromCap, toCap).changes, path)
    decreases fromCap + toCap, 8, |fe| - j
  {
    if j < |fe| {
      var (k, v) := fe[j];
      var at := Paths.Entry(path, k);
      LookupBelow(te, k, toCap);
      ElementDiffPlaced(schema, tag, at, v, Lookup(te, k), Create, presence, fromCap, toCap);
      Lift(ElementDiff(schema, tag, at, v, Lookup(te, k), Create, presence, fromCap, toCap).changes, at);
      FromEntriesPlaced(schema, tag, path, fe, te, presence, j + 1, fromCap, toCap);
    }
  }

  lemma {:induction false} ToOnlyEntriesPlaced(schema: Schema, tag: Wrappers.Option<Tags.Tag>, path: Paths.Path, fe: seq<(string, Value)>, te: seq<(string, Value)>, mode: ChangeType, presence: bool, j: nat, fromCap: nat, toCap: nat)
    requires j <= |te| && EntriesBelow(te, toCap)
    ensures Placed(ToOnlyEntries(schema, tag, path, fe, te, mode, presence, j, fromCap, toCap).changes, path)
    decreases fromCap + toCap, 8, |te| - j
  {
    if j < |te| {
      var (k, v) := te[j];
      var at := Paths.Entry(path, k);
      if !HasKey(fe, k) {
        ElementDiffPlaced(schema, tag, at, Nil, v, mode, presence, fromCap, toCap);
        Lift(ElementDiff(schema, tag, at, Nil, v, mode, presence, fromCap, toCap).changes, at);
      }
      ToOnlyEntriesPlaced(schema, tag, path, fe, te, mode, presence, j + 1, fromCap, toCap);
    }
  }

  /**
   * Differ.Diff: whatever it logs is well formed, and a returned error is
   * the one last entry, at the root.
   */
  lemma DiffWellFormed(schema: Schema, d: Differ, from: Value, to: Value, presence: bool)
    ensures Diff(schema, d, from, to, presence).Ok? ==>
              forall c :: c in Diff(schema, d, from, to, presence).value ==> WellFormed(c)
    ensures Diff(schema, d, from, to, presence).Panic? <==>
              DiffWith(schema, d, Paths.Root, from, to, DiscoverChangeType(from, to), presence).status.Crashed?
    ensures DiffWith(schema, d, Paths.Root, from, to, DiscoverChangeType(from, to), presence).status.Failed? ==>
              var e := DiffWith(schema, d, Paths.Root, from, to, DiscoverChangeType(from, to), presence);
              Diff(schema, d, from, to, presence) == Ok(e.changes + [ErrorChange(Paths.Root, e.status.error)])
  {
    var e := DiffWith(schema, d, Paths.Root, from, to, DiscoverChangeType(from, to), presence);
    DiffWithPlaced(schema, d, Paths.Root, from, to, DiscoverChangeType(from, to), presence);
    if e.status.Failed? {
      ErrorWellFormed(Paths.Root, e.status.error);
    }
  }
}
