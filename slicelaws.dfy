/**
 * What the typed slice differ (slice.go diffTypedSlice, diffSliceElements
 * and diffIndexedElement) reports for slices of scalars, and the scalar
 * fallback it ends in (differ.go).
 */
module SliceLaws {
  import opened Wrappers
  import opened Shapes
  import opened Values
  import Paths
  import opened Changes
  import opened ChangeLogs
  import opened Tags
  import opened Indexing
  import opened Sorting
  import opened Differs
  import opened Engine

  /**
   * The scalar fallback reports nothing for equal values and otherwise
   * exactly one change carrying both values: a delete when deleting to
   * nil, a create when creating from nil, an update in every other case.
   */
  lemma ScalarDiffLaw(path: Paths.Path, from: Value, to: Value, ct: ChangeType)
    ensures ScalarDiff(path, from, to, ct) == [] <==> from == to
    ensures from != to ==>
              |ScalarDiff(path, from, to, ct)| == 1
              && ScalarDiff(path, from, to, ct)[0].path == path
              && ScalarDiff(path, from, to, ct)[0].from == from
              && ScalarDiff(path, from, to, ct)[0].to == to
              && ScalarDiff(path, from, to, ct)[0].error == []
    ensures from != to ==>
              (ScalarDiff(path, from, to, ct)[0].kind == Delete <==> ct == Delete && to == Nil)
              && (ScalarDiff(path, from, to, ct)[0].kind == Create <==> ct == Create && from == Nil)
              && (ScalarDiff(path, from, to, ct)[0].kind == Update <==> !(ct == Delete && to == Nil) && !(ct == Create && from == Nil))
  {
  }

  // ---------------------------------------------------------------------
  // The positional walk

  /** At most one change per index, at that index. */
  lemma ScalarAtShape(path: Paths.Path, fi: seq<Value>, ti: seq<Value>, mode: ChangeType, i: nat)
    ensures |ScalarAt(path, fi, ti, mode, i)| <= 1
    ensures forall c :: c in ScalarAt(path, fi, ti, mode, i) ==> c.path == Paths.Element(path, i)
  {
  }

  /** At most one change at index i, followed by changes at ascending indices above i and below n, ascend. */
  lemma AscendingAppend(path: Paths.Path, head: seq<Change>, rest: seq<Change>, i: nat, n: nat)
    requires i < n && |head| <= 1 && forall c :: c in head ==> c.path == Paths.Element(path, i)
    requires forall c :: c in rest ==> c.path.Element? && c.path.parent == path && i + 1 <= c.path.index < n
    requires forall a, b :: 0 <= a < b < |rest| ==> rest[a].path.Element? && rest[b].path.Element? && rest[a].path.index < rest[b].path.index
    ensures forall c :: c in head + rest ==> c.path.Element? && c.path.parent == path && i <= c.path.index < n
    ensures forall a, b :: 0 <= a < b < |head + rest| ==>
              (head + rest)[a].path.Element? && (head + rest)[b].path.Element? && (head + rest)[a].path.index < (head + rest)[b].path.index
  {
    var w := head + rest;
    forall a, b | 0 <= a < b < |w|
      ensures w[a].path.Element? && w[b].path.Element? && w[a].path.index < w[b].path.index
    {
      assert w[b] == rest[b - |head|] && rest[b - |head|] in rest;
      if a < |head| {
        assert w[a] == head[a] && head[a] in head;
      } else {
        assert w[a] == rest[a - |head|] && w[b] == rest[b - |head|];
      }
    }
    forall c | c in w
      ensures c.path.Element? && c.path.parent == path && i <= c.path.index < n
    {
      if c in head {
      } else {
        assert c in rest;
      }
    }
  }

  /** The walk reports exactly what the indices from i to the longer length report. */
  lemma {:induction false} WalkMembers(path: Paths.Path, fi: seq<Value>, ti: seq<Value>, mode: ChangeType, i: nat)
    ensures forall c :: c in ScalarWalk(path, fi, ti, mode, i) <==>
              exists k :: i <= k < Larger(|fi|, |ti|) && c in ScalarAt(path, fi, ti, mode, k)
    decreases Larger(|fi|, |ti|) - i
  {
    if i < Larger(|fi|, |ti|) {
      WalkMembers(path, fi, ti, mode, i + 1);
    }
  }

  /** The walk visits the indices in ascending order, each within the longer slice. */
  lemma {:induction false} WalkAscending(path: Paths.Path, fi: seq<Value>, ti: seq<Value>, mode: ChangeType, i: nat)
    ensures forall c :: c in ScalarWalk(path, fi, ti, mode, i) ==>
              c.path.Element? && c.path.parent == path && i <= c.path.index < Larger(|fi|, |ti|)
    ensures forall a, b :: 0 <= a < b < |ScalarWalk(path, fi, ti, mode, i)| ==>
              ScalarWalk(path, fi, ti, mode, i)[a].path.Element? && ScalarWalk(path, fi, ti, mode, i)[b].path.Element?
              && ScalarWalk(path, fi, ti, mode, i)[a].path.index < ScalarWalk(path, fi, ti, mode, i)[b].path.index
    decreases Larger(|fi|, |ti|) - i
  {
    if i < Larger(|fi|, |ti|) {
      WalkAscending(path, fi, ti, mode, i + 1);
      ScalarAtShape(path, fi, ti, mode, i);
      var head, rest := ScalarAt(path, fi, ti, mode, i), ScalarWalk(path, fi, ti, mode, i + 1);
      AscendingAppend(path, head, rest, i, Larger(|fi|, |ti|));
      assert head + rest == ScalarWalk(path, fi, ti, mode, i);
    } else {
      assert ScalarWalk(path, fi, ti, mode, i) == [];
    }
  }

  /**
   * In update mode: a common index is reported as an update exactly when
   * its elements differ; an index only "to" has is a create of the "to"
   * element; an index only "from" has is a create carrying the "from"
   * element (slice.go logs surplus "from" elements with AddCreate).
   */
  lemma UpdateWalkContents(path: Paths.Path, fi: seq<Value>, ti: seq<Value>)
    ensures forall k :: 0 <= k < |fi| && k < |ti| ==>
              (UpdateChange(Paths.Element(path, k), fi[k], ti[k]) in ScalarWalk(path, fi, ti, Update, 0) <==> fi[k] != ti[k])
    ensures forall k :: |fi| <= k < |ti| ==> CreateChange(Paths.Element(path, k), ti[k]) in ScalarWalk(path, fi, ti, Update, 0)
    ensures forall k :: |ti| <= k < |fi| ==> CreateChange(Paths.Element(path, k), fi[k]) in ScalarWalk(path, fi, ti, Update, 0)
  {
    var w := ScalarWalk(path, fi, ti, Update, 0);
    WalkMembers(path, fi, ti, Update, 0);
    forall k | 0 <= k < |fi| && k < |ti|
      ensures UpdateChange(Paths.Element(path, k), fi[k], ti[k]) in w <==> fi[k] != ti[k]
    {
      var u := UpdateChange(Paths.Element(path, k), fi[k], ti[k]);
      if u in w {
        var k' :| 0 <= k' < Larger(|fi|, |ti|) && u in ScalarAt(path, fi, ti, Update, k');
        ScalarAtShape(path, fi, ti, Update, k');
      } else {
        assert !(u in ScalarAt(path, fi, ti, Update, k));
      }
    }
    forall k | |fi| <= k < |ti|
      ensures CreateChange(Paths.Element(path, k), ti[k]) in w
    {
      assert CreateChange(Paths.Element(path, k), ti[k]) in ScalarAt(path, fi, ti, Update, k);
    }
    forall k | |ti| <= k < |fi|
      ensures CreateChange(Paths.Element(path, k), fi[k]) in w
    {
      assert CreateChange(Paths.Element(path, k), fi[k]) in ScalarAt(path, fi, ti, Update, k);
    }
  }

  /** In update mode the walk reports nothing exactly when the slices are equal. */
  lemma UpdateWalkEmpty(path: Paths.Path, fi: seq<Value>, ti: seq<Value>)
    ensures ScalarWalk(path, fi, ti, Update, 0) == [] <==> fi == ti
  {
    var w := ScalarWalk(path, fi, ti, Update, 0);
    WalkMembers(path, fi, ti, Update, 0);
    UpdateWalkContents(path, fi, ti);
    if fi == ti {
      EqualWalkEmpty(path, fi, 0);
    } else {
      if |fi| < |ti| {
        assert CreateChange(Paths.Element(path, |fi|), ti[|fi|]) in w;
      } else if |ti| < |fi| {
        assert CreateChange(Paths.Element(path, |ti|), fi[|ti|]) in w;
      } else {
        var k :| 0 <= k < |fi| && fi[k] != ti[k];
        assert UpdateChange(Paths.Element(path, k), fi[k], ti[k]) in w;
      }
    }
  }

  lemma {:induction false} EqualWalkEmpty(path: Paths.Path, items: seq<Value>, i: nat)
    ensures ScalarWalk(path, items, items, Update, i) == []
    decreases |items| - i
  {
    if i < |items| {
      EqualWalkEmpty(path, items, i + 1);
    }
  }

  /** With no "from" elements, create mode creates every "to" element at its index, in order. */
  lemma {:induction false} CreateModeWalk(path: Paths.Path, ti: seq<Value>, i: nat)
    requires i <= |ti|
    ensures |ScalarWalk(path, [], ti, Create, i)| == |ti| - i
    ensures forall k :: 0 <= k < |ti| - i ==> ScalarWalk(path, [], ti, Create, i)[k] == CreateChange(Paths.Element(path, i + k), ti[i + k])
    decreases |ti| - i
  {
    if i < |ti| {
      CreateModeWalk(path, ti, i + 1);
    }
  }

  /** With no "to" elements, delete mode logs every "from" element as a create carrying it, in order. */
  lemma {:induction false} DeleteModeWalk(path: Paths.Path, fi: seq<Value>, i: nat)
    requires i <= |fi|
    ensures |ScalarWalk(path, fi, [], Delete, i)| == |fi| - i
    ensures forall k :: 0 <= k < |fi| - i ==> ScalarWalk(path, fi, [], Delete, i)[k] == CreateChange(Paths.Element(path, i + k), fi[i + k])
    decreases |fi| - i
  {
    if i < |fi| {
      DeleteModeWalk(path, fi, i + 1);
    }
  }

  /**
   * diffTypedSlice without sorting or an index: an empty, non-nil "from"
   * creates every "to" element; an empty, non-nil "to" after a non-empty
   * "from" logs every "from" element as a create; the change type the
   * caller passed plays no part.
   */
  lemma TypedSliceModes(schema: Schema, s: SliceDiffer, path: Paths.Path, from: Value, to: Value)
    requires !s.tag.sort && s.tag.indexBy == []
    ensures PlainSliceDiff(schema, s, path, from, to).status == Done
    ensures from != Nil && Items(from) == [] ==>
              PlainSliceDiff(schema, s, path, from, to).changes == ScalarWalk(path, [], Items(to), Create, 0)
              && |PlainSliceDiff(schema, s, path, from, to).changes| == |Items(to)|
              && forall k :: 0 <= k < |Items(to)| ==>
                   PlainSliceDiff(schema, s, path, from, to).changes[k] == CreateChange(Paths.Element(path, k), Items(to)[k])
    ensures to != Nil && Items(to) == [] && Items(from) != [] ==>
              |PlainSliceDiff(schema, s, path, from, to).changes| == |Items(from)|
              && forall k :: 0 <= k < |Items(from)| ==>
                   PlainSliceDiff(schema, s, path, from, to).changes[k] == CreateChange(Paths.Element(path, k), Items(from)[k])
    ensures (from == Nil || Items(from) != []) && (to == Nil || Items(to) != [] || Items(from) == []) ==>
              PlainSliceDiff(schema, s, path, from, to).changes == ScalarWalk(path, Items(from), Items(to), Update, 0)
  {
    CreateModeWalk(path, Items(to), 0);
    DeleteModeWalk(path, Items(from), 0);
  }

  /** Equal slices produce no change, however they are compared. */
  lemma EqualSlicesNoChange(schema: Schema, s: SliceDiffer, path: Paths.Path, v: Value)
    requires s.fromElem == s.toElem
    ensures PlainSliceDiff(schema, s, path, v, v).changes == []
  {
    var f := if s.tag.sort then SortPrimitive(v) else v;
    var items := Items(f);
    if s.tag.indexBy != [] && |items| > 0 {
      var keys := KeysBy(schema, s.tag.indexBy, s.fromElem, items);
      if keys.Ok? {
        SameIndexNoChange(path, keys.value, items, 0);
        SameIndexToOnly(path, keys.value, items, 0);
      }
    } else if SliceMode(f, f) == Update {
      UpdateWalkEmpty(path, items, items);
    }
  }

  lemma {:induction false} SameIndexNoChange(path: Paths.Path, keys: seq<Value>, items: seq<Value>, j: nat)
    requires |keys| == |items| && j <= |keys|
    ensures IndexedScalars(path, keys, items, keys, items, j) == []
    decreases |keys| - j
  {
    if j < |keys| {
      SameIndexNoChange(path, keys, items, j + 1);
      if LastAt(keys, j) {
        IndexAtLast(keys, items, j);
      }
    }
  }

  lemma {:induction false} SameIndexToOnly(path: Paths.Path, keys: seq<Value>, items: seq<Value>, j: nat)
    requires |keys| == |items| && j <= |keys|
    ensures ToOnly(path, keys, items, keys, items, j) == []
    decreases |keys| - j
  {
    if j < |keys| {
      SameIndexToOnly(path, keys, items, j + 1);
      if LastAt(keys, j) {
        IndexAtLast(keys, items, j);
      }
    }
  }

  // ---------------------------------------------------------------------
  // Keyed by the elements themselves

  /** Every value of a slice has a last occurrence. */
  lemma {:induction false} LastOccurrence(s: seq<Value>, x: Value)
    requires x in s
    ensures exists l :: 0 <= l < |s| && s[l] == x && LastAt(s, l)
    decreases |s|
  {
    var n := |s| - 1;
    if s[n] == x {
      assert LastAt(s, n);
    } else {
      var init := s[..n];
      assert x in init;
      LastOccurrence(init, x);
      var l :| 0 <= l < |init| && init[l] == x && LastAt(init, l);
      assert LastAt(s, l);
    }
  }

  /** Keyed by value, the "from" pass reports only deletes, of the values "to" lacks, at their last position. */
  lemma {:induction false} PrimitiveFromPass(path: Paths.Path, fi: seq<Value>, ti: seq<Value>, j: nat)
    requires j <= |fi|
    ensures forall c :: c in IndexedScalars(path, fi, fi, ti, ti, j) ==>
              exists l :: j <= l < |fi| && c == DeleteChange(Paths.Element(path, l), fi[l]) && fi[l] !in ti
    ensures forall l :: j <= l < |fi| && LastAt(fi, l) && fi[l] !in ti ==>
              DeleteChange(Paths.Element(path, l), fi[l]) in IndexedScalars(path, fi, fi, ti, ti, j)
    decreases |fi| - j
  {
    if j < |fi| {
      PrimitiveFromPass(path, fi, ti, j + 1);
      PrimitiveEntries(ti);
    }
  }

  /** Keyed by value, the "to" pass creates the values "from" lacks, at their last position. */
  lemma {:induction false} PrimitiveToPass(path: Paths.Path, fi: seq<Value>, ti: seq<Value>, j: nat)
    requires j <= |ti|
    ensures forall c :: c in ToOnly(path, fi, fi, ti, ti, j) ==>
              exists l :: j <= l < |ti| && c == CreateChange(Paths.Element(path, l), ti[l]) && ti[l] !in fi
    ensures forall l :: j <= l < |ti| && LastAt(ti, l) && ti[l] !in fi ==>
              CreateChange(Paths.Element(path, l), ti[l]) in ToOnly(path, fi, fi, ti, ti, j)
    decreases |ti| - j
  {
    if j < |ti| {
      PrimitiveToPass(path, fi, ti, j + 1);
      PrimitiveEntries(fi);
    }
  }

  /**
   * Keyed by the elements themselves (`indexBy` "."), two non-empty slices
   * differ by exactly their set difference: each value only "from" has is
   * deleted, each value only "to" has is created, and nothing else is
   * reported; a value found on both sides is never an update.
   */
  lemma PrimitiveIndexLaw(schema: Schema, s: SliceDiffer, path: Paths.Path, from: Value, to: Value)
    requires !s.tag.sort && s.tag.indexBy == "."
    requires |Items(from)| > 0 && |Items(to)| > 0
    ensures PlainSliceDiff(schema, s, path, from, to).status == Done
    ensures forall c :: c in PlainSliceDiff(schema, s, path, from, to).changes ==>
              (c.kind == Delete && c.from in Items(from) && c.from !in Items(to))
              || (c.kind == Create && c.to in Items(to) && c.to !in Items(from))
    ensures forall x :: x in Items(from) && x !in Items(to) ==>
              exists l :: 0 <= l < |Items(from)| && DeleteChange(Paths.Element(path, l), x) in PlainSliceDiff(schema, s, path, from, to).changes
    ensures forall x :: x in Items(to) && x !in Items(from) ==>
              exists l :: 0 <= l < |Items(to)| && CreateChange(Paths.Element(path, l), x) in PlainSliceDiff(schema, s, path, from, to).changes
  {
    var fi, ti := Items(from), Items(to);
    var r := PlainSliceDiff(schema, s, path, from, to);
    assert r.changes == IndexedScalars(path, fi, fi, ti, ti, 0) + ToOnly(path, fi, fi, ti, ti, 0);
    PrimitiveFromPass(path, fi, ti, 0);
    PrimitiveToPass(path, fi, ti, 0);
    forall x | x in fi && x !in ti
      ensures exists l :: 0 <= l < |fi| && DeleteChange(Paths.Element(path, l), x) in r.changes
    {
      LastOccurrence(fi, x);
      var l :| 0 <= l < |fi| && fi[l] == x && LastAt(fi, l);
      assert DeleteChange(Paths.Element(path, l), x) in IndexedScalars(path, fi, fi, ti, ti, 0);
    }
    forall x | x in ti && x !in fi
      ensures exists l :: 0 <= l < |ti| && CreateChange(Paths.Element(path, l), x) in r.changes
    {
      LastOccurrence(ti, x);
      var l :| 0 <= l < |ti| && ti[l] == x && LastAt(ti, l);
      assert CreateChange(Paths.Element(path, l), x) in ToOnly(path, fi, fi, ti, ti, 0);
    }
  }

  // ---------------------------------------------------------------------
  // The documented examples

  function Ints(ns: seq<int>): seq<Value> {
    if ns == [] then [] else [Num(IntKind, ns[0])] + Ints(ns[1..])
  }

  /**
   * With sorting on, [4, 6, 1] against [1, 6, 4, 7] compares [1, 4, 6]
   * with [1, 4, 6, 7] and reports only the create of 7 at index 3.
   */
  lemma SortedSliceExample(schema: Schema, s: SliceDiffer, path: Paths.Path, from: Value, to: Value)
    requires s.tag.sort && s.tag.indexBy == []
    requires from == Ref(List(Scalar(IntKind), Ints([4, 6, 1])))
    requires to == Ref(List(Scalar(IntKind), Ints([1, 6, 4, 7])))
    ensures PlainSliceDiff(schema, s, path, from, to) == Emit([CreateChange(Paths.Element(path, 3), Num(IntKind, 7))], Done)
  {
    SortedFrom(from);
    SortedTo(to);
    SortedOnly7(schema, s, path, from, to);
  }

  /** Any two slices that sort to [1, 4, 6] and [1, 4, 6, 7] differ by the create of 7 at index 3. */
  lemma SortedOnly7(schema: Schema, s: SliceDiffer, path: Paths.Path, from: Value, to: Value)
    requires s.tag.sort && s.tag.indexBy == []
    requires SortPrimitive(from).Ref? && Items(SortPrimitive(from)) == Ints([1, 4, 6])
    requires SortPrimitive(to).Ref? && Items(SortPrimitive(to)) == Ints([1, 4, 6, 7])
    ensures PlainSliceDiff(schema, s, path, from, to) == Emit([CreateChange(Paths.Element(path, 3), Num(IntKind, 7))], Done)
  {
    assert Ints([1, 4, 6]) == [Num(IntKind, 1), Num(IntKind, 4), Num(IntKind, 6)];
    assert Ints([1, 4, 6, 7]) == [Num(IntKind, 1), Num(IntKind, 4), Num(IntKind, 6), Num(IntKind, 7)];
    assert SliceMode(SortPrimitive(from), SortPrimitive(to)) == Update;
    SortedWalk(path);
    SortedParts(schema, s, path, from, to);
  }

  /** A sortable slice is compared by its sorted items. */
  lemma SortedItems(v: Value)
    requires IsSortable(v)
    ensures Items(SortPrimitive(v)) == Sort(v.target.items)
  {
  }

  /** The "from" slice of the sorted example is compared as [1, 4, 6]. */
  lemma SortedFrom(from: Value)
    requires from == Ref(List(Scalar(IntKind), Ints([4, 6, 1])))
    ensures SortPrimitive(from).Ref? && Items(SortPrimitive(from)) == Ints([1, 4, 6])
  {
    var items := from.target.items;
    assert items == [Num(IntKind, 4), Num(IntKind, 6), Num(IntKind, 1)];
    assert Ints([1, 4, 6]) == [Num(IntKind, 1), Num(IntKind, 4), Num(IntKind, 6)];
    SortedItems(from);
    SortExampleFrom();
  }

  /** The "to" slice of the sorted example is compared as [1, 4, 6, 7]. */
  lemma SortedTo(to: Value)
    requires to == Ref(List(Scalar(IntKind), Ints([1, 6, 4, 7])))
    ensures SortPrimitive(to).Ref? && Items(SortPrimitive(to)) == Ints([1, 4, 6, 7])
  {
    var items := to.target.items;
    assert items == [Num(IntKind, 1), Num(IntKind, 6), Num(IntKind, 4), Num(IntKind, 7)];
    assert Ints([1, 4, 6, 7]) == [Num(IntKind, 1), Num(IntKind, 4), Num(IntKind, 6), Num(IntKind, 7)];
    SortedItems(to);
    SortExampleTo();
  }

  /** With sorting and no index, the sorted items are walked by position. */
  lemma SortedParts(schema: Schema, s: SliceDiffer, path: Paths.Path, from: Value, to: Value)
    requires s.tag.sort && s.tag.indexBy == []
    ensures PlainSliceDiff(schema, s, path, from, to)
         == Emit(ScalarWalk(path, Items(SortPrimitive(from)), Items(SortPrimitive(to)), SliceMode(SortPrimitive(from), SortPrimitive(to)), 0), Done)
  {
  }

  /** Keyed by value, the "from" pass and then the "to" pass. */
  lemma IndexedParts(schema: Schema, s: SliceDiffer, path: Paths.Path, from: Value, to: Value)
    requires !s.tag.sort && s.tag.indexBy == "." && |Items(from)| > 0 && |Items(to)| > 0
    ensures PlainSliceDiff(schema, s, path, from, to)
         == Emit(IndexedScalars(path, Items(from), Items(from), Items(to), Items(to), 0) + ToOnly(path, Items(from), Items(from), Items(to), Items(to), 0), Done)
  {
  }

  lemma SortedWalk(path: Paths.Path)
    ensures ScalarWalk(path, [Num(IntKind, 1), Num(IntKind, 4), Num(IntKind, 6)], [Num(IntKind, 1), Num(IntKind, 4), Num(IntKind, 6), Num(IntKind, 7)], Update, 0)
         == [CreateChange(Paths.Element(path, 3), Num(IntKind, 7))]
  {
    var fi, ti := [Num(IntKind, 1), Num(IntKind, 4), Num(IntKind, 6)], [Num(IntKind, 1), Num(IntKind, 4), Num(IntKind, 6), Num(IntKind, 7)];
    assert ScalarWalk(path, fi, ti, Update, 3) == [CreateChange(Paths.Element(path, 3), Num(IntKind, 7))];
    assert ScalarWalk(path, fi, ti, Update, 2) == ScalarWalk(path, fi, ti, Update, 3);
    assert ScalarWalk(path, fi, ti, Update, 1) == ScalarWalk(path, fi, ti, Update, 2);
  }

  /** A nil "to" after [10, 2] logs both "from" elements as creates, as the documented "repeated - update" case expects. */
  lemma SurplusFromExample(schema: Schema, s: SliceDiffer, path: Paths.Path, from: Value)
    requires !s.tag.sort && s.tag.indexBy == []
    requires from == Ref(List(Scalar(IntKind), Ints([10, 2])))
    ensures PlainSliceDiff(schema, s, path, from, Nil)
         == Emit([CreateChange(Paths.Element(path, 0), Num(IntKind, 10)), CreateChange(Paths.Element(path, 1), Num(IntKind, 2))], Done)
  {
    var fi := [Num(IntKind, 10), Num(IntKind, 2)];
    assert Ints([10, 2]) == fi;
    assert ScalarWalk(path, fi, [], Update, 1) == [CreateChange(Paths.Element(path, 1), Num(IntKind, 2))];
  }

  /** Keyed by value, a "from" slice whose values "to" all has reports nothing in the "from" pass. */
  lemma {:induction false} PrimitiveFromPassEmpty(path: Paths.Path, fi: seq<Value>, ti: seq<Value>, j: nat)
    requires j <= |fi|
    requires forall x :: x in fi ==> x in ti
    ensures IndexedScalars(path, fi, fi, ti, ti, j) == []
    decreases |fi| - j
  {
    if j < |fi| {
      PrimitiveFromPassEmpty(path, fi, ti, j + 1);
      PrimitiveEntries(ti);
      assert fi[j] in fi;
    }
  }

  /**
   * Keyed by value, [4, 6, 1] against [1, 2, 6, 4] reports only the
   * create of 2 at its "to" index 1.
   */
  lemma IndexedSliceExample(schema: Schema, s: SliceDiffer, path: Paths.Path, from: Value, to: Value)
    requires !s.tag.sort && s.tag.indexBy == "."
    requires from == Ref(List(Scalar(Float32Kind), [Num(Float32Kind, 4), Num(Float32Kind, 6), Num(Float32Kind, 1)]))
    requires to == Ref(List(Scalar(Float32Kind), [Num(Float32Kind, 1), Num(Float32Kind, 2), Num(Float32Kind, 6), Num(Float32Kind, 4)]))
    ensures PlainSliceDiff(schema, s, path, from, to) == Emit([CreateChange(Paths.Element(path, 1), Num(Float32Kind, 2))], Done)
  {
    var fi, ti := Items(from), Items(to);
    assert fi == [Num(Float32Kind, 4), Num(Float32Kind, 6), Num(Float32Kind, 1)];
    assert ti == [Num(Float32Kind, 1), Num(Float32Kind, 2), Num(Float32Kind, 6), Num(Float32Kind, 4)];
    forall x | x in fi
      ensures x in ti
    {
      assert x == ti[3] || x == ti[2] || x == ti[0];
    }
    PrimitiveFromPassEmpty(path, fi, ti, 0);
    IndexedToPass(path, fi, ti);
    IndexedParts(schema, s, path, from, to);
  }

  lemma IndexedToPass(path: Paths.Path, fi: seq<Value>, ti: seq<Value>)
    requires fi == [Num(Float32Kind, 4), Num(Float32Kind, 6), Num(Float32Kind, 1)]
    requires ti == [Num(Float32Kind, 1), Num(Float32Kind, 2), Num(Float32Kind, 6), Num(Float32Kind, 4)]
    ensures ToOnly(path, fi, fi, ti, ti, 0) == [CreateChange(Paths.Element(path, 1), Num(Float32Kind, 2))]
  {
    PrimitiveEntries(fi);
    assert LastAt(ti, 0) && LastAt(ti, 1) && LastAt(ti, 2) && LastAt(ti, 3);
    assert ToOnly(path, fi, fi, ti, ti, 3) == [];
    assert ToOnly(path, fi, fi, ti, ti, 2) == [];
    assert ToOnly(path, fi, fi, ti, ti, 1) == [CreateChange(Paths.Element(path, 1), ti[1])];
  }
}
