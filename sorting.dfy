/**
 * sortPrimitive (sort.go): a pointer to a slice of ints, strings or
 * floats becomes a pointer to a sorted copy; any other value is returned
 * as it is. The copy is a new sequence, so the input is never changed.
 */
module Sorting {
  import opened Shapes
  import opened Values

  /** Go's string order: byte-wise, which for UTF-8 text is code-point order. */
  predicate StrLessEq(a: string, b: string)
    decreases |a|
  {
    a == [] || (b != [] && (a[0] < b[0] || (a[0] == b[0] && StrLessEq(a[1..], b[1..]))))
  }

  lemma {:induction false} StrLessEqTotal(a: string, b: string)
    ensures StrLessEq(a, b) || StrLessEq(b, a)
    decreases |a|
  {
    if a != [] && b != [] && a[0] == b[0] {
      StrLessEqTotal(a[1..], b[1..]);
    }
  }

  lemma {:induction false} StrLessEqTransitive(a: string, b: string, c: string)
    requires StrLessEq(a, b) && StrLessEq(b, c)
    ensures StrLessEq(a, c)
    decreases |a|
  {
    if a != [] && b != [] && c != [] && a[0] == b[0] && b[0] == c[0] {
      StrLessEqTransitive(a[1..], b[1..], c[1..]);
    }
  }

  /** Numbers before strings before anything else; the sorted slices hold only one class. */
  function Class(v: Value): nat {
    if v.Num? then 0 else if v.Str? then 1 else 2
  }

  /** The order sort.Ints, sort.Strings and the float sorts use, extended to a total preorder. */
  predicate LessEq(a: Value, b: Value) {
    Class(a) < Class(b)
    || (Class(a) == Class(b) && (a.Num? ==> a.n <= b.n) && (a.Str? ==> StrLessEq(a.s, b.s)))
  }

  lemma LessEqTotal(a: Value, b: Value)
    ensures LessEq(a, b) || LessEq(b, a)
  {
    if a.Str? && b.Str? {
      StrLessEqTotal(a.s, b.s);
    }
  }

  lemma LessEqTransitive(a: Value, b: Value, c: Value)
    requires LessEq(a, b) && LessEq(b, c)
    ensures LessEq(a, c)
  {
    if a.Str? && b.Str? && c.Str? {
      StrLessEqTransitive(a.s, b.s, c.s);
    }
  }

  predicate Sorted(s: seq<Value>) {
    forall i :: 0 < i < |s| ==> LessEq(s[i - 1], s[i])
  }

  /** A sorted sequence is ordered between any two positions, not only neighbours. */
  lemma {:induction false} SortedPairs(s: seq<Value>, i: nat, j: nat)
    requires Sorted(s) && i <= j < |s|
    ensures LessEq(s[i], s[j])
    decreases j - i
  {
    if i == j {
      LessEqTotal(s[i], s[i]);
    } else if i + 1 == j {
    } else {
      SortedPairs(s, i, j - 1);
      LessEqTransitive(s[i], s[j - 1], s[j]);
    }
  }

  /** x placed before the first element it is at most. */
  function Insert(x: Value, s: seq<Value>): (r: seq<Value>)
    ensures |r| == |s| + 1
  {
    if s == [] || LessEq(x, s[0]) then [x] + s
    else [s[0]] + Insert(x, s[1..])
  }

  /** Inserting adds x and keeps every element of s. */
  lemma {:induction false} InsertPermutes(x: Value, s: seq<Value>)
    ensures multiset(Insert(x, s)) == multiset(s) + multiset{x}
  {
    if s != [] && !LessEq(x, s[0]) {
      InsertPermutes(x, s[1..]);
      assert s == [s[0]] + s[1..];
    }
  }

  lemma {:induction false} InsertSorted(x: Value, s: seq<Value>)
    requires Sorted(s)
    ensures Sorted(Insert(x, s))
    ensures Insert(x, s) != [] && (Insert(x, s)[0] == x || (s != [] && Insert(x, s)[0] == s[0]))
  {
    if s == [] || LessEq(x, s[0]) {
    } else {
      LessEqTotal(x, s[0]);
      InsertSorted(x, s[1..]);
      var rest := Insert(x, s[1..]);
      assert Insert(x, s) == [s[0]] + rest;
      forall i | 0 < i < |[s[0]] + rest|
        ensures LessEq(([s[0]] + rest)[i - 1], ([s[0]] + rest)[i])
      {
        if i == 1 {
          if rest[0] != x {
            assert rest[0] == s[1];
          }
        } else {
          assert ([s[0]] + rest)[i - 1] == rest[i - 2] && ([s[0]] + rest)[i] == rest[i - 1];
        }
      }
    }
  }

  /** Insertion sort, the reference for Go's sorts: stable and ascending. */
  function Sort(s: seq<Value>): (r: seq<Value>)
    ensures |r| == |s|
  {
    if s == [] then [] else Insert(s[0], Sort(s[1..]))
  }

  /** Sorting is a permutation. */
  lemma {:induction false} SortPermutes(s: seq<Value>)
    ensures multiset(Sort(s)) == multiset(s)
  {
    if s != [] {
      SortPermutes(s[1..]);
      InsertPermutes(s[0], Sort(s[1..]));
      assert s == [s[0]] + s[1..];
    }
  }

  lemma {:induction false} SortSorted(s: seq<Value>)
    ensures Sorted(Sort(s))
  {
    if s != [] {
      SortSorted(s[1..]);
      InsertSorted(s[0], Sort(s[1..]));
    }
  }

  /** The element types whose slices sortPrimitive sorts. */
  const SortedKinds: set<ScalarKind> := {IntKind, StringKind, Float64Kind, Float32Kind}

  /** A pointer to a slice of one of the sorted element types. */
  predicate IsSortable(v: Value) {
    v.Ref? && v.target.List? && v.target.elem.Scalar? && v.target.elem.kind in SortedKinds
  }

  /** sortPrimitive: a sorted copy behind a new pointer, or the value unchanged. */
  function SortPrimitive(v: Value): (r: Value)
    ensures !IsSortable(v) ==> r == v
    ensures IsSortable(v) ==> r.Ref? && r.target.List? && r.target.elem == v.target.elem
  {
    if IsSortable(v) then Ref(List(v.target.elem, Sort(v.target.items))) else v
  }

  /** The copy sortPrimitive makes holds the same elements, in ascending order. */
  lemma SortPrimitiveSorts(v: Value)
    requires IsSortable(v)
    ensures multiset(SortPrimitive(v).target.items) == multiset(v.target.items)
    ensures Sorted(SortPrimitive(v).target.items)
  {
    SortSorted(v.target.items);
    SortPermutes(v.target.items);
  }

  /** x goes in front of a sequence whose first element it is at most. */
  lemma InsertFront(x: Value, s: seq<Value>)
    requires s == [] || LessEq(x, s[0])
    ensures Insert(x, s) == [x] + s
  {
  }

  /** x goes past a first element it is not at most. */
  lemma InsertPast(x: Value, s: seq<Value>)
    requires s != [] && !LessEq(x, s[0])
    ensures Insert(x, s) == [s[0]] + Insert(x, s[1..])
  {
  }

  /** Sorting a one-element sequence leaves it as it is. */
  lemma SortOne(x: Value)
    ensures Sort([x]) == [x]
  {
    assert [x][1..] == [];
  }

  /** Sorting x before s inserts x into s sorted. */
  lemma SortCons(x: Value, s: seq<Value>)
    ensures Sort([x] + s) == Insert(x, Sort(s))
  {
    assert ([x] + s)[0] == x && ([x] + s)[1..] == s;
  }

  /** Three elements where the last is the least and the first precedes the second. */
  lemma SortLastFirst(a: Value, b: Value, c: Value)
    requires !LessEq(b, c) && !LessEq(a, c) && LessEq(a, b)
    ensures Sort([a, b, c]) == [c, a, b]
  {
    SortOne(c);
    SortCons(b, [c]);
    InsertPast(b, [c]);
    InsertFront(b, []);
    assert [b, c] == [b] + [c];
    SortCons(a, [b, c]);
    InsertPast(a, [c, b]);
    InsertFront(a, [b]);
    assert [a, b, c] == [a] + [b, c];
  }

  /** Three elements where the middle one is the least and the first precedes the last. */
  lemma SortMiddleFirst(a: Value, b: Value, c: Value)
    requires LessEq(b, c) && !LessEq(a, b) && LessEq(a, c)
    ensures Sort([a, b, c]) == [b, a, c]
  {
    SortOne(c);
    SortCons(b, [c]);
    InsertFront(b, [c]);
    assert [b, c] == [b] + [c];
    SortCons(a, [b, c]);
    InsertPast(a, [b, c]);
    InsertFront(a, [c]);
    assert [a, b, c] == [a] + [b, c];
  }

  /** An element at most the least of the rest stays in front. */
  lemma SortKeepsFront(x: Value, s: seq<Value>)
    requires Sort(s) == [] || LessEq(x, Sort(s)[0])
    ensures Sort([x] + s) == [x] + Sort(s)
  {
    SortCons(x, s);
    InsertFront(x, Sort(s));
  }

  /** Four elements where the first is the least and the last three are ordered as SortMiddleFirst says. */
  lemma SortFrontThenMiddle(x: Value, a: Value, b: Value, c: Value)
    requires LessEq(b, c) && !LessEq(a, b) && LessEq(a, c) && LessEq(x, b)
    ensures Sort([x, a, b, c]) == [x, b, a, c]
  {
    SortMiddleFirst(a, b, c);
    assert Sort([a, b, c])[0] == b;
    SortKeepsFront(x, [a, b, c]);
    assert [x, a, b, c] == [x] + [a, b, c];
    assert [x] + [b, a, c] == [x, b, a, c];
  }

  /** With sorting on, the "from" slice [4, 6, 1] is compared as [1, 4, 6]. */
  lemma SortExampleFrom()
    ensures Sort([Num(IntKind, 4), Num(IntKind, 6), Num(IntKind, 1)]) == [Num(IntKind, 1), Num(IntKind, 4), Num(IntKind, 6)]
  {
    SortLastFirst(Num(IntKind, 4), Num(IntKind, 6), Num(IntKind, 1));
  }

  /** ... and the "to" slice [1, 6, 4, 7] as [1, 4, 6, 7], so only 7 at index 3 is new. */
  lemma SortExampleTo()
    ensures Sort([Num(IntKind, 1), Num(IntKind, 6), Num(IntKind, 4), Num(IntKind, 7)])
         == [Num(IntKind, 1), Num(IntKind, 4), Num(IntKind, 6), Num(IntKind, 7)]
  {
    SortFrontThenMiddle(Num(IntKind, 1), Num(IntKind, 6), Num(IntKind, 4), Num(IntKind, 7));
  }
}
