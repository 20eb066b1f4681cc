/**
 * What the map differ (map.go diff) reports for `map[string]interface{}`
 * values whose entries hold scalars (booleans, numbers, strings), under a
 * tag that does not decode: every key is compared by the scalar fallback
 * of differ.go, at the key's entry path. The engine's map walk is proved
 * equal to a reference that lists those comparisons directly, and the
 * reference's changes are then read off key by key.
 */
module MapLaws {
  import opened Wrappers
  import opened Shapes
  import opened Values
  import opened Tags
  import opened Settings
  import opened Failures
  import Paths
  import opened Changes
  import opened ChangeLogs
  import opened Differs
  import opened Engine

  /** A boolean, number or string: a value the scalar fallback compares. */
  predicate ScalarValue(v: Value) {
    v.Flag? || v.Num? || v.Str?
  }

  predicate ScalarEntries(entries: seq<(string, Value)>) {
    forall i :: 0 <= i < |entries| ==> ScalarValue(entries[i].1)
  }

  /** No key occurs twice, as in a Go map. */
  predicate DistinctKeys(entries: seq<(string, Value)>) {
    forall i, j :: 0 <= i < j < |entries| ==> entries[i].0 != entries[j].0
  }

  /** A map value the map differ accepts, holding scalars under distinct keys. */
  predicate ScalarMap(v: Value) {
    IsStringMap(v) && ScalarEntries(v.entries) && DistinctKeys(v.entries)
  }

  /** A tag under which a string element is compared as it is. */
  predicate PlainTag(tag: Option<Tag>) {
    tag.None? || !Decodable(tag.value)
  }

  // ---------------------------------------------------------------------
  // One element

  /** The registry's differ for a scalar type under a plain tag is the scalar fallback. */
  lemma ScalarBuildsPlain(schema: Schema, v: Value, tag: Option<Tag>)
    requires ScalarValue(v) && PlainTag(tag)
    ensures Build(schema, Some(TypeOf(v)), Some(TypeOf(v)), RegistryConfig(tag), NestingLimit)
            == Ok(Differ(RegistryConfig(tag), Plain))
  {
    if v.Str? {
      BuildDecodes(schema, RegistryConfig(tag), NestingLimit);
    }
  }

  /** diffIfaceElement on scalars under a plain tag is the scalar fallback at the element's path. */
  lemma ScalarElementDiff(schema: Schema, tag: Option<Tag>, at: Paths.Path, from: Value, to: Value, ct: ChangeType, presence: bool, fromCap: nat, toCap: nat)
    requires from == Nil || (Size(from) < fromCap && ScalarValue(from))
    requires to == Nil || (Size(to) < toCap && ScalarValue(to))
    requires PlainTag(tag)
    ensures ElementDiff(schema, tag, at, from, to, ct, presence, fromCap, toCap) == Emit(ScalarDiff(at, from, to, ct), Done)
  {
    if from != Nil || to != Nil {
      var src := if to != Nil then to else from;
      assert ElementType(from, to) == TypeOf(src);
      ScalarBuildsPlain(schema, src, tag);
    }
  }

  // ---------------------------------------------------------------------
  // The reference

  /** Each "from" entry from the j-th on, compared with the "to" value under its key. */
  function EntryChanges(path: Paths.Path, fe: seq<(string, Value)>, te: seq<(string, Value)>, j: nat): seq<Change>
    requires j <= |fe|
    decreases |fe| - j
  {
    if j == |fe| then []
    else ScalarDiff(Paths.Entry(path, fe[j].0), fe[j].1, Lookup(te, fe[j].0), Create) + EntryChanges(path, fe, te, j + 1)
  }

  /** Each "to" entry from the j-th on whose key "from" lacks, compared with nothing under `mode`. */
  function AddedChanges(path: Paths.Path, fe: seq<(string, Value)>, te: seq<(string, Value)>, mode: ChangeType, j: nat): seq<Change>
    requires j <= |te|
    decreases |te| - j
  {
    if j == |te| then []
    else (if HasKey(fe, te[j].0) then [] else ScalarDiff(Paths.Entry(path, te[j].0), Nil, te[j].1, mode)) + AddedChanges(path, fe, te, mode, j + 1)
  }

  /**
   * The changes of a scalar map diff: a nil "from" compares every "to"
   * entry with nothing in delete mode; otherwise every "from" entry is
   * compared with its counterpart in create mode, then every key only in
   * "to" with nothing, also in create mode.
   */
  function ScalarMapChanges(path: Paths.Path, from: Value, to: Value): seq<Change>
    requires from == Nil || from.Dict?
    requires to == Nil || to.Dict?
  {
    if from == Nil && to == Nil then []
    else if from == Nil then AddedChanges(path, [], to.entries, Delete, 0)
    else if to == Nil then EntryChanges(path, from.entries, [], 0)
    else EntryChanges(path, from.entries, to.entries, 0) + AddedChanges(path, from.entries, to.entries, Create, 0)
  }

  lemma {:induction false} FromEntriesScalar(schema: Schema, tag: Option<Tag>, path: Paths.Path, fe: seq<(string, Value)>, te: seq<(string, Value)>, presence: bool, j: nat, fromCap: nat, toCap: nat)
    requires j <= |fe| && EntriesBelow(fe, fromCap) && EntriesBelow(te, toCap)
    requires ScalarEntries(fe) && ScalarEntries(te) && PlainTag(tag)
    ensures FromEntries(schema, tag, path, fe, te, presence, j, fromCap, toCap) == Emit(EntryChanges(path, fe, te, j), Done)
    decreases |fe| - j
  {
    if j < |fe| {
      var (k, v) := fe[j];
      LookupBelow(te, k, toCap);
      LookupScalar(te, k);
      ScalarElementDiff(schema, tag, Paths.Entry(path, k), v, Lookup(te, k), Create, presence, fromCap, toCap);
      FromEntriesScalar(schema, tag, path, fe, te, presence, j + 1, fromCap, toCap);
    }
  }

  lemma {:induction false} ToOnlyEntriesScalar(schema: Schema, tag: Option<Tag>, path: Paths.Path, fe: seq<(string, Value)>, te: seq<(string, Value)>, mode: ChangeType, presence: bool, j: nat, fromCap: nat, toCap: nat)
    requires j <= |te| && EntriesBelow(te, toCap)
    requires ScalarEntries(te) && PlainTag(tag)
    ensures ToOnlyEntries(schema, tag, path, fe, te, mode, presence, j, fromCap, toCap) == Emit(AddedChanges(path, fe, te, mode, j), Done)
    decreases |te| - j
  {
    if j < |te| {
      var (k, v) := te[j];
      if !HasKey(fe, k) {
        ScalarElementDiff(schema, tag, Paths.Entry(path, k), Nil, v, mode, presence, fromCap, toCap);
      }
      ToOnlyEntriesScalar(schema, tag, path, fe, te, mode, presence, j + 1, fromCap, toCap);
    }
  }

  /** The value under a key of a scalar map is a scalar or nothing. */
  lemma LookupScalar(entries: seq<(string, Value)>, key: string)
    requires ScalarEntries(entries)
    ensures Lookup(entries, key) == Nil || ScalarValue(Lookup(entries, key))
  {
  }

  /**
   * For maps of scalars under a plain tag the map differ ends normally and
   * reports exactly the reference's changes.
   */
  lemma MapDiffScalar(schema: Schema, m: MapDiffer, path: Paths.Path, from: Value, to: Value, presence: bool, fromCap: nat, toCap: nat)
    requires from == Nil || (IsStringMap(from) && ScalarEntries(from.entries) && EntriesBelow(from.entries, fromCap))
    requires to == Nil || (IsStringMap(to) && ScalarEntries(to.entries) && EntriesBelow(to.entries, toCap))
    requires m.isStringIface && PlainTag(m.tag)
    ensures MapDiff(schema, m, path, from, to, presence, fromCap, toCap) == Emit(ScalarMapChanges(path, from, to), Done)
  {
    if from == Nil && to != Nil {
      ToOnlyEntriesScalar(schema, m.tag, path, [], to.entries, Delete, presence, 0, fromCap, toCap);
    } else if from != Nil && to == Nil {
      FromEntriesScalar(schema, m.tag, path, from.entries, [], presence, 0, fromCap, toCap);
    } else if from != Nil {
      FromEntriesScalar(schema, m.tag, path, from.entries, to.entries, presence, 0, fromCap, toCap);
      ToOnlyEntriesScalar(schema, m.tag, path, from.entries, to.entries, Create, presence, 0, fromCap, toCap);
    }
  }

  /** A map differ that does not take `map[string]interface{}` fails on any non-nil side, without a change. */
  lemma MapDiffUnsupported(schema: Schema, m: MapDiffer, path: Paths.Path, from: Value, to: Value, presence: bool, fromCap: nat, toCap: nat)
    requires from.Dict? ==> EntriesBelow(from.entries, fromCap)
    requires to.Dict? ==> EntriesBelow(to.entries, toCap)
    requires !m.isStringIface
    ensures from == Nil && to == Nil ==> MapDiff(schema, m, path, from, to, presence, fromCap, toCap) == Nothing
    ensures from != Nil || to != Nil ==>
            MapDiff(schema, m, path, from, to, presence, fromCap, toCap) == Emit([], Failed(MapTypeNotSupported(from)))
  {
  }

  // ---------------------------------------------------------------------
  // Key by key

  /** The changes recorded at one path, in order. */
  function ChangesAt(cs: seq<Change>, at: Paths.Path): seq<Change> {
    if cs == [] then []
    else (if cs[0].path == at then [cs[0]] else []) + ChangesAt(cs[1..], at)
  }

  lemma {:induction false} ChangesAtAppend(a: seq<Change>, b: seq<Change>, at: Paths.Path)
    ensures ChangesAt(a + b, at) == ChangesAt(a, at) + ChangesAt(b, at)
    decreases |a|
  {
    if a != [] {
      var head := if a[0].path == at then [a[0]] else [];
      assert (a + b)[0] == a[0] && (a + b)[1..] == a[1..] + b;
      ChangesAtAppend(a[1..], b, at);
      calc {
        ChangesAt(a + b, at);
        head + ChangesAt(a[1..] + b, at);
        head + (ChangesAt(a[1..], at) + ChangesAt(b, at));
        (head + ChangesAt(a[1..], at)) + ChangesAt(b, at);
        ChangesAt(a, at) + ChangesAt(b, at);
      }
    } else {
      assert a + b == b;
    }
  }

  /** The scalar fallback records at its own path only. */
  lemma ScalarDiffAt(at: Paths.Path, from: Value, to: Value, ct: ChangeType, p: Paths.Path)
    ensures ChangesAt(ScalarDiff(at, from, to, ct), p) == if p == at then ScalarDiff(at, from, to, ct) else []
  {
    var cs := ScalarDiff(at, from, to, ct);
    if cs != [] {
      assert |cs| == 1 && cs[0].path == at && cs[1..] == [];
    }
  }

  /** A key that occurs from the j-th entry on. */
  predicate KeyFrom(entries: seq<(string, Value)>, key: string, j: nat) {
    exists i :: j <= i < |entries| && entries[i].0 == key
  }

  /** Under distinct keys, the value under the key of the i-th entry is that entry's value. */
  lemma {:induction false} LookupDistinct(entries: seq<(string, Value)>, i: nat)
    requires DistinctKeys(entries) && i < |entries|
    ensures Lookup(entries, entries[i].0) == entries[i].1
  {
    if i > 0 {
      assert DistinctKeys(entries[1..]) by {
        forall a, b | 0 <= a < b < |entries[1..]|
          ensures entries[1..][a].0 != entries[1..][b].0
        {
          assert entries[1..][a] == entries[a + 1] && entries[1..][b] == entries[b + 1];
        }
      }
      assert entries[0].0 != entries[i].0;
      LookupDistinct(entries[1..], i - 1);
      assert entries[1..][i - 1] == entries[i];
    }
  }

  /** A key of distinct entries gets the reference's one comparison, against its own value. */
  lemma {:induction false} EntryChangesAt(path: Paths.Path, fe: seq<(string, Value)>, te: seq<(string, Value)>, j: nat, key: string)
    requires j <= |fe| && DistinctKeys(fe)
    ensures ChangesAt(EntryChanges(path, fe, te, j), Paths.Entry(path, key))
            == if KeyFrom(fe, key, j) then ScalarDiff(Paths.Entry(path, key), Lookup(fe, key), Lookup(te, key), Create) else []
    decreases |fe| - j
  {
    var at := Paths.Entry(path, key);
    if j < |fe| {
      var k := fe[j].0;
      EntryChangesAt(path, fe, te, j + 1, key);
      ChangesAtAppend(ScalarDiff(Paths.Entry(path, k), fe[j].1, Lookup(te, k), Create), EntryChanges(path, fe, te, j + 1), at);
      ScalarDiffAt(Paths.Entry(path, k), fe[j].1, Lookup(te, k), Create, at);
      if k == key {
        LookupDistinct(fe, j);
        assert !KeyFrom(fe, key, j + 1);
      } else {
        assert KeyFrom(fe, key, j) <==> KeyFrom(fe, key, j + 1);
      }
    } else {
      assert !KeyFrom(fe, key, j);
    }
  }

  /** A key only "to" has gets the reference's one comparison with nothing. */
  lemma {:induction false} AddedChangesAt(path: Paths.Path, fe: seq<(string, Value)>, te: seq<(string, Value)>, mode: ChangeType, j: nat, key: string)
    requires j <= |te| && DistinctKeys(te)
    ensures ChangesAt(AddedChanges(path, fe, te, mode, j), Paths.Entry(path, key))
            == if KeyFrom(te, key, j) && !HasKey(fe, key) then ScalarDiff(Paths.Entry(path, key), Nil, Lookup(te, key), mode) else []
    decreases |te| - j
  {
    var at := Paths.Entry(path, key);
    if j < |te| {
      var k := te[j].0;
      var step := if HasKey(fe, k) then [] else ScalarDiff(Paths.Entry(path, k), Nil, te[j].1, mode);
      AddedChangesAt(path, fe, te, mode, j + 1, key);
      ChangesAtAppend(step, AddedChanges(path, fe, te, mode, j + 1), at);
      ScalarDiffAt(Paths.Entry(path, k), Nil, te[j].1, mode, at);
      if k == key {
        LookupDistinct(te, j);
        assert !KeyFrom(te, key, j + 1);
      } else {
        assert KeyFrom(te, key, j) <==> KeyFrom(te, key, j + 1);
      }
    } else {
      assert !KeyFrom(te, key, j);
    }
  }

  lemma KeyFromHasKey(entries: seq<(string, Value)>, key: string)
    ensures KeyFrom(entries, key, 0) <==> HasKey(entries, key)
  {
  }

  /**
   * map.go's diff of two scalar maps, key by key: a key in both sides is
   * recorded once as an update when its values differ and not at all when
   * they are equal; a key only in "from" is recorded once as an update to
   * nil (the create mode it is compared in yields a create only from
   * nil); a key only in "to" once as a create; any other key not at all.
   */
  lemma MapDiffByKey(schema: Schema, m: MapDiffer, path: Paths.Path, from: Value, to: Value, presence: bool, fromCap: nat, toCap: nat, key: string)
    requires ScalarMap(from) && EntriesBelow(from.entries, fromCap)
    requires ScalarMap(to) && EntriesBelow(to.entries, toCap)
    requires m.isStringIface && PlainTag(m.tag)
    ensures MapDiff(schema, m, path, from, to, presence, fromCap, toCap).status == Done
    ensures var at := Paths.Entry(path, key);
            var fv := Lookup(from.entries, key);
            var tv := Lookup(to.entries, key);
            ChangesAt(MapDiff(schema, m, path, from, to, presence, fromCap, toCap).changes, at)
            == if HasKey(from.entries, key) && HasKey(to.entries, key) then (if fv == tv then [] else [UpdateChange(at, fv, tv)])
               else if HasKey(from.entries, key) then [UpdateChange(at, fv, Nil)]
               else if HasKey(to.entries, key) then [CreateChange(at, tv)]
               else []
  {
    MapDiffScalar(schema, m, path, from, to, presence, fromCap, toCap);
    var at := Paths.Entry(path, key);
    EntryChangesAt(path, from.entries, to.entries, 0, key);
    AddedChangesAt(path, from.entries, to.entries, Create, 0, key);
    ChangesAtAppend(EntryChanges(path, from.entries, to.entries, 0), AddedChanges(path, from.entries, to.entries, Create, 0), at);
    KeyFromHasKey(from.entries, key);
    KeyFromHasKey(to.entries, key);
    HasKeyLookup(from.entries, key);
    HasKeyLookup(to.entries, key);
  }

  /** A key is present exactly when a scalar map holds a non-nil value under it. */
  lemma {:induction false} HasKeyLookup(entries: seq<(string, Value)>, key: string)
    requires ScalarEntries(entries)
    ensures HasKey(entries, key) <==> Lookup(entries, key) != Nil
    decreases |entries|
  {
    if |entries| > 0 {
      assert ScalarEntries(entries[1..]) by {
        forall i | 0 <= i < |entries[1..]|
          ensures ScalarValue(entries[1..][i].1)
        {
          assert entries[1..][i] == entries[i + 1];
        }
      }
      HasKeyLookup(entries[1..], key);
      if entries[0].0 != key {
        assert HasKey(entries, key) <==> HasKey(entries[1..], key) by {
          if HasKey(entries, key) {
            var i :| 0 <= i < |entries| && entries[i].0 == key;
            assert entries[1..][i - 1] == entries[i];
          }
          if HasKey(entries[1..], key) {
            var i :| 0 <= i < |entries[1..]| && entries[1..][i].0 == key;
            assert entries[i + 1] == entries[1..][i];
          }
        }
      }
    }
  }

  /** With "from" nil, every "to" key is recorded once, as an update from nil (the delete mode it is compared in yields a delete only to nil). */
  lemma MapDiffNilFrom(schema: Schema, m: MapDiffer, path: Paths.Path, to: Value, presence: bool, fromCap: nat, toCap: nat, key: string)
    requires ScalarMap(to) && EntriesBelow(to.entries, toCap)
    requires m.isStringIface && PlainTag(m.tag)
    ensures MapDiff(schema, m, path, Nil, to, presence, fromCap, toCap).status == Done
    ensures var at := Paths.Entry(path, key);
            ChangesAt(MapDiff(schema, m, path, Nil, to, presence, fromCap, toCap).changes, at)
            == if HasKey(to.entries, key) then [UpdateChange(at, Nil, Lookup(to.entries, key))] else []
  {
    MapDiffScalar(schema, m, path, Nil, to, presence, fromCap, toCap);
    AddedChangesAt(path, [], to.entries, Delete, 0, key);
    KeyFromHasKey(to.entries, key);
    HasKeyLookup(to.entries, key);
  }

  /** With "to" nil, every "from" key is recorded once, as an update to nil. */
  lemma MapDiffNilTo(schema: Schema, m: MapDiffer, path: Paths.Path, from: Value, presence: bool, fromCap: nat, toCap: nat, key: string)
    requires ScalarMap(from) && EntriesBelow(from.entries, fromCap)
    requires m.isStringIface && PlainTag(m.tag)
    ensures MapDiff(schema, m, path, from, Nil, presence, fromCap, toCap).status == Done
    ensures var at := Paths.Entry(path, key);
            ChangesAt(MapDiff(schema, m, path, from, Nil, presence, fromCap, toCap).changes, at)
            == if HasKey(from.entries, key) then [UpdateChange(at, Lookup(from.entries, key), Nil)] else []
  {
    MapDiffScalar(schema, m, path, from, Nil, presence, fromCap, toCap);
    EntryChangesAt(path, from.entries, [], 0, key);
    KeyFromHasKey(from.entries, key);
    HasKeyLookup(from.entries, key);
  }

  /** Two equal scalar maps give no change. */
  lemma MapDiffEqual(schema: Schema, m: MapDiffer, path: Paths.Path, from: Value, presence: bool, fromCap: nat, toCap: nat)
    requires ScalarMap(from) && EntriesBelow(from.entries, fromCap) && EntriesBelow(from.entries, toCap)
    requires m.isStringIface && PlainTag(m.tag)
    ensures MapDiff(schema, m, path, from, from, presence, fromCap, toCap) == Nothing
  {
    MapDiffScalar(schema, m, path, from, from, presence, fromCap, toCap);
    EqualEntriesQuiet(path, from.entries, 0);
    NoneAdded(path, from.entries, 0);
  }

  lemma {:induction false} EqualEntriesQuiet(path: Paths.Path, fe: seq<(string, Value)>, j: nat)
    requires j <= |fe| && DistinctKeys(fe)
    ensures EntryChanges(path, fe, fe, j) == []
    decreases |fe| - j
  {
    if j < |fe| {
      LookupDistinct(fe, j);
      EqualEntriesQuiet(path, fe, j + 1);
    }
  }

  lemma {:induction false} NoneAdded(path: Paths.Path, fe: seq<(string, Value)>, j: nat)
    requires j <= |fe|
    ensures AddedChanges(path, fe, fe, Create, j) == []
    decreases |fe| - j
  {
    if j < |fe| {
      assert HasKey(fe, fe[j].0);
      NoneAdded(path, fe, j + 1);
    }
  }

  /** The two maps of the differ's map field test. */
  const TestFrom: Value := Dict(Scalar(StringKind), Interface, [("k1", Str("123")), ("k2", Str("abc"))])
  const TestTo: Value := Dict(Scalar(StringKind), Interface, [("k1", Str("123")), ("k2", Str("xyz"))])

  lemma TestMapsChanges(path: Paths.Path)
    ensures ScalarMapChanges(path, TestFrom, TestTo) == [UpdateChange(Paths.Entry(path, "k2"), Str("abc"), Str("xyz"))]
  {
    var fe := TestFrom.entries;
    var te := TestTo.entries;
    assert fe[0].0 == te[0].0 && fe[1].0 == te[1].0;
    assert HasKey(fe, te[0].0) && HasKey(fe, te[1].0);
    assert AddedChanges(path, fe, te, Create, 0) == [];
    assert Lookup(te, "k1") == Str("123") && Lookup(te, "k2") == Str("xyz");
  }

  /** The map field case of the differ's tests: only the changed key "k2" is reported, as an update. */
  lemma MapFieldExample(schema: Schema, m: MapDiffer, path: Paths.Path, presence: bool)
    requires m.isStringIface && PlainTag(m.tag)
    ensures MapDiff(schema, m, path, TestFrom, TestTo, presence, Size(TestFrom), Size(TestTo))
            == Emit([UpdateChange(Paths.Entry(path, "k2"), Str("abc"), Str("xyz"))], Done)
  {
    DictEntriesBelow(TestFrom);
    DictEntriesBelow(TestTo);
    assert ScalarEntries(TestFrom.entries) && ScalarEntries(TestTo.entries);
    MapDiffScalar(schema, m, path, TestFrom, TestTo, presence, Size(TestFrom), Size(TestTo));
    TestMapsChanges(path);
  }
}
