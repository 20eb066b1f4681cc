/**
 * Keying the elements of a slice (index.go): by the element itself, or by
 * one named field of struct elements. Each key maps to the position and
 * value of the last element carrying it.
 */
module Indexing {
  import opened Wrappers
  import opened Shapes
  import opened Values
  import opened Failures

  /** Where a keyed element sits and what it is. */
  datatype IndexEntry = IndexEntry(index: nat, value: Value)

  /** The message Go panics with when it reads through a nil pointer. */
  const NilDereference: string := "invalid memory address or nil pointer dereference"

  /** The index over the first n elements: each element overwrites the entry of its key. */
  function IndexPrefix(keys: seq<Value>, items: seq<Value>, n: nat): map<Value, IndexEntry>
    requires n <= |keys| == |items|
  {
    if n == 0 then map[]
    else IndexPrefix(keys, items, n - 1)[keys[n - 1] := IndexEntry(n - 1, items[n - 1])]
  }

  function Index(keys: seq<Value>, items: seq<Value>): map<Value, IndexEntry>
    requires |keys| == |items|
  {
    IndexPrefix(keys, items, |keys|)
  }

  /** Position j holds the last occurrence of its key. */
  predicate LastAt(keys: seq<Value>, j: nat)
    requires j < |keys|
  {
    forall l :: j < l < |keys| ==> keys[l] != keys[j]
  }

  /** Every key seen is indexed, and nothing else is. */
  lemma {:induction false} IndexPrefixDomain(keys: seq<Value>, items: seq<Value>, n: nat)
    requires n <= |keys| == |items|
    ensures forall k :: k in IndexPrefix(keys, items, n) <==> exists j :: 0 <= j < n && keys[j] == k
  {
    if n > 0 {
      IndexPrefixDomain(keys, items, n - 1);
    }
  }

  /** An entry points at the last element with its key and holds that element. */
  predicate EntryFor(keys: seq<Value>, items: seq<Value>, n: nat, k: Value, e: IndexEntry)
    requires n <= |keys| == |items|
  {
    e.index < n && keys[e.index] == k && e.value == items[e.index]
    && forall l :: e.index < l < n ==> keys[l] != k
  }

  lemma {:induction false} IndexPrefixEntries(keys: seq<Value>, items: seq<Value>, n: nat)
    requires n <= |keys| == |items|
    ensures forall k :: k in IndexPrefix(keys, items, n) ==> EntryFor(keys, items, n, k, IndexPrefix(keys, items, n)[k])
  {
    if n > 0 {
      IndexPrefixEntries(keys, items, n - 1);
      var prev := IndexPrefix(keys, items, n - 1);
      var m := IndexPrefix(keys, items, n);
      forall k | k in m
        ensures EntryFor(keys, items, n, k, m[k])
      {
        if k != keys[n - 1] {
          assert m[k] == prev[k];
          assert EntryFor(keys, items, n - 1, k, prev[k]);
        }
      }
    }
  }

  /** There are at most as many keys as elements. */
  lemma {:induction false} IndexPrefixSize(keys: seq<Value>, items: seq<Value>, n: nat)
    requires n <= |keys| == |items|
    ensures |IndexPrefix(keys, items, n)| <= n
  {
    if n > 0 {
      IndexPrefixSize(keys, items, n - 1);
      var prev := IndexPrefix(keys, items, n - 1);
      assert IndexPrefix(keys, items, n).Keys == prev.Keys + {keys[n - 1]};
    }
  }

  /** The entry of the key at a last occurrence is that very position. */
  lemma IndexAtLast(keys: seq<Value>, items: seq<Value>, j: nat)
    requires |keys| == |items| && j < |keys| && LastAt(keys, j)
    ensures keys[j] in Index(keys, items)
    ensures Index(keys, items)[keys[j]] == IndexEntry(j, items[j])
  {
    IndexPrefixDomain(keys, items, |keys|);
    IndexPrefixEntries(keys, items, |keys|);
    assert EntryFor(keys, items, |keys|, keys[j], Index(keys, items)[keys[j]]);
  }

  /** The field key of every element, read through pointers. */
  function FieldKeys(items: seq<Value>, name: string): (r: seq<Value>)
    ensures |r| == |items|
    ensures forall j :: 0 <= j < |items| ==> r[j] == FieldValue(items[j], name)
  {
    if |items| == 0 then [] else FieldKeys(items[..|items| - 1], name) + [FieldValue(items[|items| - 1], name)]
  }

  predicate HasField(schema: Schema, structName: string, name: string) {
    structName in schema && exists j :: 0 <= j < |schema[structName]| && schema[structName][j].name == name
  }

  /** The element type behind at most one pointer. */
  function ElemStruct(elem: Shape): Shape {
    if elem.Ptr? then elem.elem else elem
  }

  /**
   * The key of each element for an indexBy setting: the element itself for "" or
   * ".", otherwise the named field of struct elements. Any other element
   * type panics; so does a missing field or a nil element, once there is an
   * element to read.
   */
  function KeysBy(schema: Schema, indexBy: string, elem: Shape, items: seq<Value>): (r: Outcome<seq<Value>>)
    ensures r.Ok? ==> |r.value| == |items|
    ensures (indexBy == "" || indexBy == ".") ==> r == Ok(items)
    ensures r.Fail? == false
  {
    if indexBy == "" || indexBy == "." then Ok(items)
    else
      var e := ElemStruct(elem);
      if !e.Struct? then Panic(TypeName(e) + " not yet supported")
      else if |items| == 0 then Ok([])
      else if !HasField(schema, e.name, indexBy) then Panic(NilDereference)
      else if exists j :: 0 <= j < |items| && items[j] == Nil then Panic(NilDereference)
      else Ok(FieldKeys(items, indexBy))
  }

  /** indexBy: the index of the slice's elements under their keys. */
  function IndexedBy(schema: Schema, indexBy: string, elem: Shape, items: seq<Value>): (r: Outcome<map<Value, IndexEntry>>)
    ensures r.Ok? <==> KeysBy(schema, indexBy, elem, items).Ok?
  {
    match KeysBy(schema, indexBy, elem, items)
    case Ok(keys) => Ok(Index(keys, items))
    case Fail(e) => Fail(e)
    case Panic(why) => Panic(why)
  }

  /** indexPrimitive: each element value is its own key, so an entry's value is its key. */
  lemma PrimitiveEntries(items: seq<Value>)
    ensures forall k :: k in Index(items, items) <==> k in items
    ensures forall k :: k in Index(items, items) ==> Index(items, items)[k].value == k
    ensures |Index(items, items)| <= |items|
  {
    IndexPrefixDomain(items, items, |items|);
    IndexPrefixEntries(items, items, |items|);
    IndexPrefixSize(items, items, |items|);
    forall k | k in Index(items, items)
      ensures Index(items, items)[k].value == k
    {
      assert EntryFor(items, items, |items|, k, Index(items, items)[k]);
    }
  }

  /** For duplicates, the entry keeps the position of the last occurrence. */
  lemma PrimitiveLastWins(items: seq<Value>, j: nat)
    requires j < |items| && LastAt(items, j)
    ensures items[j] in Index(items, items)
    ensures Index(items, items)[items[j]] == IndexEntry(j, items[j])
  {
    IndexAtLast(items, items, j);
  }

  /** A field key on elements that are not structs panics. */
  lemma NamedKeyNeedsStructs(schema: Schema, indexBy: string, elem: Shape, items: seq<Value>)
    requires indexBy != "" && indexBy != "." && !ElemStruct(elem).Struct?
    ensures IndexedBy(schema, indexBy, elem, items).Panic?
  {
  }

  /** indexByField: entries hold the element at their position, keyed by its field. */
  lemma FieldEntries(schema: Schema, indexBy: string, elem: Shape, items: seq<Value>)
    requires indexBy != "" && indexBy != "."
    requires IndexedBy(schema, indexBy, elem, items).Ok?
    ensures forall k :: k in IndexedBy(schema, indexBy, elem, items).value ==>
              (IndexedBy(schema, indexBy, elem, items).value[k].index < |items|
               && IndexedBy(schema, indexBy, elem, items).value[k].value == items[IndexedBy(schema, indexBy, elem, items).value[k].index]
               && FieldValue(IndexedBy(schema, indexBy, elem, items).value[k].value, indexBy) == k)
  {
    var keys := KeysBy(schema, indexBy, elem, items).value;
    var m := IndexedBy(schema, indexBy, elem, items).value;
    IndexPrefixEntries(keys, items, |items|);
    forall k | k in m
      ensures m[k].index < |items| && m[k].value == items[m[k].index] && FieldValue(m[k].value, indexBy) == k
    {
      assert EntryFor(keys, items, |items|, k, m[k]);
      assert keys == FieldKeys(items, indexBy);
    }
  }

  /** Entries only ever hold elements of the slice. */
  lemma EntriesAreItems(keys: seq<Value>, items: seq<Value>)
    requires |keys| == |items|
    ensures forall k :: k in Index(keys, items) ==>
              Index(keys, items)[k].index < |items| && Index(keys, items)[k].value == items[Index(keys, items)[k].index]
  {
    IndexPrefixEntries(keys, items, |items|);
    forall k | k in Index(keys, items)
      ensures Index(keys, items)[k].index < |items| && Index(keys, items)[k].value == items[Index(keys, items)[k].index]
    {
      assert EntryFor(keys, items, |items|, k, Index(keys, items)[k]);
    }
  }

  /** The indexer of one side of a slice differ; it remembers the field it keys by. */
  class Indexer {
    var field: Option<string>

    constructor()
      ensures field.None?
    {
      field := None;
    }

    /** indexBy: keys by the element, or resolves the named field and keys by it. */
    method IndexBy(schema: Schema, items: seq<Value>, elem: Shape, indexBy: string) returns (r: Outcome<map<Value, IndexEntry>>)
      modifies this
      ensures r == IndexedBy(schema, indexBy, elem, items)
      ensures indexBy == "" || indexBy == "." || !ElemStruct(elem).Struct? ==> field == old(field)
      ensures indexBy != "" && indexBy != "." && ElemStruct(elem).Struct? ==>
                field == (if HasField(schema, ElemStruct(elem).name, indexBy) then Some(indexBy) else None)
    {
      if indexBy == "" || indexBy == "." {
        var m := IndexPrimitive(items);
        return Ok(m);
      }
      var e := ElemStruct(elem);
      if !e.Struct? {
        return Panic(TypeName(e) + " not yet supported");
      }
      field := if HasField(schema, e.name, indexBy) then Some(indexBy) else None;
      r := IndexByField(items);
    }

    /** indexByField: reads the remembered field of every element, in order. */
    method IndexByField(items: seq<Value>) returns (r: Outcome<map<Value, IndexEntry>>)
      requires field.Some? ==> field.value != "" && field.value != "."
      ensures field.None? ==> r == (if |items| == 0 then Ok(map[]) else Panic(NilDereference))
      ensures field.Some? && (exists j :: 0 <= j < |items| && items[j] == Nil) ==> r == Panic(NilDereference)
      ensures field.Some? && (forall j :: 0 <= j < |items| ==> items[j] != Nil) ==> r == Ok(Index(FieldKeys(items, field.value), items))
    {
      if field.None? {
        // the first element read goes through the missing field
        return if |items| == 0 then Ok(map[]) else Panic(NilDereference);
      }
      var result: map<Value, IndexEntry> := map[];
      var j := 0;
      while j < |items|
        invariant 0 <= j <= |items|
        invariant forall l :: 0 <= l < j ==> items[l] != Nil
        invariant result == IndexPrefix(FieldKeys(items, field.value), items, j)
      {
        if items[j] == Nil {
          return Panic(NilDereference);
        }
        var key := FieldValue(items[j], field.value);
        result := result[key := IndexEntry(j, items[j])];
        j := j + 1;
      }
      return Ok(result);
    }

    /** indexPrimitive: every element keyed by itself. */
    method IndexPrimitive(items: seq<Value>) returns (result: map<Value, IndexEntry>)
      ensures result == Index(items, items)
    {
      result := map[];
      var j := 0;
      while j < |items|
        invariant 0 <= j <= |items|
        invariant result == IndexPrefix(items, items, j)
      {
        result := result[items[j] := IndexEntry(j, items[j])];
        j := j + 1;
      }
    }
  }
}
