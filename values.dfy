/**
 * Dynamic values flowing through the differ, and the `matches` comparison
 * of comparator.go.
 *
 * `Ref` is a non-nil pointer; a nil pointer, like Go's nil interface, is
 * `Nil`, which is also what a field reads as when it holds its type's zero
 * value. Maps are association lists whose order stands for Go's map
 * iteration order.
 */
module Values {
  import opened Shapes

  datatype Value =
    | Nil
    | Flag(b: bool)
    | Num(kind: ScalarKind, n: int)
    | Str(s: string)
    | Opaque(shape: Shape, token: int)
    | Rec(name: string, fields: seq<(string, Value)>)
    | List(elem: Shape, items: seq<Value>)
    | Dict(key: Shape, elem: Shape, entries: seq<(string, Value)>)
    | Ref(target: Value)

  /** The first entry under `key`, or Nil. */
  function Lookup(entries: seq<(string, Value)>, key: string): (r: Value)
    ensures r != Nil ==> exists i :: 0 <= i < |entries| && entries[i] == (key, r)
  {
    if |entries| == 0 then Nil
    else if entries[0].0 == key then entries[0].1
    else Lookup(entries[1..], key)
  }

  predicate HasKey(entries: seq<(string, Value)>, key: string) {
    exists i :: 0 <= i < |entries| && entries[i].0 == key
  }

  /** The keys of an association list, in order. */
  function Keys(entries: seq<(string, Value)>): (r: seq<string>)
    ensures |r| == |entries|
    ensures forall i :: 0 <= i < |entries| ==> r[i] == entries[i].0
  {
    if |entries| == 0 then [] else [entries[0].0] + Keys(entries[1..])
  }

  /** A measure that strictly shrinks from a container to anything inside it. */
  function Size(v: Value): nat
    decreases v
  {
    match v
    case Nil => 0
    case Str(s) => |s| + 1
    case Rec(_, fields) => 1 + EntriesSize(fields)
    case List(_, items) => 1 + ItemsSize(items)
    case Dict(_, _, entries) => 1 + EntriesSize(entries)
    case Ref(t) => 1 + Size(t)
    case _ => 1
  }

  function ItemsSize(items: seq<Value>): nat
    decreases items
  {
    if |items| == 0 then 0 else Size(items[0]) + ItemsSize(items[1..])
  }

  function EntriesSize(entries: seq<(string, Value)>): nat
    decreases entries
  {
    if |entries| == 0 then 0
    else
      var e := entries[0];
      assert e in entries && e.1 < e;
      1 + Size(e.1) + EntriesSize(entries[1..])
  }

  lemma {:induction false} ItemSmaller(items: seq<Value>, i: int)
    requires 0 <= i < |items|
    ensures Size(items[i]) <= ItemsSize(items)
  {
    if i > 0 {
      ItemSmaller(items[1..], i - 1);
    }
  }

  /** An entry's value is strictly smaller than the entries it sits in. */
  lemma {:induction false} LookupSmaller(entries: seq<(string, Value)>, key: string)
    ensures Size(Lookup(entries, key)) < EntriesSize(entries) || Lookup(entries, key) == Nil
  {
    if |entries| > 0 && entries[0].0 != key {
      LookupSmaller(entries[1..], key);
    }
  }

  lemma {:induction false} EntrySmaller(entries: seq<(string, Value)>, i: int)
    requires 0 <= i < |entries|
    ensures Size(entries[i].1) < EntriesSize(entries)
  {
    if i > 0 {
      EntrySmaller(entries[1..], i - 1);
    }
  }

  /** reflect.TypeOf for a non-nil value. */
  function TypeOf(v: Value): Shape
    requires v != Nil
  {
    match v
    case Flag(_) => Scalar(BoolKind)
    case Num(k, _) => Scalar(k)
    case Str(_) => Scalar(StringKind)
    case Opaque(sh, _) => sh
    case Rec(n, _) => Struct(n)
    case List(e, _) => Slice(e)
    case Dict(k, e, _) => Map(k, e)
    case Ref(t) => if t == Nil then Ptr(Interface) else Ptr(TypeOf(t))
  }

  /** The value Go stores for a zero of a non-pointer type. */
  predicate IsZero(v: Value) {
    match v
    case Nil => true
    case Flag(b) => !b
    case Num(_, n) => n == 0
    case Str(s) => s == []
    case Opaque(_, token) => token == 0
    case _ => false
  }

  /** comparator.go `matches`: two nils match, a nil never matches a non-nil, otherwise Go's ==. */
  function Matches(from: Value, to: Value): (r: bool)
    ensures r <==> from == to
  {
    if from == Nil then to == Nil
    else if to == Nil then false
    else from == to
  }

  /** matches is reflexive and symmetric. */
  lemma MatchesEquivalence(a: Value, b: Value)
    ensures Matches(a, a)
    ensures Matches(a, b) == Matches(b, a)
  {
  }

  /** The length a slice value reports: the items behind a slice or a pointer to one, zero otherwise. */
  function Items(v: Value): seq<Value> {
    match v
    case List(_, items) => items
    case Ref(List(_, items)) => items
    case _ => []
  }

  lemma ItemsSmaller(v: Value, i: int)
    requires 0 <= i < |Items(v)|
    ensures Size(Items(v)[i]) < Size(v)
  {
    ItemSmaller(Items(v), i);
  }
  /** One pointer level removed, as reflect's Elem does for a pointer. */
  function Deref(v: Value): (r: Value)
    ensures v.Ref? ==> Size(r) < Size(v)
    ensures !v.Ref? ==> r == v
  {
    if v.Ref? then v.target else v
  }

  /** The fields seen through any number of pointers; a nil or non-record value has none. */
  function FieldsOf(v: Value): seq<(string, Value)>
    decreases v
  {
    match v
    case Rec(_, fields) => fields
    case Ref(t) => FieldsOf(t)
    case _ => []
  }

  /** The raw value stored in field `name`, read through pointers; Nil when absent. */
  function FieldValue(v: Value, name: string): (r: Value)
    ensures r != Nil ==> Size(r) + 1 < Size(v)
  {
    FieldInside(v, name);
    Lookup(FieldsOf(v), name)
  }

  lemma {:induction false} FieldInside(v: Value, name: string)
    ensures Lookup(FieldsOf(v), name) != Nil ==> Size(Lookup(FieldsOf(v), name)) + 1 < Size(v)
    decreases v
  {
    match v
    case Rec(_, fields) =>
      LookupSmaller(fields, name);
    case Ref(t) =>
      FieldInside(t, name);
    case _ =>
  }

  /** A `map[string]interface{}` value, the only map type the map differ accepts. */
  predicate IsStringMap(v: Value) {
    v.Dict? && v.key == Scalar(StringKind) && v.elem == Interface
  }

  /** Every entry value is smaller than `cap`. */
  predicate EntriesBelow(entries: seq<(string, Value)>, cap: nat) {
    forall i :: 0 <= i < |entries| ==> Size(entries[i].1) < cap
  }

  /** Every item is smaller than `cap`. */
  predicate ItemsBelow(items: seq<Value>, cap: nat) {
    forall i :: 0 <= i < |items| ==> Size(items[i]) < cap
  }

  /** The entries of a map value are each smaller than the map. */
  lemma DictEntriesBelow(v: Value)
    requires v.Dict?
    ensures EntriesBelow(v.entries, Size(v))
  {
    forall i | 0 <= i < |v.entries|
      ensures Size(v.entries[i].1) < Size(v)
    {
      EntrySmaller(v.entries, i);
    }
  }

  /** The items of a slice value are each smaller than the slice. */
  lemma ItemsOfBelow(v: Value)
    ensures ItemsBelow(Items(v), Size(v))
  {
    forall i | 0 <= i < |Items(v)|
      ensures Size(Items(v)[i]) < Size(v)
    {
      ItemsSmaller(v, i);
    }
  }

  /** A looked-up entry is one of the entries, so it respects their bound. */
  lemma LookupBelow(entries: seq<(string, Value)>, key: string, cap: nat)
    requires EntriesBelow(entries, cap)
    ensures Size(Lookup(entries, key)) < cap || Lookup(entries, key) == Nil
  {
  }
}
