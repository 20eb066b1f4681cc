/**
 * The decoders a string field gets when its tag names an item separator
 * or a pair delimiter (differ.go): the text becomes a list of strings or
 * a string-keyed map, which is then compared instead of the text.
 */
module Decoders {
  import opened Wrappers
  import opened Text
  import opened Shapes
  import opened Values
  import opened Tags
  import opened Failures

  /** The text a decoder works on: the string itself, or "" for anything else. */
  function TextOf(v: Value): string {
    if v.Str? then v.s else ""
  }

  /** Every piece as a string value. */
  function StrItems(pieces: seq<string>): (r: seq<Value>)
    ensures |r| == |pieces|
    ensures forall i :: 0 <= i < |r| ==> r[i] == Str(pieces[i])
  {
    seq(|pieces|, i requires 0 <= i < |pieces| => Str(pieces[i]))
  }

  /** The pieces the item decoder cuts the text into. */
  function ItemPieces(t: Tag, text: string): seq<string> {
    SplitAny(WithoutWhitespace(t, text), Split(t.itemSeparator, "|"))
  }

  /**
   * The item decoder: a pointer to the list of the text's pieces, cut at
   * any of the `|`-separated item separators once whitespace is removed.
   */
  function DecodedItems(t: Tag, v: Value): Value {
    Ref(List(Scalar(StringKind), StrItems(ItemPieces(t, TextOf(v)))))
  }

  /** Decodes a value into its list of items. */
  method DecodeItems(t: Tag, v: Value) returns (r: Value)
    ensures r == DecodedItems(t, v)
  {
    var text := RemoveWhitespace(t, TextOf(v));
    var pieces := SplitAny(text, Split(t.itemSeparator, "|"));
    var items := AppendItems(pieces);
    r := Ref(List(Scalar(StringKind), items));
  }

  /** The pieces as string values, appended one after the other. */
  method AppendItems(pieces: seq<string>) returns (items: seq<Value>)
    ensures items == StrItems(pieces)
  {
    items := [];
    var i := 0;
    while i < |pieces|
      invariant 0 <= i <= |pieces|
      invariant |items| == i
      invariant forall j :: 0 <= j < i ==> items[j] == Str(pieces[j])
    {
      items := items + [Str(pieces[i])];
      i := i + 1;
    }
  }

  /** The decoded list is a pointer to a slice of strings, one per piece, each no longer than the text. */
  lemma DecodedItemsShape(t: Tag, v: Value)
    ensures DecodedItems(t, v).Ref? && DecodedItems(t, v).target.List?
    ensures DecodedItems(t, v).target.elem == Scalar(StringKind)
    ensures |DecodedItems(t, v).target.items| >= 1
    ensures forall i :: 0 <= i < |DecodedItems(t, v).target.items| ==>
              DecodedItems(t, v).target.items[i].Str? && |DecodedItems(t, v).target.items[i].s| <= |TextOf(v)|
  {
    var text := WithoutWhitespace(t, TextOf(v));
    WithoutWhitespaceShrinks(t, TextOf(v));
    SplitAnyPieceLength(text, Split(t.itemSeparator, "|"));
    var pieces := ItemPieces(t, TextOf(v));
    forall i | 0 <= i < |pieces|
      ensures |pieces[i]| <= |TextOf(v)|
    {
      assert pieces[i] in pieces;
    }
  }

  /** Removing whitespace never lengthens the text. */
  lemma WithoutWhitespaceShrinks(t: Tag, value: string)
    ensures |WithoutWhitespace(t, value)| <= |value|
  {
    if t.whitespace != [] {
      WhitespaceRemoved(t, value);
    }
  }

  // ---------------------------------------------------------------------
  // Pairs

  /** Go's map assignment on an association list: the key's value is replaced in place, or the pair goes last. */
  function Put(entries: seq<(string, Value)>, key: string, v: Value): (r: seq<(string, Value)>)
    ensures forall k :: Lookup(r, k) == (if k == key then v else Lookup(entries, k))
    ensures forall i :: 0 <= i < |r| ==> r[i] == (key, v) || r[i] in entries
  {
    if |entries| == 0 then [(key, v)]
    else if entries[0].0 == key then [(key, v)] + entries[1..]
    else [entries[0]] + Put(entries[1..], key, v)
  }

  /** The key and value of one `key<sep>value` item, without whitespace, when it splits into exactly two parts. */
  function PairOf(t: Tag, item: string): Option<(string, string)> {
    var pair := Split(item, t.pairSeparator);
    if |pair| == 2 then Some((WithoutWhitespace(t, pair[0]), WithoutWhitespace(t, pair[1]))) else None
  }

  /** The map built from the first n items; an item that is not exactly one pair is skipped. */
  function PairsPrefix(t: Tag, items: seq<string>, n: nat): seq<(string, Value)>
    requires n <= |items|
  {
    if n == 0 then []
    else
      var prev := PairsPrefix(t, items, n - 1);
      match PairOf(t, items[n - 1])
      case Some((k, v)) => Put(prev, k, Str(v))
      case None => prev
  }

  /** The items the pair decoder cuts the text into, at any of the `|`-separated pair delimiters. */
  function PairItems(t: Tag, text: string): seq<string> {
    SplitAny(text, Split(t.pairDelimiter, "|"))
  }

  /**
   * The pair decoder: a `map[string]interface{}` holding, for every item
   * that splits into a key and a value, the value under the key (a later
   * item wins).
   */
  function DecodedPairs(t: Tag, v: Value): Value {
    var items := PairItems(t, TextOf(v));
    Dict(Scalar(StringKind), Interface, PairsPrefix(t, items, |items|))
  }

  /** Decodes a value into its map of pairs, item by item. */
  method DecodePairs(t: Tag, v: Value) returns (r: Value)
    ensures r == DecodedPairs(t, v)
  {
    var items := SplitAny(TextOf(v), Split(t.pairDelimiter, "|"));
    var entries: seq<(string, Value)> := [];
    var i := 0;
    while i < |items|
      invariant 0 <= i <= |items|
      invariant entries == PairsPrefix(t, items, i)
    {
      var pair := Split(items[i], t.pairSeparator);
      if |pair| == 2 {
        var key := RemoveWhitespace(t, pair[0]);
        var value := RemoveWhitespace(t, pair[1]);
        assert PairOf(t, items[i]) == Some((key, value));
        assert PairsPrefix(t, items, i + 1) == Put(entries, key, Str(value));
        entries := Put(entries, key, Str(value));
      } else {
        assert PairOf(t, items[i]).None?;
        assert PairsPrefix(t, items, i + 1) == entries;
      }
      i := i + 1;
    }
    return Dict(Scalar(StringKind), Interface, entries);
  }

  /** Every decoded value is a string strictly shorter than one item of the text. */
  lemma {:induction false} PairsPrefixValues(t: Tag, items: seq<string>, n: nat, bound: nat)
    requires n <= |items|
    requires forall i :: 0 <= i < |items| ==> |items[i]| <= bound
    ensures forall i :: 0 <= i < |PairsPrefix(t, items, n)| ==>
              PairsPrefix(t, items, n)[i].1.Str? && |PairsPrefix(t, items, n)[i].1.s| < bound
  {
    if n > 0 {
      PairsPrefixValues(t, items, n - 1, bound);
      var item := items[n - 1];
      var pair := Split(item, t.pairSeparator);
      if |pair| == 2 {
        SplitPieceLength(item, t.pairSeparator);
        assert pair[1] in pair;
        WithoutWhitespaceShrinks(t, pair[1]);
      }
    }
  }

  /**
   * The decoded map is a string-keyed map of strings, each shorter than
   * the text, so each entry is smaller than the value it was decoded from.
   */
  lemma DecodedPairsBelow(t: Tag, v: Value)
    ensures IsStringMap(DecodedPairs(t, v))
    ensures forall i :: 0 <= i < |DecodedPairs(t, v).entries| ==>
              DecodedPairs(t, v).entries[i].1.Str? && |DecodedPairs(t, v).entries[i].1.s| < |TextOf(v)|
    ensures EntriesBelow(DecodedPairs(t, v).entries, Size(v))
  {
    var text := TextOf(v);
    var items := PairItems(t, text);
    SplitAnyPieceLength(text, Split(t.pairDelimiter, "|"));
    forall i | 0 <= i < |items|
      ensures |items[i]| <= |text|
    {
      assert items[i] in items;
    }
    PairsPrefixValues(t, items, |items|, |text|);
  }

  // ---------------------------------------------------------------------
  // The pair decoder as written

  /**
   * The pair decoder as differ.go writes it: both parts of the split are
   * read before their number is checked, so an item without a separator
   * (an empty one included) indexes past the end and panics.
   */
  function PairsPrefixAsWritten(t: Tag, items: seq<string>, n: nat): Outcome<seq<(string, Value)>>
    requires n <= |items|
  {
    if n == 0 then Ok([])
    else
      match PairsPrefixAsWritten(t, items, n - 1)
      case Ok(prev) =>
        var pair := Split(items[n - 1], t.pairSeparator);
        if |pair| == 0 then Panic("index out of range [0] with length 0")
        else if |pair| == 1 then Panic("index out of range [1] with length 1")
        else if |pair| == 2 then Ok(Put(prev, WithoutWhitespace(t, pair[0]), Str(WithoutWhitespace(t, pair[1]))))
        else Ok(prev)
      case other => other
  }

  /** An item the written decoder can read both parts of. */
  predicate Paired(t: Tag, item: string) {
    |Split(item, t.pairSeparator)| >= 2
  }

  /** One step of the written decoder: once it panicked it stays so, and otherwise it panics unless the item has at least two parts. */
  lemma PairsAsWrittenStep(t: Tag, items: seq<string>, n: nat)
    requires 0 < n <= |items|
    ensures !PairsPrefixAsWritten(t, items, n - 1).Ok? ==> PairsPrefixAsWritten(t, items, n) == PairsPrefixAsWritten(t, items, n - 1)
    ensures PairsPrefixAsWritten(t, items, n - 1).Ok? ==>
              (PairsPrefixAsWritten(t, items, n).Ok? <==> Paired(t, items[n - 1]))
    ensures PairsPrefixAsWritten(t, items, n).Ok? && PairsPrefixAsWritten(t, items, n - 1).value == PairsPrefix(t, items, n - 1)
            ==> PairsPrefixAsWritten(t, items, n).value == PairsPrefix(t, items, n)
  {
  }

  /** Where the written decoder does not panic it builds the corrected decoder's map, and it panics exactly when some item has fewer than two parts. */
  lemma {:induction false} PairsAsWrittenAgrees(t: Tag, items: seq<string>, n: nat)
    requires n <= |items|
    ensures PairsPrefixAsWritten(t, items, n).Ok? ==> PairsPrefixAsWritten(t, items, n).value == PairsPrefix(t, items, n)
    ensures PairsPrefixAsWritten(t, items, n).Ok? <==> forall i :: 0 <= i < n ==> Paired(t, items[i])
  {
    if n > 0 {
      PairsAsWrittenAgrees(t, items, n - 1);
      PairsAsWrittenStep(t, items, n);
      if PairsPrefixAsWritten(t, items, n).Ok? {
        assert PairsPrefixAsWritten(t, items, n - 1).Ok? && Paired(t, items[n - 1]);
        forall i | 0 <= i < n
          ensures Paired(t, items[i])
        {
          if i < n - 1 {
            assert 0 <= i < n - 1;
          }
        }
      } else if PairsPrefixAsWritten(t, items, n - 1).Ok? {
        assert !Paired(t, items[n - 1]);
      } else {
        var i :| 0 <= i < n - 1 && !Paired(t, items[i]);
        assert 0 <= i < n;
      }
    }
  }

  /**
   * An item without the pair separator, as "b" in "a=1;b", splits into one
   * part: the written decoder reads the missing second part and panics,
   * while the corrected one skips the item.
   */
  lemma UnpairedItemPanics(t: Tag)
    requires t.pairDelimiter == ";" && t.pairSeparator == "="
    ensures PairItems(t, "a=1;b") == ["a=1", "b"]
    ensures PairsPrefixAsWritten(t, ["a=1", "b"], 2) == Panic("index out of range [1] with length 1")
    ensures PairsPrefix(t, ["a=1", "b"], 2) == PairsPrefix(t, ["a=1", "b"], 1)
  {
    SecondItem(t, "b");
    assert "a=1;" + "b" == "a=1;b";
    SplitPair("a", "1");
    assert "a=1" == "a" + "=" + "1";
    assert PairsPrefixAsWritten(t, ["a=1", "b"], 1).Ok?;
    SplitAbsent("b", "=");
  }

  /** An empty item, as a trailing delimiter leaves under this model's splitter, panics the written decoder too. */
  lemma TrailingDelimiterPanics(t: Tag)
    requires t.pairDelimiter == ";" && t.pairSeparator == "="
    ensures PairItems(t, "a=1;") == ["a=1", ""]
    ensures PairsPrefixAsWritten(t, ["a=1", ""], 2).Panic?
    ensures PairsPrefix(t, ["a=1", ""], 2) == PairsPrefix(t, ["a=1", ""], 1)
  {
    SecondItem(t, "");
    assert "a=1;" + "" == "a=1;";
    SplitPair("a", "1");
    assert "a=1" == "a" + "=" + "1";
    assert PairsPrefixAsWritten(t, ["a=1", ""], 1).Ok?;
    SplitAbsent("", "=");
  }

  /**
   * This model's splitter cuts "a=1;" followed by a tail free of `;` into
   * the items "a=1" and the tail, an empty one included.
   */
  lemma SecondItem(t: Tag, tail: string)
    requires t.pairDelimiter == ";" && ';' !in tail
    ensures PairItems(t, "a=1;" + tail) == ["a=1", tail]
  {
    SplitAbsent(";", "|");
    SplitAnySingle("a=1;" + tail, ";");
    assert "a=1;" + tail == "a=1" + [';'] + tail;
    SplitOnce("a=1", ';', tail);
  }
}
