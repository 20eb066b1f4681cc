/**
 * Field tags (`diff:"..."`): parsing the comma-separated `key=value`
 * elements, completing a parsed tag from the configuration, and removing
 * the tag's whitespace tokens from decoded text.
 */
module Tags {
  import opened Wrappers
  import opened Text
  import opened Failures

  /**
   * A parsed tag. `pairDelimiters` is the `|`-separated list behind
   * `pairDelimiter`, filled in by `Init`; `precision` and `nullifyEmpty`
   * are optional settings (nil pointers in the tag record).
   */
  datatype Tag = Tag(
    name: string,
    presence: bool,
    pairSeparator: string,
    pairDelimiter: string,
    pairDelimiters: seq<string>,
    itemSeparator: string,
    whitespace: string,
    indexBy: string,
    sort: bool,
    timeLayout: string,
    precision: Option<int>,
    ignore: bool,
    nullifyEmpty: Option<bool>)

  /** The tag with every setting at its zero value. */
  const EmptyTag := Tag("", false, "", "", [], "", "", "", false, "", None, false, None)

  /** A string field with this tag is decoded into a map or a list before comparison. */
  function Decodable(t: Tag): (r: bool)
    ensures r <==> t.(pairDelimiter := "", itemSeparator := "") != t
    ensures t == EmptyTag ==> !r
  {
    t.pairDelimiter != [] || t.itemSeparator != []
  }

  // ---------------------------------------------------------------------
  // Completing a tag

  /**
   * The tag after initialisation against the configuration's
   * `nullifyEmpty` setting: the tag's own setting wins, a pair delimiter
   * is split into its alternatives, and pairs are separated by `=` unless
   * the tag names a separator.
   */
  function Init(t: Tag, nullifyEmpty: Option<bool>): (r: Tag)
    ensures r.nullifyEmpty == (if t.nullifyEmpty.Some? then t.nullifyEmpty else nullifyEmpty)
    ensures t.pairSeparator != [] ==> r.pairSeparator == t.pairSeparator
    ensures t.pairDelimiter != [] && t.pairSeparator == [] ==> r.pairSeparator == "="
    ensures t.pairDelimiter != [] ==> r.pairDelimiters == Split(t.pairDelimiter, "|")
    ensures t.pairDelimiter == [] ==> r.pairSeparator == t.pairSeparator && r.pairDelimiters == t.pairDelimiters
    ensures r.pairDelimiter != [] ==> r.pairSeparator != [] && Join(r.pairDelimiters, "|") == r.pairDelimiter
    ensures Decodable(r) == Decodable(t)
    ensures r.(pairSeparator := t.pairSeparator, pairDelimiters := t.pairDelimiters, nullifyEmpty := t.nullifyEmpty) == t
  {
    JoinSplit(t.pairDelimiter, "|");
    var nullify := if t.nullifyEmpty.None? then nullifyEmpty else t.nullifyEmpty;
    var delimiters := if t.pairDelimiter != [] then Split(t.pairDelimiter, "|") else t.pairDelimiters;
    var separator := if t.pairDelimiter != [] && t.pairSeparator == [] then "=" else t.pairSeparator;
    t.(nullifyEmpty := nullify, pairDelimiters := delimiters, pairSeparator := separator)
  }

  /** Initialising twice against the same configuration changes nothing more. */
  lemma InitIdempotent(t: Tag, nullifyEmpty: Option<bool>)
    ensures Init(Init(t, nullifyEmpty), nullifyEmpty) == Init(t, nullifyEmpty)
  {
  }

  // ---------------------------------------------------------------------
  // Whitespace removal

  /** Deletes every token, in order, from `value`. */
  function RemoveAll(value: string, tokens: seq<string>): string
    decreases |tokens|
  {
    if tokens == [] then value else RemoveAll(ReplaceAll(value, tokens[0], []), tokens[1..])
  }

  /**
   * What `removeWhitespace` yields: without whitespace tokens the value
   * as given; otherwise the trimmed value with each `|`-separated token
   * deleted.
   */
  function WithoutWhitespace(t: Tag, value: string): string {
    if t.whitespace == [] then value else RemoveAll(TrimSpace(value), Split(t.whitespace, "|"))
  }

  /** Removes the tag's whitespace tokens from `value`, one token after the other. */
  method RemoveWhitespace(t: Tag, value: string) returns (r: string)
    ensures r == WithoutWhitespace(t, value)
  {
    if t.whitespace == [] {
      return value;
    }
    var tokens := Split(t.whitespace, "|");
    r := TrimSpace(value);
    var i := 0;
    while i < |tokens|
      invariant 0 <= i <= |tokens|
      invariant RemoveAll(r, tokens[i..]) == WithoutWhitespace(t, value)
    {
      assert tokens[i..][1..] == tokens[i + 1..];
      r := ReplaceAll(r, tokens[i], []);
      i := i + 1;
    }
  }

  /** Deleting tokens never lengthens the text and keeps only its own characters. */
  lemma {:induction false} RemoveAllShrinks(value: string, tokens: seq<string>)
    ensures |RemoveAll(value, tokens)| <= |value|
    ensures forall i :: 0 <= i < |RemoveAll(value, tokens)| ==> RemoveAll(value, tokens)[i] in value
    decreases |tokens|
  {
    if tokens != [] {
      var v := ReplaceAll(value, tokens[0], []);
      RemoveShortens(value, tokens[0]);
      RemoveKeeps(value, tokens[0]);
      RemoveAllShrinks(v, tokens[1..]);
      var r := RemoveAll(value, tokens);
      forall i | 0 <= i < |r|
        ensures r[i] in value
      {
        assert r[i] in v;
        var k :| 0 <= k < |v| && v[k] == r[i];
      }
    }
  }

  /** Every one-character token is gone from the result. */
  lemma {:induction false} RemoveAllComplete(value: string, tokens: seq<string>)
    ensures forall j, i ::
      (0 <= j < |tokens| && |tokens[j]| == 1 && 0 <= i < |RemoveAll(value, tokens)|) ==> RemoveAll(value, tokens)[i] != tokens[j][0]
    decreases |tokens|
  {
    if tokens != [] {
      var v := ReplaceAll(value, tokens[0], []);
      var r := RemoveAll(value, tokens);
      RemoveAllComplete(v, tokens[1..]);
      RemoveAllShrinks(v, tokens[1..]);
      forall j, i | 0 <= j < |tokens| && |tokens[j]| == 1 && 0 <= i < |r|
        ensures r[i] != tokens[j][0]
      {
        if j == 0 {
          var c := tokens[0][0];
          assert tokens[0] == [c];
          RemoveCharComplete(value, c);
          assert r[i] in v;
        } else {
          assert tokens[1..][j - 1] == tokens[j];
        }
      }
    }
  }

  /**
   * The result of removing whitespace is never longer than the value, and
   * holds none of the tag's one-character whitespace tokens.
   */
  lemma WhitespaceRemoved(t: Tag, value: string)
    requires t.whitespace != []
    ensures |WithoutWhitespace(t, value)| <= |value|
    ensures forall j, i ::
      (0 <= j < |Split(t.whitespace, "|")| && |Split(t.whitespace, "|")[j]| == 1 && 0 <= i < |WithoutWhitespace(t, value)|)
      ==> WithoutWhitespace(t, value)[i] != Split(t.whitespace, "|")[j][0]
  {
    RemoveAllShrinks(TrimSpace(value), Split(t.whitespace, "|"));
    RemoveAllComplete(TrimSpace(value), Split(t.whitespace, "|"));
  }

  // ---------------------------------------------------------------------
  // Parsing

  /** The effect of one `key=raw` element whose key is already trimmed and lower-cased. */
  function ApplyKey(t: Tag, key: string, raw: string): (r: Outcome<Tag>)
    ensures r.Fail? <==> key == "precision" && Atoi(TrimSpace(raw)).None?
    ensures r.Fail? ==> r.error == InvalidPrecision(raw, AtoiError(TrimSpace(raw)))
    ensures r.Ok? && key == "precision" ==> r.value == t.(precision := Atoi(TrimSpace(raw)))
    ensures r.Ok? && key !in KnownKeys ==> r.value == t
    ensures r.Ok? ==> r.value.pairDelimiters == t.pairDelimiters && r.value.nullifyEmpty == t.nullifyEmpty
    ensures !r.Panic?
  {
    var v := TrimSpace(raw);
    if key == "presence" then Ok(t.(presence := true))
    else if key == "ignore" then Ok(t.(ignore := true))
    else if key == "name" then Ok(t.(name := v))
    else if key == "indexby" then Ok(t.(indexBy := v))
    else if key == "timelayout" then Ok(t.(timeLayout := v))
    else if key == "precision" then
      match Atoi(v)
      case Some(n) => Ok(t.(precision := Some(n)))
      case None => Fail(InvalidPrecision(raw, AtoiError(v)))
    else if key == "whitespace" then Ok(t.(whitespace := v))
    else if key == "pairseparator" then Ok(t.(pairSeparator := v))
    else if key == "pairdelimiter" then Ok(t.(pairDelimiter := v))
    else if key == "itemseparator" then Ok(t.(itemSeparator := v))
    else if key == "sort" then Ok(t.(sort := ParseBool(v).GetOr(false)))
    else Ok(t)
  }

  /** The keys a tag element may set. */
  const KnownKeys: set<string> := {"presence", "ignore", "name", "indexby", "timelayout", "precision",
    "whitespace", "pairseparator", "pairdelimiter", "itemseparator", "sort"}

  /** `$coma` stands for a comma inside one element. */
  function Unescape(element: string): string {
    ReplaceAll(element, "$coma", ",")
  }

  /**
   * The effect of one comma-separated element: `key=value` sets a setting,
   * a bare word names the field, and an element with several `=` is ignored.
   */
  function ApplyElement(t: Tag, element: string): (r: Outcome<Tag>)
    ensures r.Ok? ==> r.value.pairDelimiters == t.pairDelimiters && r.value.nullifyEmpty == t.nullifyEmpty
    ensures !r.Panic?
  {
    var e := Unescape(element);
    var nv := Split(e, "=");
    if |nv| == 2 then ApplyKey(t, ToLower(TrimSpace(nv[0])), nv[1])
    else if |nv| == 1 then Ok(t.(name := TrimSpace(e)))
    else Ok(t)
  }

  /** Applies the elements in order, stopping at the first error. */
  function ApplyElements(t: Tag, elements: seq<string>): (r: Outcome<Tag>)
    ensures !r.Panic?
    decreases |elements|
  {
    if elements == [] then Ok(t)
    else
      match ApplyElement(t, elements[0])
      case Ok(next) => ApplyElements(next, elements[1..])
      case other => other
  }

  /** What `ParseTag` yields for a tag string. */
  function Parsed(s: string): Outcome<Tag> {
    if s == "-" then Ok(EmptyTag.(ignore := true)) else ApplyElements(EmptyTag, Split(s, ","))
  }

  /** Parses a tag string, one comma-separated element after the other. */
  method ParseTag(s: string) returns (r: Outcome<Tag>)
    ensures r == Parsed(s)
  {
    if s == "-" {
      return Ok(EmptyTag.(ignore := true));
    }
    var elements := Split(s, ",");
    var tag := EmptyTag;
    var i := 0;
    while i < |elements|
      invariant 0 <= i <= |elements|
      invariant ApplyElements(tag, elements[i..]) == Parsed(s)
    {
      var next := ApplyElement(tag, elements[i]);
      ApplyElementsStep(tag, elements, i);
      if !next.Ok? {
        return next;
      }
      tag := next.value;
      i := i + 1;
    }
    return Ok(tag);
  }

  /** Applying the elements from index i on is applying element i, then the rest. */
  lemma ApplyElementsStep(t: Tag, elements: seq<string>, i: nat)
    requires i < |elements|
    ensures ApplyElements(t, elements[i..]) ==
      if ApplyElement(t, elements[i]).Ok? then ApplyElements(ApplyElement(t, elements[i]).value, elements[i + 1..])
      else ApplyElement(t, elements[i])
  {
    assert elements[i..][0] == elements[i];
    assert elements[i..][1..] == elements[i + 1..];
  }

  // ---------------------------------------------------------------------
  // Properties of parsing

  /** Parsing a sequence of elements is parsing its first part, then the rest. */
  lemma {:induction false} ApplyElementsAppend(t: Tag, a: seq<string>, b: seq<string>)
    ensures ApplyElements(t, a + b) ==
      match ApplyElements(t, a)
      case Ok(mid) => ApplyElements(mid, b)
      case other => other
    decreases |a|
  {
    if a == [] {
      assert a + b == b;
    } else {
      assert (a + b)[0] == a[0];
      assert (a + b)[1..] == a[1..] + b;
      match ApplyElement(t, a[0])
      case Ok(next) => ApplyElementsAppend(next, a[1..], b);
      case _ =>
    }
  }

  /** A parse fails only on a precision that is not a 64-bit decimal, and never panics. */
  lemma {:induction false} ApplyElementsFails(t: Tag, elements: seq<string>)
    ensures ApplyElements(t, elements).Fail? ==> ApplyElements(t, elements).error.InvalidPrecision?
    decreases |elements|
  {
    if elements != [] {
      match ApplyElement(t, elements[0])
      case Ok(next) => ApplyElementsFails(next, elements[1..]);
      case _ =>
    }
  }

  /** Parsing never sets the settings that `Init` fills in. */
  lemma {:induction false} ApplyElementsLeavesInitFields(t: Tag, elements: seq<string>)
    ensures ApplyElements(t, elements).Ok? ==>
      ApplyElements(t, elements).value.pairDelimiters == t.pairDelimiters
      && ApplyElements(t, elements).value.nullifyEmpty == t.nullifyEmpty
    decreases |elements|
  {
    if elements != [] {
      match ApplyElement(t, elements[0])
      case Ok(next) => ApplyElementsLeavesInitFields(next, elements[1..]);
      case _ =>
    }
  }

  /** The error of a failed parse is an invalid precision; a parsed tag has no delimiter list or nullify setting yet. */
  lemma ParsedShape(s: string)
    ensures Parsed(s).Fail? ==> Parsed(s).error.InvalidPrecision?
    ensures Parsed(s).Ok? ==> Parsed(s).value.pairDelimiters == [] && Parsed(s).value.nullifyEmpty == None
    ensures !Parsed(s).Panic?
  {
    if s != "-" {
      ApplyElementsFails(EmptyTag, Split(s, ","));
      ApplyElementsLeavesInitFields(EmptyTag, Split(s, ","));
    }
  }

  /** A one-element list parses as that element. */
  lemma ApplyElementsSingle(t: Tag, element: string)
    ensures ApplyElements(t, [element]) == ApplyElement(t, element)
  {
    assert [element][1..] == [];
  }

  /** A tag string without commas parses as one element. */
  lemma ParsedOneElement(s: string)
    requires s != "-" && ',' !in s
    ensures Parsed(s) == ApplyElement(EmptyTag, s)
  {
    SplitAbsent(s, ",");
    ApplyElementsSingle(EmptyTag, s);
  }

  /** A single word without `,`, `=` or `$` only names the field. */
  lemma ParsedBareName(s: string)
    requires s != "-" && ',' !in s && '=' !in s && '$' !in s
    ensures Parsed(s) == Ok(EmptyTag.(name := TrimSpace(s)))
  {
    ParsedOneElement(s);
    SplitAbsent(s, "$coma");
    assert Unescape(s) == s;
    SplitAbsent(s, "=");
  }

  /** A later element for the same key overrides an earlier one. */
  lemma ParsedLaterWins(t: Tag, first: string, second: string)
    requires ApplyElement(t, first).Ok?
    ensures ApplyElements(t, [first, second]) == ApplyElement(ApplyElement(t, first).value, second)
  {
    assert [first, second][1..] == [second];
    ApplyElementsSingle(ApplyElement(t, first).value, second);
  }

  /** `-` ignores the field and nothing else. */
  lemma ParsedIgnore()
    ensures Parsed("-") == Ok(EmptyTag.(ignore := true))
  {
  }

  /** Splits `key=value` when the value holds no `=`. */
  lemma SplitPair(key: string, value: string)
    requires '=' !in key && '=' !in value
    ensures Split(key + "=" + value, "=") == [key, value]
  {
    SplitOnce(key, '=', value);
  }

  /** A single `key=value` element sets the setting the key names. */
  lemma ParsedKeyValue(key: string, value: string)
    requires key + "=" + value != "-"
    requires ',' !in key && '=' !in key && '$' !in key
    requires ',' !in value && '=' !in value && '$' !in value
    ensures Parsed(key + "=" + value) == ApplyKey(EmptyTag, ToLower(TrimSpace(key)), value)
  {
    var s := key + "=" + value;
    assert ',' !in s && '$' !in s;
    ParsedOneElement(s);
    SplitAbsent(s, "$coma");
    assert Unescape(s) == s;
    SplitPair(key, value);
  }

  /** Unescaping `key=$coma` gives `key=,`. */
  lemma UnescapeComma(key: string)
    requires '$' !in key
    ensures Unescape(key + "=$coma") == key + "=" + ","
  {
    var s := key + "=$coma";
    var k := |key| + 1;
    assert |s| == k + 5;
    assert s[..k] == key + "=";
    assert OccursAt(s, "$coma", k);
    FirstOccurrence(s, "$coma", k);
    assert ReplaceFrom(s, "$coma", ",", k + 5) == [];
  }

  /** `$coma` in a value stands for a comma: `key=$coma` sets the key to `,`. */
  lemma ParsedEscapedComma(key: string)
    requires ',' !in key && '=' !in key && '$' !in key
    ensures Parsed(key + "=$coma") == ApplyKey(EmptyTag, ToLower(TrimSpace(key)), ",")
  {
    var s := key + "=$coma";
    UnescapeComma(key);
    assert ',' !in s && s != "-" by {
      assert s == key + "=" + "$coma";
    }
    ParsedOneElement(s);
    SplitPair(key, ",");
  }
}
