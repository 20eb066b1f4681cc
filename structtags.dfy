/**
 * Go's struct tag convention, as reflect.StructTag.Get reads it: a
 * space-separated list of `key:"quoted value"` pairs. Scanning stops at
 * the first malformed pair, so a key after it is not found.
 */
module StructTags {
  import opened Wrappers

  /** A character that may appear in a key: printable, not a space, colon or quote. */
  predicate KeyChar(c: char) {
    c > ' ' && c != ':' && c != '"' && c != '\U{007F}'
  }

  /** Drops leading spaces (only ' ', as reflect does). */
  function SkipSpaces(s: string): (r: string)
    ensures |r| <= |s| && r == s[|s| - |r|..]
    ensures r == [] || r[0] != ' '
  {
    if s != [] && s[0] == ' ' then SkipSpaces(s[1..]) else s
  }

  /** The length of the run of key characters at the start of `s`. */
  function KeyLength(s: string): (r: nat)
    ensures r <= |s|
    ensures forall i :: 0 <= i < r ==> KeyChar(s[i])
    ensures r < |s| ==> !KeyChar(s[r])
  {
    if s != [] && KeyChar(s[0]) then 1 + KeyLength(s[1..]) else 0
  }

  /** The position of the closing quote of the quoted string opening `s`, skipping escaped characters; |s| or more when unterminated. */
  function QuoteEnd(s: string, i: nat): (r: nat)
    requires 1 <= i
    ensures i <= r
    ensures r < |s| ==> s[r] == '"'
    decreases |s| - i
  {
    if i >= |s| then i
    else if s[i] == '"' then i
    else if s[i] == '\\' then QuoteEnd(s, i + 2)
    else QuoteEnd(s, i + 1)
  }

  /** The character an escape sequence `\c` stands for, when it is one the model knows. */
  function EscapedChar(c: char): Option<char> {
    if c == '"' then Some('"')
    else if c == '\\' then Some('\\')
    else if c == '\'' then Some('\'')
    else if c == 'n' then Some('\n')
    else if c == 't' then Some('\t')
    else if c == 'r' then Some('\r')
    else None
  }

  /** The body of a double-quoted Go string literal, unescaped; None when it is malformed. */
  function UnquoteBody(body: string): (r: Option<string>)
    ensures r.Some? ==> |r.value| <= |body|
    decreases |body|
  {
    if body == [] then Some([])
    else if body[0] == '"' || body[0] == '\n' then None
    else if body[0] != '\\' then
      match UnquoteBody(body[1..])
      case Some(rest) => Some([body[0]] + rest)
      case None => None
    else if |body| < 2 then None
    else
      match EscapedChar(body[1])
      case None => None
      case Some(c) =>
        match UnquoteBody(body[2..])
        case Some(rest) => Some([c] + rest)
        case None => None
  }

  /** strconv.Unquote on a double-quoted literal. */
  function Unquote(q: string): Option<string> {
    if |q| < 2 || q[0] != '"' || q[|q| - 1] != '"' then None else UnquoteBody(q[1..|q| - 1])
  }

  /** reflect.StructTag.Lookup: the value of the first pair named `key`, if the tag is well formed up to it. */
  function Lookup(tag: string, key: string): Option<string>
    decreases |tag|
  {
    var t := SkipSpaces(tag);
    var i := KeyLength(t);
    if t == [] || i == 0 || i + 1 >= |t| || t[i] != ':' || t[i + 1] != '"' then None
    else
      var name := t[..i];
      var rest := t[i + 1..];
      var j := QuoteEnd(rest, 1);
      if j >= |rest| then None
      else if key == name then Unquote(rest[..j + 1])
      else Lookup(rest[j + 1..], key)
  }

  /** reflect.StructTag.Get: the value under `key`, or "" when there is none. */
  function Get(tag: string, key: string): string {
    Lookup(tag, key).GetOr("")
  }

  /** A body without quotes, backslashes or newlines is its own value. */
  lemma {:induction false} UnquotePlain(body: string)
    requires forall i :: 0 <= i < |body| ==> body[i] != '"' && body[i] != '\\' && body[i] != '\n'
    ensures UnquoteBody(body) == Some(body)
    decreases |body|
  {
    if body != [] {
      UnquotePlain(body[1..]);
      assert [body[0]] + body[1..] == body;
    }
  }

  lemma {:induction false} QuoteEndPlain(s: string, i: nat, n: nat)
    requires 1 <= i <= n < |s| && s[n] == '"'
    requires forall k :: i <= k < n ==> s[k] != '"' && s[k] != '\\'
    ensures QuoteEnd(s, i) == n
    decreases n - i
  {
    if i < n {
      QuoteEndPlain(s, i + 1, n);
    }
  }

  /** A tag holding just `key:"value"` yields the value under that key. */
  lemma GetSingle(key: string, value: string)
    requires key != [] && forall i :: 0 <= i < |key| ==> KeyChar(key[i])
    requires forall i :: 0 <= i < |value| ==> value[i] != '"' && value[i] != '\\' && value[i] != '\n'
    ensures Get(key + ":\"" + value + "\"", key) == value
  {
    var tag := key + ":\"" + value + "\"";
    assert tag[0] == key[0] && key[0] != ' ';
    assert SkipSpaces(tag) == tag;
    assert KeyLength(tag) == |key| by {
      KeyLengthPrefix(tag, key);
    }
    var rest := tag[|key| + 1..];
    assert rest == "\"" + value + "\"";
    QuoteEndPlain(rest, 1, |value| + 1);
    assert tag[..|key|] == key;
    assert rest[..|value| + 2] == rest;
    assert rest[1..|rest| - 1] == value;
    UnquotePlain(value);
  }

  lemma {:induction false} KeyLengthPrefix(s: string, key: string)
    requires |key| < |s| && s[..|key|] == key && !KeyChar(s[|key|])
    requires forall i :: 0 <= i < |key| ==> KeyChar(key[i])
    ensures KeyLength(s) == |key|
    decreases |key|
  {
    if key != [] {
      assert s[1..][..|key| - 1] == key[1..];
      KeyLengthPrefix(s[1..], key[1..]);
    }
  }
}
