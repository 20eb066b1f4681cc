/**
 * The parts of Go's `strings` and `strconv` packages the differ relies on,
 * with Go's own edge cases: `Split` of the empty string on a non-empty
 * separator yields one empty piece, an empty separator explodes a string
 * into its characters, and `Atoi` accepts an optional sign and refuses
 * values outside the 64-bit range.
 */
module Text {
  import opened Wrappers

  // ---------------------------------------------------------------------
  // Searching

  /** `sub` occurs in `s` starting at position `i`. */
  predicate OccursAt(s: string, sub: string, i: int) {
    0 <= i && i + |sub| <= |s| && s[i..i + |sub|] == sub
  }

  /** Go's strings.Index restricted to positions from `from` on. */
  function IndexFrom(s: string, sub: string, from: nat): (r: int)
    requires from <= |s| + 1
    ensures r == -1 || (from <= r <= |s| - |sub| && OccursAt(s, sub, r))
    decreases |s| + 1 - from
  {
    if from + |sub| > |s| then -1
    else if s[from..from + |sub|] == sub then from
    else IndexFrom(s, sub, from + 1)
  }

  /** IndexFrom finds the first occurrence from `from` on, and -1 only when there is none. */
  lemma {:induction false} IndexFromFirst(s: string, sub: string, from: nat)
    requires from <= |s| + 1
    ensures IndexFrom(s, sub, from) == -1 ==> forall j :: from <= j <= |s| ==> !OccursAt(s, sub, j)
    ensures IndexFrom(s, sub, from) >= 0 ==> forall j :: from <= j < IndexFrom(s, sub, from) ==> !OccursAt(s, sub, j)
    decreases |s| + 1 - from
  {
    if from + |sub| <= |s| && !OccursAt(s, sub, from) {
      IndexFromFirst(s, sub, from + 1);
    }
  }

  /** Go's strings.Index: the first position of `sub` in `s`, or -1. */
  function IndexOf(s: string, sub: string): (r: int)
    ensures r == -1 <==> forall j :: 0 <= j <= |s| ==> !OccursAt(s, sub, j)
    ensures r >= 0 ==> OccursAt(s, sub, r) && forall j :: 0 <= j < r ==> !OccursAt(s, sub, j)
  {
    IndexFromFirst(s, sub, 0);
    IndexFrom(s, sub, 0)
  }

  predicate Contains(s: string, sub: string) {
    IndexOf(s, sub) >= 0
  }

  // ---------------------------------------------------------------------
  // Split and Join

  /** An empty separator splits a string into its characters. */
  function Explode(s: string): (r: seq<string>)
    ensures |r| == |s|
    ensures forall i :: 0 <= i < |r| ==> r[i] == [s[i]]
  {
    if s == [] then [] else [[s[0]]] + Explode(s[1..])
  }

  /** Go's strings.Split. */
  function Split(s: string, sep: string): (r: seq<string>)
    ensures sep != [] ==> |r| >= 1
    ensures sep == [] ==> r == Explode(s)
  {
    if sep == [] then Explode(s) else SplitFrom(s, sep, 0)
  }

  /** The pieces of `s[from..]`: the text up to each occurrence of `sep`, scanning left to right, then the rest. */
  function SplitFrom(s: string, sep: string, from: nat): (r: seq<string>)
    requires sep != [] && from <= |s|
    ensures |r| >= 1
    decreases |s| - from
  {
    var m := IndexFrom(s, sep, from);
    if m < 0 then [s[from..]] else [s[from..m]] + SplitFrom(s, sep, m + |sep|)
  }

  /** One cut of SplitFrom, at the occurrence IndexFrom finds or at the end. */
  lemma SplitStep(s: string, sep: string, from: nat)
    requires sep != [] && from <= |s|
    ensures IndexFrom(s, sep, from) < 0 ==> SplitFrom(s, sep, from) == [s[from..]]
    ensures IndexFrom(s, sep, from) >= 0 ==>
      SplitFrom(s, sep, from) == [s[from..IndexFrom(s, sep, from)]] + SplitFrom(s, sep, IndexFrom(s, sep, from) + |sep|)
  {
  }

  /** Go's strings.Join. */
  function Join(parts: seq<string>, sep: string): string {
    if |parts| == 0 then []
    else if |parts| == 1 then parts[0]
    else parts[0] + sep + Join(parts[1..], sep)
  }

  /** Joining the pieces back with the separator restores the string. */
  lemma JoinSplit(s: string, sep: string)
    requires sep != []
    ensures Join(Split(s, sep), sep) == s
  {
    JoinSplitFrom(s, sep, 0);
  }

  lemma {:induction false} JoinSplitFrom(s: string, sep: string, from: nat)
    requires sep != [] && from <= |s|
    ensures Join(SplitFrom(s, sep, from), sep) == s[from..]
    decreases |s| - from
  {
    SplitStep(s, sep, from);
    var m := IndexFrom(s, sep, from);
    if m >= 0 {
      JoinSplitFrom(s, sep, m + |sep|);
      JoinCons(s[from..m], SplitFrom(s, sep, m + |sep|), sep);
      CutAround(s, from, m, sep);
    }
  }

  /** Cutting out one occurrence of `sep` at `m` splits `s[from..]` around it. */
  lemma CutAround(s: string, from: nat, m: nat, sep: string)
    requires from <= m && m + |sep| <= |s| && s[m..m + |sep|] == sep
    ensures s[from..] == s[from..m] + sep + s[m + |sep|..]
  {
    assert s[from..] == s[from..m] + s[m..m + |sep|] + s[m + |sep|..];
  }

  lemma JoinCons(head: string, tail: seq<string>, sep: string)
    requires |tail| >= 1
    ensures Join([head] + tail, sep) == head + sep + Join(tail, sep)
  {
    assert ([head] + tail)[1..] == tail;
  }

  /** No piece produced by Split holds the separator. */
  lemma SplitPiecesFree(s: string, sep: string)
    requires sep != []
    ensures forall p :: p in Split(s, sep) ==> !Contains(p, sep)
  {
    SplitFromPiecesFree(s, sep, 0);
  }

  lemma SliceOfSlice(s: string, a: nat, b: nat, c: nat, d: nat)
    requires a <= b <= |s| && c <= d <= b - a
    ensures s[a..b][c..d] == s[a + c..a + d]
  {
    forall k | 0 <= k < d - c
      ensures s[a..b][c..d][k] == s[a + c..a + d][k]
    {
    }
  }

  /** The text between `from` and the next occurrence of `sep` (or the end) holds no occurrence of `sep`. */
  lemma GapFree(s: string, sep: string, from: nat)
    requires sep != [] && from <= |s|
    ensures IndexFrom(s, sep, from) < 0 ==> !Contains(s[from..], sep)
    ensures IndexFrom(s, sep, from) >= 0 ==> !Contains(s[from..IndexFrom(s, sep, from)], sep)
  {
    IndexFromFirst(s, sep, from);
    var m := IndexFrom(s, sep, from);
    var end := if m < 0 then |s| else m;
    var head := s[from..end];
    forall j | 0 <= j <= |head|
      ensures !OccursAt(head, sep, j)
    {
      if j + |sep| <= |head| {
        assert !OccursAt(s, sep, from + j);
        SliceOfSlice(s, from, end, j, j + |sep|);
      }
    }
    assert s[from..] == s[from..|s|];
  }

  lemma {:induction false} SplitFromPiecesFree(s: string, sep: string, from: nat)
    requires sep != [] && from <= |s|
    ensures forall p :: p in SplitFrom(s, sep, from) ==> !Contains(p, sep)
    decreases |s| - from
  {
    GapFree(s, sep, from);
    SplitStep(s, sep, from);
    var m := IndexFrom(s, sep, from);
    if m >= 0 {
      SplitFromPiecesFree(s, sep, m + |sep|);
    }
  }

  /** Split never lengthens a piece beyond its input; with two or more pieces each is strictly shorter. */
  lemma SplitPieceLength(s: string, sep: string)
    ensures forall p :: p in Split(s, sep) ==> |p| <= |s|
    ensures |Split(s, sep)| >= 2 ==> forall p :: p in Split(s, sep) ==> |p| < |s|
  {
    if sep == [] {
      forall p | p in Split(s, sep)
        ensures |p| == 1
      {
        var i :| 0 <= i < |Explode(s)| && Explode(s)[i] == p;
      }
    } else {
      SplitFromPieceLength(s, sep, 0);
    }
  }

  lemma {:induction false} SplitFromPieceLength(s: string, sep: string, from: nat)
    requires sep != [] && from <= |s|
    ensures forall p :: p in SplitFrom(s, sep, from) ==> |p| <= |s| - from
    ensures |SplitFrom(s, sep, from)| >= 2 ==> forall p :: p in SplitFrom(s, sep, from) ==> |p| < |s| - from
    decreases |s| - from
  {
    SplitStep(s, sep, from);
    var m := IndexFrom(s, sep, from);
    if m >= 0 {
      SplitFromPieceLength(s, sep, m + |sep|);
    }
  }

  // ---------------------------------------------------------------------
  // Replacement

  /** Go's strings.ReplaceAll with an empty `pat`: `repl` goes before every character and at the end. */
  function Interleave(s: string, repl: string): (r: string)
    ensures repl == [] ==> r == s
  {
    if s == [] then repl else repl + [s[0]] + Interleave(s[1..], repl)
  }

  /** Go's strings.ReplaceAll: non-overlapping occurrences, left to right. */
  function ReplaceAll(s: string, pat: string, repl: string): (r: string) {
    if pat == [] then Interleave(s, repl) else ReplaceFrom(s, pat, repl, 0)
  }

  /** ReplaceAll on `s[from..]`. */
  function ReplaceFrom(s: string, pat: string, repl: string, from: nat): string
    requires pat != [] && from <= |s|
    decreases |s| - from
  {
    var m := IndexFrom(s, pat, from);
    if m < 0 then s[from..] else s[from..m] + repl + ReplaceFrom(s, pat, repl, m + |pat|)
  }

  /** One cut of ReplaceFrom, at the occurrence IndexFrom finds or at the end. */
  lemma ReplaceStep(s: string, pat: string, repl: string, from: nat)
    requires pat != [] && from <= |s|
    ensures IndexFrom(s, pat, from) < 0 ==> ReplaceFrom(s, pat, repl, from) == s[from..]
    ensures IndexFrom(s, pat, from) >= 0 ==>
      ReplaceFrom(s, pat, repl, from) == s[from..IndexFrom(s, pat, from)] + repl + ReplaceFrom(s, pat, repl, IndexFrom(s, pat, from) + |pat|)
  {
  }

  /** ReplaceAll is Split followed by Join with the replacement. */
  lemma ReplaceAllIsJoinSplit(s: string, pat: string, repl: string)
    requires pat != []
    ensures ReplaceAll(s, pat, repl) == Join(Split(s, pat), repl)
  {
    ReplaceFromIsJoinSplit(s, pat, repl, 0);
  }

  lemma {:induction false} ReplaceFromIsJoinSplit(s: string, pat: string, repl: string, from: nat)
    requires pat != [] && from <= |s|
    ensures ReplaceFrom(s, pat, repl, from) == Join(SplitFrom(s, pat, from), repl)
    decreases |s| - from
  {
    var m := IndexFrom(s, pat, from);
    if m >= 0 {
      var head := s[from..m];
      var next := m + |pat|;
      ReplaceFromIsJoinSplit(s, pat, repl, next);
      JoinCons(head, SplitFrom(s, pat, next), repl);
      SplitStep(s, pat, from);
      ReplaceStep(s, pat, repl, from);
    }
  }

  /** Deleting occurrences never lengthens a string. */
  lemma RemoveShortens(s: string, pat: string)
    ensures |ReplaceAll(s, pat, [])| <= |s|
  {
    if pat != [] {
      RemoveFromShortens(s, pat, 0);
    }
  }

  lemma {:induction false} RemoveFromShortens(s: string, pat: string, from: nat)
    requires pat != [] && from <= |s|
    ensures |ReplaceFrom(s, pat, [], from)| <= |s| - from
    decreases |s| - from
  {
    ReplaceStep(s, pat, [], from);
    var m := IndexFrom(s, pat, from);
    if m >= 0 {
      RemoveFromShortens(s, pat, m + |pat|);
    }
  }

  /** Deleting a one-character string removes every occurrence of that character. */
  lemma RemoveCharComplete(s: string, c: char)
    ensures c !in ReplaceAll(s, [c], [])
  {
    RemoveCharFromComplete(s, c, 0);
  }

  lemma {:induction false} RemoveCharFromComplete(s: string, c: char, from: nat)
    requires from <= |s|
    ensures c !in ReplaceFrom(s, [c], [], from)
    decreases |s| - from
  {
    IndexFromFirst(s, [c], from);
    ReplaceStep(s, [c], [], from);
    var m := IndexFrom(s, [c], from);
    var end := if m < 0 then |s| else m;
    forall j | from <= j < end
      ensures s[j] != c
    {
      assert !OccursAt(s, [c], j);
      assert s[j..j + 1] == [s[j]];
    }
    assert c !in s[from..end];
    if m >= 0 {
      RemoveCharFromComplete(s, c, m + 1);
    }
  }

  /** Deleting a pattern keeps only characters of the input. */
  lemma RemoveKeeps(s: string, pat: string)
    ensures forall i :: 0 <= i < |ReplaceAll(s, pat, [])| ==> ReplaceAll(s, pat, [])[i] in s
  {
    if pat != [] {
      RemoveFromKeeps(s, pat, 0);
      var r := ReplaceAll(s, pat, []);
      forall i | 0 <= i < |r|
        ensures r[i] in s
      {
        assert r[i] in r;
      }
    }
  }

  lemma {:induction false} RemoveFromKeeps(s: string, pat: string, from: nat)
    requires pat != [] && from <= |s|
    ensures forall ch :: ch in ReplaceFrom(s, pat, [], from) ==> ch in s
    decreases |s| - from
  {
    ReplaceStep(s, pat, [], from);
    var m := IndexFrom(s, pat, from);
    if m >= 0 {
      RemoveFromKeeps(s, pat, m + |pat|);
      SliceIn(s, from, m);
    } else {
      SliceIn(s, from, |s|);
      assert s[from..] == s[from..|s|];
    }
  }

  /** Every character of a slice is a character of the string. */
  lemma SliceIn(s: string, a: nat, b: nat)
    requires a <= b <= |s|
    ensures forall ch :: ch in s[a..b] ==> ch in s
  {
    forall ch | ch in s[a..b]
      ensures ch in s
    {
      var i :| 0 <= i < b - a && s[a..b][i] == ch;
      assert s[a + i] == ch;
    }
  }

  /** A pattern whose first character is not in `s[from..]` does not occur from `from` on. */
  lemma FirstCharAbsentFrom(s: string, sub: string, from: nat)
    requires sub != [] && from <= |s| && sub[0] !in s[from..]
    ensures IndexFrom(s, sub, from) == -1
  {
  }

  /** A pattern whose first character is not in `s` does not occur in it. */
  lemma FirstCharAbsent(s: string, sub: string)
    requires sub != [] && sub[0] !in s
    ensures IndexOf(s, sub) == -1
  {
    assert s[0..] == s;
    FirstCharAbsentFrom(s, sub, 0);
  }

  /** The first occurrence of `sub` is at `k` when its first character does not appear before `k`. */
  lemma FirstOccurrence(s: string, sub: string, k: nat)
    requires sub != [] && OccursAt(s, sub, k) && sub[0] !in s[..k]
    ensures IndexOf(s, sub) == k
  {
    forall j | 0 <= j < k
      ensures !OccursAt(s, sub, j)
    {
      assert s[j] == s[..k][j];
      if j + |sub| <= |s| {
        var w := s[j..j + |sub|];
        assert w[0] == s[j] != sub[0];
      }
    }
  }

  /** Splitting `a + [c] + b` on `c`, when neither side holds `c`, gives the two sides. */
  lemma SplitOnce(a: string, c: char, b: string)
    requires c !in a && c !in b
    ensures Split(a + [c] + b, [c]) == [a, b]
  {
    var s := a + [c] + b;
    assert s[..|a|] == a && s[0..|a|] == a;
    assert s[|a|..|a| + 1] == [c];
    FirstOccurrence(s, [c], |a|);
    assert s[|a| + 1..] == b;
    FirstCharAbsentFrom(s, [c], |a| + 1);
    assert SplitFrom(s, [c], |a| + 1) == [b];
    assert SplitFrom(s, [c], 0) == [a] + [b];
  }

  /** Splitting on a separator that does not occur gives the whole string. */
  lemma SplitAbsent(s: string, sep: string)
    requires sep != [] && sep[0] !in s
    ensures Split(s, sep) == [s]
    ensures forall repl :: ReplaceAll(s, sep, repl) == s
  {
    FirstCharAbsent(s, sep);
    assert s[0..] == s;
  }

  // ---------------------------------------------------------------------
  // Space trimming and case

  /** Go's unicode.IsSpace. */
  predicate IsSpace(c: char) {
    c == ' ' || c == '\t' || c == '\n' || c == '\r' || c == '\U{000B}' || c == '\U{000C}'
    || c == '\U{0085}' || c == '\U{00A0}' || c == '\U{1680}'
    || ('\U{2000}' <= c <= '\U{200A}') || c == '\U{2028}' || c == '\U{2029}'
    || c == '\U{202F}' || c == '\U{205F}' || c == '\U{3000}'
  }

  function TrimLeft(s: string): (r: string)
    ensures |r| <= |s| && r == s[|s| - |r|..]
    ensures r == [] || !IsSpace(r[0])
  {
    if s != [] && IsSpace(s[0]) then TrimLeft(s[1..]) else s
  }

  function TrimRight(s: string): (r: string)
    ensures |r| <= |s| && r == s[..|r|]
    ensures r == [] || !IsSpace(r[|r| - 1])
  {
    if s != [] && IsSpace(s[|s| - 1]) then TrimRight(s[..|s| - 1]) else s
  }

  /** Go's strings.TrimSpace. */
  function TrimSpace(s: string): (r: string)
    ensures |r| <= |s|
    ensures r == [] || (!IsSpace(r[0]) && !IsSpace(r[|r| - 1]))
    ensures forall c :: c in r ==> c in s
  {
    var l := TrimLeft(s);
    var r := TrimRight(l);
    r
  }

  lemma TrimSpaceIdempotent(s: string)
    ensures TrimSpace(TrimSpace(s)) == TrimSpace(s)
  {
  }

  /** ASCII case mapping: Unicode letters outside ASCII are left as they are. */
  function LowerChar(c: char): char {
    if 'A' <= c <= 'Z' then (c as int + 32) as char else c
  }

  /** Go's strings.ToLower over the ASCII letters. */
  function ToLower(s: string): (r: string)
    ensures |r| == |s|
    ensures forall i :: 0 <= i < |s| ==> r[i] == LowerChar(s[i])
  {
    if s == [] then [] else [LowerChar(s[0])] + ToLower(s[1..])
  }

  lemma ToLowerIdempotent(s: string)
    ensures ToLower(ToLower(s)) == ToLower(s)
  {
  }

  // ---------------------------------------------------------------------
  // Numbers

  const MinInt64: int := -0x8000_0000_0000_0000
  const MaxInt64: int := 0x7FFF_FFFF_FFFF_FFFF

  predicate IsDigit(c: char) {
    '0' <= c <= '9'
  }

  /** The value of a run of decimal digits. */
  function DigitsValue(s: string): (r: nat)
    requires forall i :: 0 <= i < |s| ==> IsDigit(s[i])
  {
    if s == [] then 0
    else
      assert IsDigit(s[|s| - 1]);
      DigitsValue(s[..|s| - 1]) * 10 + (s[|s| - 1] as int - '0' as int)
  }

  /** The decimal digits of a natural number, without leading zeros. */
  function Digits(n: nat): (r: string)
    ensures |r| >= 1
    ensures forall i :: 0 <= i < |r| ==> IsDigit(r[i])
    ensures |r| > 1 ==> r[0] != '0'
  {
    if n < 10 then [('0' as int + n) as char]
    else Digits(n / 10) + [('0' as int + n % 10) as char]
  }

  /** Go's strconv.Itoa. */
  function Itoa(n: int): (r: string)
    ensures |r| >= 1
  {
    if n < 0 then "-" + Digits(-n) else Digits(n)
  }

  /** The digits after an optional leading sign. */
  function Unsigned(s: string): string {
    if |s| > 0 && (s[0] == '-' || s[0] == '+') then s[1..] else s
  }

  /** The syntax strconv.Atoi accepts: an optional sign, then one or more decimal digits. */
  predicate DecimalSyntax(s: string) {
    var body := Unsigned(s);
    body != [] && forall i :: 0 <= i < |body| ==> IsDigit(body[i])
  }

  /** Go's strconv.Atoi on a 64-bit platform: well-formed decimals within the 64-bit range. */
  function Atoi(s: string): (r: Option<int>)
    ensures r.Some? ==> DecimalSyntax(s) && MinInt64 <= r.value <= MaxInt64
  {
    if !DecimalSyntax(s) then None
    else
      var body := Unsigned(s);
      var v: int := if |s| > 0 && s[0] == '-' then -(DigitsValue(body) as int) else DigitsValue(body);
      if v < MinInt64 || v > MaxInt64 then None else Some(v)
  }

  /** The text of the error strconv.Atoi returns for `s`. */
  function AtoiError(s: string): string {
    "strconv.Atoi: parsing \"" + s + "\": " + (if DecimalSyntax(s) then "value out of range" else "invalid syntax")
  }

  lemma {:induction false} DigitsRoundTrip(n: nat)
    ensures DigitsValue(Digits(n)) == n
  {
    if n >= 10 {
      DigitsRoundTrip(n / 10);
      var d := Digits(n);
      assert d[..|d| - 1] == Digits(n / 10);
    }
  }

  /** Atoi reads back what Itoa writes, for every 64-bit value. */
  lemma AtoiItoa(n: int)
    requires MinInt64 <= n <= MaxInt64
    ensures Atoi(Itoa(n)) == Some(n)
  {
    var s := Itoa(n);
    var d := if n < 0 then Digits(-n) else Digits(n);
    DigitsRoundTrip(if n < 0 then -n else n);
    assert s[0] != '+';
    var body := Unsigned(s);
    assert body == d by {
      if n < 0 {
        assert s == "-" + d;
        assert s[1..] == d;
      } else {
        assert d[0] != '-';
      }
    }
    assert forall i :: 0 <= i < |body| ==> IsDigit(body[i]);
  }

  /** Go's strconv.ParseBool. */
  function ParseBool(s: string): (r: Option<bool>)
    ensures r == Some(true) <==> s in {"1", "t", "T", "TRUE", "true", "True"}
    ensures r == Some(false) <==> s in {"0", "f", "F", "FALSE", "false", "False"}
  {
    if s in {"1", "t", "T", "TRUE", "true", "True"} then Some(true)
    else if s in {"0", "f", "F", "FALSE", "false", "False"} then Some(false)
    else None
  }

  // ---------------------------------------------------------------------
  // Splitting on several separators

  /** The earliest position where one of the non-empty `seps` occurs at or after `from`, with that separator's length. */
  function FirstOfAny(s: string, seps: seq<string>, from: nat): (r: Option<(nat, nat)>)
    requires from <= |s| + 1
    ensures r.Some? ==> from <= r.value.0 && 0 < r.value.1 && r.value.0 + r.value.1 <= |s|
    ensures r.Some? ==> FirstSepAt(s, seps, r.value.0, 0) < |seps| && |seps[FirstSepAt(s, seps, r.value.0, 0)]| == r.value.1
    decreases |s| + 1 - from
  {
    if from >= |s| then None
    else
      var k := FirstSepAt(s, seps, from, 0);
      if k < |seps| then Some((from, |seps[k]|)) else FirstOfAny(s, seps, from + 1)
  }

  /** The first separator in list order that occurs, non-empty, at position `at`. */
  function FirstSepAt(s: string, seps: seq<string>, at: nat, k: nat): (r: nat)
    requires k <= |seps|
    ensures k <= r <= |seps|
    ensures r < |seps| ==> seps[r] != [] && OccursAt(s, seps[r], at)
    decreases |seps| - k
  {
    if k == |seps| then k
    else if seps[k] != [] && OccursAt(s, seps[k], at) then k
    else FirstSepAt(s, seps, at, k + 1)
  }

  /**
   * A multi-separator splitter: cuts `s` at the earliest occurrence of any
   * separator (the first listed wins when several start at the same
   * position) and keeps empty pieces.
   */
  function SplitAny(s: string, seps: seq<string>): (r: seq<string>)
    ensures |r| >= 1
  {
    SplitAnyFrom(s, seps, 0)
  }

  /** SplitAny on `s[from..]`. */
  function SplitAnyFrom(s: string, seps: seq<string>, from: nat): (r: seq<string>)
    requires from <= |s|
    ensures |r| >= 1
    decreases |s| - from
  {
    match FirstOfAny(s, seps, from)
    case None => [s[from..]]
    case Some((m, len)) => [s[from..m]] + SplitAnyFrom(s, seps, m + len)
  }

  /** A piece of SplitAny is never longer than its input. */
  lemma SplitAnyPieceLength(s: string, seps: seq<string>)
    ensures forall p :: p in SplitAny(s, seps) ==> |p| <= |s|
  {
    SplitAnyFromPieceLength(s, seps, 0);
  }

  lemma {:induction false} SplitAnyFromPieceLength(s: string, seps: seq<string>, from: nat)
    requires from <= |s|
    ensures forall p :: p in SplitAnyFrom(s, seps, from) ==> |p| <= |s| - from
    decreases |s| - from
  {
    match FirstOfAny(s, seps, from)
    case None =>
    case Some((m, len)) =>
      SplitAnyFromPieceLength(s, seps, m + len);
  }

  /** With a single separator the splitter agrees with Go's strings.Split. */
  lemma SplitAnySingle(s: string, sep: string)
    requires sep != []
    ensures SplitAny(s, [sep]) == Split(s, sep)
  {
    SplitAnyFromSingle(s, sep, 0);
  }

  lemma {:induction false} SplitAnyFromSingle(s: string, sep: string, from: nat)
    requires sep != [] && from <= |s|
    ensures SplitAnyFrom(s, [sep], from) == SplitFrom(s, sep, from)
    decreases |s| - from
  {
    SplitAnySingleStep(s, sep, from);
    var m := IndexFrom(s, sep, from);
    if m >= 0 {
      SplitAnyFromSingle(s, sep, m + |sep|);
    }
  }

  /** One cut of the single-separator splitter is the cut IndexFrom finds. */
  lemma SplitAnySingleStep(s: string, sep: string, from: nat)
    requires sep != [] && from <= |s|
    ensures IndexFrom(s, sep, from) < 0 ==> SplitAnyFrom(s, [sep], from) == [s[from..]]
    ensures IndexFrom(s, sep, from) >= 0 ==> SplitAnyFrom(s, [sep], from) == [s[from..IndexFrom(s, sep, from)]] + SplitAnyFrom(s, [sep], IndexFrom(s, sep, from) + |sep|)
  {
    FirstOfAnySingle(s, sep, from);
  }

  /** Scanning for the one separator finds what IndexFrom finds. */
  lemma {:induction false} FirstOfAnySingle(s: string, sep: string, from: nat)
    requires sep != [] && from <= |s| + 1
    ensures IndexFrom(s, sep, from) < 0 ==> FirstOfAny(s, [sep], from) == None
    ensures IndexFrom(s, sep, from) >= 0 ==> FirstOfAny(s, [sep], from) == Some((IndexFrom(s, sep, from), |sep|))
    decreases |s| + 1 - from
  {
    if from < |s| && FirstSepAt(s, [sep], from, 0) == 1 {
      assert !OccursAt(s, sep, from);
      FirstOfAnySingle(s, sep, from + 1);
    }
  }
}
