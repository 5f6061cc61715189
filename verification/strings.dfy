/**
 * String primitives the source takes from its host languages: Python's
 * `str.find`, `str.replace`, `str.count`, `startswith`/`endswith` and `in`,
 * Rust's `contains` and `trim`, JavaScript's `trim`, and lower-casing.
 * Strings are `seq<char>` throughout.
 */
module Strings {

  predicate StartsWith(s: string, p: string) {
    |p| <= |s| && s[..|p|] == p
  }

  predicate EndsWith(s: string, p: string) {
    |p| <= |s| && s[|s| - |p|..] == p
  }

  /** `pat` occurs in `s` starting at index `i`. */
  predicate OccursAt(s: string, pat: string, i: int) {
    0 <= i && i + |pat| <= |s| && s[i..i + |pat|] == pat
  }

  /** Substring test: Python's `pat in s`, Rust's `s.contains(pat)`. */
  predicate Contains(s: string, pat: string) {
    exists i | 0 <= i <= |s| :: OccursAt(s, pat, i)
  }

  /** The lowest index at or after `i` where `pat` occurs in `s`, or -1. */
  function FindFrom(s: string, pat: string, i: nat): (r: int)
    ensures r == -1 || (i <= r && OccursAt(s, pat, r))
    ensures r == -1 ==> forall j :: i <= j ==> !OccursAt(s, pat, j)
    ensures forall j :: i <= j < r ==> !OccursAt(s, pat, j)
    decreases |s| - i
  {
    if i + |pat| > |s| then -1
    else if OccursAt(s, pat, i) then i
    else FindFrom(s, pat, i + 1)
  }

  /** Python's `s.find(pat)`: the lowest index where `pat` occurs, or -1. */
  function Find(s: string, pat: string): (r: int)
    ensures r == -1 || OccursAt(s, pat, r)
    ensures r == -1 <==> !Contains(s, pat)
    ensures forall j :: 0 <= j < r ==> !OccursAt(s, pat, j)
  {
    FindFrom(s, pat, 0)
  }

  /** A one-character pattern occurs exactly where that character stands. */
  lemma ContainsChar(s: string, c: char)
    ensures Contains(s, [c]) <==> c in s
    ensures forall i :: 0 <= i < |s| ==> (OccursAt(s, [c], i) <==> s[i] == c)
  {
    forall i | 0 <= i < |s|
      ensures OccursAt(s, [c], i) <==> s[i] == c
    {
      assert s[i..i + 1] == [s[i]];
    }
    if c in s {
      var i :| 0 <= i < |s| && s[i] == c;
      assert OccursAt(s, [c], i);
    }
  }

  /** Any occurrence in a prefix of `s` is an occurrence in `s`. */
  lemma OccursInPrefix(s: string, n: nat, pat: string, i: int)
    requires n <= |s|
    requires OccursAt(s[..n], pat, i)
    ensures OccursAt(s, pat, i)
  {
    assert s[..n][i..i + |pat|] == s[i..i + |pat|];
  }

  /** The concatenation of a list of strings, Python's `"".join(ss)`. */
  function Concat(ss: seq<string>): string {
    if |ss| == 0 then [] else ss[0] + Concat(ss[1..])
  }

  lemma ConcatAppend(a: seq<string>, b: seq<string>)
    ensures Concat(a + b) == Concat(a) + Concat(b)
  {
    if |a| > 0 {
      assert (a + b)[1..] == a[1..] + b;
      ConcatAppend(a[1..], b);
    } else {
      assert a + b == b;
    }
  }

  /**
   * Python's `s.replace(pat, rep)` for a non-empty `pat`: occurrences are
   * found left to right and do not overlap.
   */
  function Replace(s: string, pat: string, rep: string): string
    requires |pat| > 0
    decreases |s|
  {
    if |s| == 0 then []
    else if StartsWith(s, pat) then rep + Replace(s[|pat|..], pat, rep)
    else [s[0]] + Replace(s[1..], pat, rep)
  }

  /** Python's `s.count(pat)` for a non-empty `pat`: non-overlapping occurrences. */
  function Count(s: string, pat: string): nat
    requires |pat| > 0
    decreases |s|
  {
    if |s| == 0 then 0
    else if StartsWith(s, pat) then 1 + Count(s[|pat|..], pat)
    else Count(s[1..], pat)
  }

  /** Replacing a single character by a single character keeps the length and
      changes exactly the positions holding that character. */
  lemma ReplaceCharPointwise(s: string, a: char, b: char)
    ensures |Replace(s, [a], [b])| == |s|
    ensures forall i :: 0 <= i < |s| ==>
      Replace(s, [a], [b])[i] == (if s[i] == a then b else s[i])
    decreases |s|
  {
    if |s| > 0 {
      ReplaceCharPointwise(s[1..], a, b);
    }
  }

  /** ASCII lower-casing of one character. */
  function LowerChar(c: char): (r: char)
    ensures 'A' <= c <= 'Z' ==> 'a' <= r <= 'z'
    ensures !('A' <= c <= 'Z') ==> r == c
    ensures !('A' <= r <= 'Z')
  {
    if 'A' <= c <= 'Z' then (c as int + 32) as char else c
  }

  /** Lower-casing of a string (Python `lower`, Rust `to_lowercase`, JS `toLowerCase`). */
  function Lower(s: string): (r: string)
    ensures |r| == |s|
    ensures forall i :: 0 <= i < |s| ==> r[i] == LowerChar(s[i])
  {
    seq(|s|, i requires 0 <= i < |s| => LowerChar(s[i]))
  }

  lemma LowerIdempotent(s: string)
    ensures Lower(Lower(s)) == Lower(s)
  {
  }

  /** Unicode White_Space, the set Rust's `char::is_whitespace` and `str::trim` use. */
  predicate IsRustWhitespace(c: char) {
    ('\t' <= c <= '\r') || c == ' ' || c == '\U{85}' || c == '\U{A0}' || c == '\U{1680}'
    || ('\U{2000}' <= c <= '\U{200A}') || c == '\U{2028}' || c == '\U{2029}'
    || c == '\U{202F}' || c == '\U{205F}' || c == '\U{3000}'
  }

  /** ECMAScript WhiteSpace and LineTerminator, the set `String.prototype.trim` removes. */
  predicate IsJsWhitespace(c: char) {
    c == '\t' || c == '\U{B}' || c == '\U{C}' || c == ' ' || c == '\U{A0}' || c == '\U{FEFF}'
    || c == '\U{1680}' || ('\U{2000}' <= c <= '\U{200A}') || c == '\U{202F}'
    || c == '\U{205F}' || c == '\U{3000}'
    || c == '\n' || c == '\r' || c == '\U{2028}' || c == '\U{2029}'
  }

  /** The first index at or after `i` holding a character `drop` keeps, or `|s|`. */
  function SkipFrom(s: string, drop: char -> bool, i: nat): (k: nat)
    requires i <= |s|
    ensures i <= k <= |s|
    ensures forall j :: i <= j < k ==> drop(s[j])
    ensures k < |s| ==> !drop(s[k])
    decreases |s| - i
  {
    if i == |s| || !drop(s[i]) then i else SkipFrom(s, drop, i + 1)
  }

  /** The end of the longest prefix of `s[..n]` whose last character `drop` keeps. */
  function KeepUpTo(s: string, drop: char -> bool, n: nat): (k: nat)
    requires n <= |s|
    ensures k <= n
    ensures forall j :: k <= j < n ==> drop(s[j])
    ensures k > 0 ==> !drop(s[k - 1])
    decreases n
  {
    if n == 0 || !drop(s[n - 1]) then n else KeepUpTo(s, drop, n - 1)
  }

  /** Drops the leading characters satisfying `drop`. */
  function TrimStartWhere(s: string, drop: char -> bool): (r: string)
    ensures |r| <= |s| && r == s[|s| - |r|..]
    ensures forall i :: 0 <= i < |s| - |r| ==> drop(s[i])
    ensures |r| > 0 ==> !drop(r[0])
  {
    s[SkipFrom(s, drop, 0)..]
  }

  /** Drops the trailing characters satisfying `drop` (Rust `trim_end_matches` with a char predicate). */
  function TrimEndWhere(s: string, drop: char -> bool): (r: string)
    ensures |r| <= |s| && r == s[..|r|]
    ensures forall i :: |r| <= i < |s| ==> drop(s[i])
    ensures |r| > 0 ==> !drop(r[|r| - 1])
  {
    s[..KeepUpTo(s, drop, |s|)]
  }

  /** `r` is `s[i..i + |r|]` and every character outside that slice satisfies `drop`. */
  predicate TrimmedAt(s: string, r: string, i: int, drop: char -> bool) {
    0 <= i && i + |r| <= |s| && r == s[i..i + |r|]
    && (forall k :: 0 <= k < i ==> drop(s[k]))
    && (forall k :: i + |r| <= k < |s| ==> drop(s[k]))
  }

  /** Trimming the end and then the start leaves a slice with only dropped characters around it. */
  lemma TrimEndThenStart(s: string, drop: char -> bool, e: string, r: string)
    requires e == TrimEndWhere(s, drop) && r == TrimStartWhere(e, drop)
    ensures TrimmedAt(s, r, |e| - |r|, drop)
    ensures |r| > 0 ==> !drop(r[0]) && !drop(r[|r| - 1])
  {
    var i := |e| - |r|;
    assert e == s[..|e|] && r == e[i..];
    assert r == s[i..i + |r|];
    forall k | 0 <= k < i ensures drop(s[k]) {
      assert e[k] == s[k];
    }
    assert TrimmedAt(s, r, i, drop);
    if |r| > 0 {
      assert r[|r| - 1] == e[|e| - 1];
    }
  }

  /** Both ends trimmed: a slice of `s` with only dropped characters around it. */
  function TrimWhere(s: string, drop: char -> bool): (r: string)
    ensures exists i :: TrimmedAt(s, r, i, drop)
    ensures |r| > 0 ==> !drop(r[0]) && !drop(r[|r| - 1])
  {
    var e := TrimEndWhere(s, drop);
    var r := TrimStartWhere(e, drop);
    TrimEndThenStart(s, drop, e, r);
    r
  }

  /** Rust's `str::trim`. */
  function RustTrim(s: string): (r: string)
    ensures exists i :: TrimmedAt(s, r, i, IsRustWhitespace)
    ensures |r| <= |s|
    ensures |r| > 0 ==> !IsRustWhitespace(r[0]) && !IsRustWhitespace(r[|r| - 1])
  {
    TrimWhere(s, IsRustWhitespace)
  }

  /** JavaScript's `String.prototype.trim`. */
  function JsTrim(s: string): (r: string)
    ensures exists i :: TrimmedAt(s, r, i, IsJsWhitespace)
    ensures |r| <= |s|
    ensures |r| > 0 ==> !IsJsWhitespace(r[0]) && !IsJsWhitespace(r[|r| - 1])
  {
    TrimWhere(s, IsJsWhitespace)
  }

  /** No string occurs twice. */
  predicate Distinct(s: seq<string>) {
    forall i, j :: 0 <= i < j < |s| ==> s[i] != s[j]
  }
}
