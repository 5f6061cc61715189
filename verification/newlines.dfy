/**
 * Newline canonicalisation (openqr/utils/functions.py `normalize_newlines`):
 * every "\r\n" and every remaining "\n" becomes the single canonical "\r".
 */
module Newlines {
  import opened Strings

  /** The source's two-pass definition: `s.replace("\r\n", "\r").replace("\n", "\r")`. */
  function NormalizeNewlines(s: string): (r: string)
    ensures s == [] ==> r == []
    ensures '\n' !in r
    ensures '\n' !in s ==> r == s
    ensures |r| == |s| - Count(s, "\r\n")
  {
    if |s| == 0 then s
    else
      NormalizeIsCanonical(s);
      CanonHasNoLineFeed(s);
      CanonLength(s);
      CanonFixesLineFeedFree(s);
      Replace(Replace(s, "\r\n", "\r"), "\n", "\r")
  }

  /**
   * An independent one-pass reading of the same rewrite: scanning left to
   * right, a "\r\n" pair or a lone "\n" is emitted as "\r" and every other
   * character is kept.
   */
  function Canon(s: string): string
    decreases |s|
  {
    if |s| == 0 then []
    else if StartsWith(s, "\r\n") then "\r" + Canon(s[2..])
    else if s[0] == '\n' then "\r" + Canon(s[1..])
    else [s[0]] + Canon(s[1..])
  }

  /** The second pass maps "\n" to "\r" position by position. */
  function MapLineFeed(s: string): (r: string)
    ensures |r| == |s|
  {
    seq(|s|, i requires 0 <= i < |s| => if s[i] == '\n' then '\r' else s[i])
  }

  /** The `"\n"` pass is `MapLineFeed`. */
  lemma LineFeedPassIsMap(s: string)
    ensures Replace(s, "\n", "\r") == MapLineFeed(s)
  {
    ReplaceCharPointwise(s, '\n', '\r');
  }

  lemma MapLineFeedCons(c: char, t: string)
    ensures MapLineFeed([c] + t) == [if c == '\n' then '\r' else c] + MapLineFeed(t)
  {
    var u := [c] + t;
    assert forall i :: 1 <= i < |u| ==> u[i] == t[i - 1];
  }

  lemma {:induction false} NormalizeIsCanonical(s: string)
    ensures Replace(Replace(s, "\r\n", "\r"), "\n", "\r") == Canon(s)
    decreases |s|
  {
    var first := Replace(s, "\r\n", "\r");
    LineFeedPassIsMap(first);
    if |s| == 0 {
    } else if StartsWith(s, "\r\n") {
      var tail := Replace(s[2..], "\r\n", "\r");
      NormalizeIsCanonical(s[2..]);
      LineFeedPassIsMap(tail);
      assert first == ['\r'] + tail;
      MapLineFeedCons('\r', tail);
    } else {
      var tail := Replace(s[1..], "\r\n", "\r");
      NormalizeIsCanonical(s[1..]);
      LineFeedPassIsMap(tail);
      assert first == [s[0]] + tail;
      MapLineFeedCons(s[0], tail);
    }
  }

  lemma {:induction false} CanonHasNoLineFeed(s: string)
    ensures '\n' !in Canon(s)
    decreases |s|
  {
    if |s| == 0 {
    } else if StartsWith(s, "\r\n") {
      CanonHasNoLineFeed(s[2..]);
    } else {
      CanonHasNoLineFeed(s[1..]);
    }
  }

  lemma {:induction false} CanonLength(s: string)
    ensures |Canon(s)| == |s| - Count(s, "\r\n")
    decreases |s|
  {
    if |s| == 0 {
    } else if StartsWith(s, "\r\n") {
      CanonLength(s[2..]);
    } else {
      CanonLength(s[1..]);
    }
  }

  lemma {:induction false} CanonFixesLineFeedFree(s: string)
    ensures '\n' !in s ==> Canon(s) == s
    decreases |s|
  {
    if |s| > 0 && '\n' !in s {
      assert !StartsWith(s, "\r\n") by {
        if |s| >= 2 { assert s[1] != '\n'; }
      }
      CanonFixesLineFeedFree(s[1..]);
      assert s == [s[0]] + s[1..];
    }
  }

  /** Normalising twice is the same as normalising once. */
  lemma NormalizeIdempotent(s: string)
    ensures NormalizeNewlines(NormalizeNewlines(s)) == NormalizeNewlines(s)
  {
  }

  /** The output is never longer than the input. */
  lemma NormalizeNeverGrows(s: string)
    ensures |NormalizeNewlines(s)| <= |s|
  {
  }

  /** The two-pass source definition agrees with the one-pass reading. */
  lemma NormalizeAgreesWithCanon(s: string)
    ensures NormalizeNewlines(s) == Canon(s)
  {
    NormalizeIsCanonical(s);
  }
}
