/**
 * String helpers the submit handler uses: `url.split('/').pop()` (the last
 * path segment of a link) and the decimal rendering of `index + 1` inside
 * the `entry-<n>` label.
 */
module Text {

  /** True when the character `c` occurs nowhere in `s`. */
  predicate Excludes(s: string, c: char) {
    forall i :: 0 <= i < |s| ==> s[i] != c
  }

  /**
   * JavaScript `s.split(sep)` for a one-character separator: the pieces
   * between separators, in order. There is always at least one piece, and
   * an empty string splits into `[""]`.
   */
  function Split(s: string, sep: char): (parts: seq<string>)
    ensures |parts| >= 1
    ensures forall k :: 0 <= k < |parts| ==> Excludes(parts[k], sep)
    decreases |s|
  {
    if |s| == 0 then [""]
    else
      var init := Split(s[..|s| - 1], sep);
      var c := s[|s| - 1];
      if c == sep then init + [""]
      else init[..|init| - 1] + [init[|init| - 1] + [c]]
  }

  /** `parts.join(sep)`: the inverse of `Split`. */
  function Join(parts: seq<string>, sep: char): string
    requires |parts| >= 1
    decreases |parts|
  {
    if |parts| == 1 then parts[0]
    else Join(parts[..|parts| - 1], sep) + [sep] + parts[|parts| - 1]
  }

  /** Appending one more piece to a join adds a separator and the piece. */
  lemma JoinSnoc(parts: seq<string>, p: string, sep: char)
    requires |parts| >= 1
    ensures Join(parts + [p], sep) == Join(parts, sep) + [sep] + p
  {
    assert (parts + [p])[..|parts|] == parts;
  }

  /** Extending the last piece by `c` extends the join by `c`. */
  lemma JoinExtendLast(parts: seq<string>, c: char, sep: char)
    requires |parts| >= 1
    ensures Join(parts[..|parts| - 1] + [parts[|parts| - 1] + [c]], sep) == Join(parts, sep) + [c]
  {
    var last := parts[|parts| - 1];
    if |parts| > 1 {
      var front := parts[..|parts| - 1];
      JoinSnoc(front, last + [c], sep);
      JoinSnoc(front, last, sep);
      assert front + [last] == parts;
    }
  }

  /** Splitting and joining again gives back the original string. */
  lemma {:induction false} JoinSplit(s: string, sep: char)
    ensures Join(Split(s, sep), sep) == s
    decreases |s|
  {
    if |s| > 0 {
      var s' := s[..|s| - 1];
      var init := Split(s', sep);
      var c := s[|s| - 1];
      JoinSplit(s', sep);
      assert s == s' + [c];
      if c == sep {
        JoinSnoc(init, "", sep);
      } else {
        JoinExtendLast(init, c, sep);
      }
    }
  }

  /** `s.split('/').pop()`: the text after the last `'/'` of `s`. */
  function LastSegment(s: string): string {
    var parts := Split(s, '/');
    parts[|parts| - 1]
  }

  /**
   * `r` is the text after the last `'/'` in `s`: a suffix of `s` holding no
   * `'/'`, and either all of `s` or preceded by a `'/'`.
   */
  predicate IsLastSegment(s: string, r: string) {
    && |r| <= |s|
    && s[|s| - |r|..] == r
    && Excludes(r, '/')
    && (|r| < |s| ==> s[|s| - |r| - 1] == '/')
  }

  /** The last segment grows by each non-`/` character and restarts at a `/`. */
  lemma LastSegmentStep(s: string)
    requires |s| > 0
    ensures LastSegment(s) ==
      if s[|s| - 1] == '/' then "" else LastSegment(s[..|s| - 1]) + [s[|s| - 1]]
  {
  }

  /** Appending a non-`/` character extends the text after the last `/` by that character. */
  lemma IsLastSegmentExtend(s: string, r: string, c: char)
    requires IsLastSegment(s, r) && c != '/'
    ensures IsLastSegment(s + [c], r + [c])
  {
    var s2, r2 := s + [c], r + [c];
    assert s2[|s2| - |r2|..] == s[|s| - |r|..] + [c];
    assert forall i :: 0 <= i < |r| ==> r2[i] == r[i];
    if |r2| < |s2| {
      assert s2[|s2| - |r2| - 1] == s[|s| - |r| - 1];
    }
  }

  /** `LastSegment` returns exactly the text after the last `'/'`. */
  lemma {:induction false} LastSegmentIsLast(s: string)
    ensures IsLastSegment(s, LastSegment(s))
    decreases |s|
  {
    if |s| > 0 {
      var s' := s[..|s| - 1];
      var c := s[|s| - 1];
      LastSegmentStep(s);
      if c != '/' {
        LastSegmentIsLast(s');
        IsLastSegmentExtend(s', LastSegment(s'), c);
        assert s == s' + [c];
      }
    }
  }

  /** Only one string is the text after the last `'/'`: `LastSegment` is exact. */
  lemma LastSegmentUnique(s: string, r: string)
    requires IsLastSegment(s, r)
    ensures r == LastSegment(s)
  {
    LastSegmentIsLast(s);
  }

  /** The character for the decimal digit `d`. */
  function DigitChar(d: nat): char
    requires d < 10
  {
    "0123456789"[d]
  }

  predicate IsDigit(c: char) {
    '0' <= c <= '9'
  }

  /** The value of the decimal digit `c`. */
  function DigitValue(c: char): nat
    requires IsDigit(c)
  {
    (c as int - '0' as int) as nat
  }

  /**
   * The decimal rendering of `n`, as JavaScript prints a non-negative
   * integer in a template literal: digits only, no leading zero.
   */
  function Decimal(n: nat): (r: string)
    ensures |r| >= 1
    ensures forall i :: 0 <= i < |r| ==> IsDigit(r[i])
    ensures |r| > 1 ==> r[0] != '0'
    decreases n
  {
    if n < 10 then [DigitChar(n)] else Decimal(n / 10) + [DigitChar(n % 10)]
  }

  /** The number a string of decimal digits denotes. */
  function DecimalValue(s: string): nat
    requires forall i :: 0 <= i < |s| ==> IsDigit(s[i])
    decreases |s|
  {
    if |s| == 0 then 0
    else DecimalValue(s[..|s| - 1]) * 10 + DigitValue(s[|s| - 1])
  }

  /** Reading back a rendered number gives the number. */
  lemma {:induction false} DecimalRoundTrip(n: nat)
    ensures DecimalValue(Decimal(n)) == n
    decreases n
  {
    var r := Decimal(n);
    if n < 10 {
      assert r[..0] == [];
    } else {
      DecimalRoundTrip(n / 10);
      assert r[..|r| - 1] == Decimal(n / 10);
    }
  }

  /** Distinct numbers render as distinct strings. */
  lemma DecimalInjective(m: nat, n: nat)
    requires Decimal(m) == Decimal(n)
    ensures m == n
  {
    DecimalRoundTrip(m);
    DecimalRoundTrip(n);
  }
}
