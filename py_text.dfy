/**
  The parts of Python's text handling that the scraper relies on: the regex
  classes `\d` and `\s`, `str.lower`, `str.count`, `str.split` on one
  character and the POSIX `os.path.join`.
 */
module PyText {

  /** `\d`, restricted to the ASCII decimal digits. */
  predicate IsDigit(c: char) {
    '0' <= c <= '9'
  }

  /** `\s` in a str pattern: exactly the characters for which `str.isspace()` holds. */
  predicate IsSpace(c: char) {
    ('\U{9}' <= c <= '\U{D}') || ('\U{1C}' <= c <= ' ') ||
    c == '\U{85}' || c == '\U{A0}' || c == '\U{1680}' ||
    ('\U{2000}' <= c <= '\U{200A}') || c == '\U{2028}' || c == '\U{2029}' ||
    c == '\U{202F}' || c == '\U{205F}' || c == '\U{3000}'
  }

  /** `\d*` */
  predicate AllDigits(w: string) {
    forall k :: 0 <= k < |w| ==> IsDigit(w[k])
  }

  /** `\d+` */
  predicate Digits(w: string) {
    |w| > 0 && AllDigits(w)
  }

  /** `\s*` */
  predicate AllSpaces(w: string) {
    forall k :: 0 <= k < |w| ==> IsSpace(w[k])
  }

  /** A `$` immediately followed by a digit at index `i`. */
  predicate AmountAt(text: string, i: nat) {
    i + 1 < |text| && text[i] == '$' && IsDigit(text[i + 1])
  }

  /** `c.lower()` for the ASCII letters; every other character is left as it is. */
  function LowerChar(c: char): (d: char)
    ensures !('A' <= d <= 'Z')
    ensures c == d || ('A' <= c <= 'Z' && d as int == c as int + 32)
  {
    if 'A' <= c <= 'Z' then (c as int + 32) as char else c
  }

  /** `s.lower()`, character by character. */
  function Lower(s: string): (r: string)
    ensures |r| == |s|
    ensures forall i :: 0 <= i < |r| ==> !('A' <= r[i] <= 'Z')
  {
    seq(|s|, i requires 0 <= i < |s| => LowerChar(s[i]))
  }

  /** Lowering twice is lowering once. */
  lemma LowerIdempotent(s: string)
    ensures Lower(Lower(s)) == Lower(s)
  {
  }

  /** A slice of a slice is a slice of the whole. */
  lemma SliceOfSlice<T>(s: seq<T>, i: nat, j: nat, a: nat, b: nat)
    requires i <= j <= |s| && a <= b <= j - i
    ensures s[i..j][a..b] == s[i + a..i + b]
  {
    forall t | 0 <= t < b - a ensures s[i..j][a..b][t] == s[i + a..i + b][t] {
      assert s[i..j][a..b][t] == s[i..j][a + t] == s[i + a + t];
    }
  }

  /** `pat` occurs in `text` at index `i`. */
  predicate OccursAt(text: string, pat: string, i: nat) {
    i + |pat| <= |text| && text[i..i + |pat|] == pat
  }

  /**
    `text.count(pat)`: occurrences found scanning left to right, resuming
    after each match, so that matches never overlap; the empty string
    occurs `|text| + 1` times.
   */
  function Count(text: string, pat: string): (n: nat)
    ensures |pat| == 0 ==> n == |text| + 1
    ensures |text| < |pat| ==> n == 0
    decreases |text|
  {
    if |pat| == 0 then |text| + 1
    else if |text| < |pat| then 0
    else if text[..|pat|] == pat then 1 + Count(text[|pat|..], pat)
    else Count(text[1..], pat)
  }

  /** Multiplication distributes over addition. */
  lemma MulDistributes(a: nat, b: nat, m: nat)
    ensures (a + b) * m == a * m + b * m
  {
  }

  /** Non-overlapping matches of a non-empty pattern fit side by side in the text. */
  lemma {:induction false} CountBound(text: string, pat: string)
    requires |pat| > 0
    ensures Count(text, pat) * |pat| <= |text|
    decreases |text|
  {
    if |text| < |pat| {
    } else if text[..|pat|] == pat {
      var m, rest := |pat|, text[|pat|..];
      CountBound(rest, pat);
      MulDistributes(1, Count(rest, pat), m);
    } else {
      CountBound(text[1..], pat);
    }
  }

  /** Dropping the first character shifts every occurrence one place to the left. */
  lemma OccursShift(text: string, pat: string, i: nat)
    requires |text| > 0
    ensures OccursAt(text, pat, i + 1) <==> OccursAt(text[1..], pat, i)
  {
    if i + 1 + |pat| <= |text| {
      assert text[1..][i..i + |pat|] == text[i + 1..i + 1 + |pat|];
    }
  }

  /** A non-empty pattern is counted at least once exactly when it occurs somewhere. */
  lemma {:induction false} CountPositiveIff(text: string, pat: string)
    requires |pat| > 0
    ensures Count(text, pat) > 0 <==> exists i :: 0 <= i <= |text| && OccursAt(text, pat, i)
    decreases |text|
  {
    if |text| < |pat| {
      forall i | 0 <= i <= |text| ensures !OccursAt(text, pat, i) { }
    } else if text[..|pat|] == pat {
      assert OccursAt(text, pat, 0);
    } else {
      var tail := text[1..];
      CountPositiveIff(tail, pat);
      forall i | 0 <= i <= |text| && OccursAt(text, pat, i)
        ensures OccursAt(tail, pat, i - 1)
      {
        OccursShift(text, pat, i - 1);
      }
      forall i | 0 <= i <= |tail| && OccursAt(tail, pat, i)
        ensures OccursAt(text, pat, i + 1)
      {
        OccursShift(text, pat, i);
      }
    }
  }

  /** Join `parts` with `sep` between consecutive parts, like `sep.join(parts)`. */
  function Join(parts: seq<string>, sep: char): (s: string)
    requires |parts| >= 1
  {
    if |parts| == 1 then parts[0]
    else Join(parts[..|parts| - 1], sep) + [sep] + parts[|parts| - 1]
  }

  /**
    `s.split(sep)` for a one-character separator: the pieces between the
    separators, an empty piece on each side of a separator that stands at
    an end or next to another separator, and `[""]` for the empty string.
   */
  function Split(s: string, sep: char): (parts: seq<string>)
    ensures |parts| >= 1
    ensures forall k :: 0 <= k < |parts| ==> sep !in parts[k]
    ensures Join(parts, sep) == s
    decreases |s|
  {
    if |s| == 0 then [""]
    else
      var init := Split(s[..|s| - 1], sep);
      var c := s[|s| - 1];
      if c == sep then
        assert s == s[..|s| - 1] + [c];
        init + [""]
      else
        var n := |init|;
        var r := init[..n - 1] + [init[n - 1] + [c]];
        assert r[..n - 1] == init[..n - 1];
        assert s == s[..|s| - 1] + [c];
        r
  }

  /**
    The last piece of `s.split(sep)` is the part of `s` after the last
    separator: a suffix of `s` with no separator in it, which is either all
    of `s` or stands right after a separator.
   */
  lemma {:induction false} LastPiece(s: string, sep: char)
    ensures var parts := Split(s, sep); var last := parts[|parts| - 1];
      |last| <= |s| && last == s[|s| - |last|..] &&
      (|last| == |s| || s[|s| - |last| - 1] == sep)
    decreases |s|
  {
    if |s| > 0 && s[|s| - 1] != sep {
      LastPiece(s[..|s| - 1], sep);
    }
  }

  /** `os.path.join(a, b)` on POSIX. */
  function PathJoin(a: string, b: string): (p: string)
    ensures |b| <= |p|
    ensures |b| > 0 && b[0] == '/' ==> p == b
    ensures (|b| == 0 || b[0] != '/') ==> |a| <= |p| && p[..|a|] == a
  {
    if |b| > 0 && b[0] == '/' then b
    else if |a| == 0 || a[|a| - 1] == '/' then a + b
    else a + "/" + b
  }

  /** The joined path always ends with its second part. */
  lemma PathJoinSuffix(a: string, b: string)
    ensures PathJoin(a, b)[|PathJoin(a, b)| - |b|..] == b
  {
  }

  /** `str(b)` for a boolean. */
  function BoolStr(b: bool): (s: string)
    ensures s == "True" || s == "False"
  {
    if b then "True" else "False"
  }

  /** `str(b)` can be read back: it is "True" exactly for True. */
  lemma BoolStrIff(b: bool)
    ensures BoolStr(b) == "True" <==> b
    ensures BoolStr(b) == "False" <==> !b
  {
  }
}
