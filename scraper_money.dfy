/**
  The currency detector of `NewsScraper.extract_article_info`: `re.search`
  with the pattern `\$\d[\d,]*(\.\d+)?|\d+\s*(dollars?|USD)`, case-sensitive.

  As for the extraction loop's detector, the pattern's language is written
  out, `PatternFound` is what `bool(re.search(...))` decides, and
  `CheckMoney` is a scan proved to decide the same thing.
 */
module ScraperMoney {
  import opened PyText

  // --- The language of the pattern ---

  /** `[\d,]*` */
  predicate DigitsOrCommas(w: string) {
    forall k :: 0 <= k < |w| ==> IsDigit(w[k]) || w[k] == ','
  }

  /** `(\.\d+)?` */
  predicate Fraction(w: string) {
    w == [] || (|w| >= 2 && w[0] == '.' && Digits(w[1..]))
  }

  /** `\$\d[\d,]*(\.\d+)?` */
  ghost predicate AmountForm(w: string) {
    |w| >= 2 && w[0] == '$' && IsDigit(w[1]) &&
    exists q :: 2 <= q <= |w| && DigitsOrCommas(w[2..q]) && Fraction(w[q..])
  }

  /** `dollars?|USD` */
  predicate Unit(w: string) {
    w == "dollar" || w == "dollars" || w == "USD"
  }

  /** `\d+\s*(dollars?|USD)` */
  ghost predicate WordForm(w: string) {
    exists p, r :: 0 < p <= r < |w| && Digits(w[..p]) && AllSpaces(w[p..r]) && Unit(w[r..])
  }

  ghost predicate MatchesPattern(w: string) {
    AmountForm(w) || WordForm(w)
  }

  /** Some substring of `text` matches the pattern: what `re.search` reports. */
  ghost predicate PatternFound(text: string) {
    exists i, j :: 0 <= i <= j <= |text| && MatchesPattern(text[i..j])
  }

  // --- The positional characterisation and its scan ---

  predicate StartsWith(text: string, word: string) {
    |word| <= |text| && text[..|word|] == word
  }

  /** "dollar" or "USD" starts at index `j`. */
  predicate UnitAt(text: string, j: nat) {
    j <= |text| && (StartsWith(text[j..], "dollar") || StartsWith(text[j..], "USD"))
  }

  /** A digit at `i`, only whitespace strictly between `i` and `j`, and a unit at `j`. */
  predicate WordSpan(text: string, i: nat, j: nat) {
    i < j <= |text| && IsDigit(text[i]) && AllSpaces(text[i + 1..j]) && UnitAt(text, j)
  }

  ghost predicate MoneyAt(text: string, i: nat) {
    AmountAt(text, i) || exists j :: WordSpan(text, i, j)
  }

  /** The first index at or after `k` that does not hold whitespace. */
  function SkipSpaces(text: string, k: nat): (j: nat)
    requires k <= |text|
    ensures k <= j <= |text| && AllSpaces(text[k..j])
    ensures j == |text| || !IsSpace(text[j])
    decreases |text| - k
  {
    if k == |text| || !IsSpace(text[k]) then k else SkipSpaces(text, k + 1)
  }

  /** Whitespace throughout a slice is whitespace at each of its indices. */
  lemma SpacesBetween(text: string, a: nat, b: nat)
    requires a <= b <= |text|
    ensures AllSpaces(text[a..b]) <==> forall t :: a <= t < b ==> IsSpace(text[t])
  {
    assert forall t :: a <= t < b ==> text[a..b][t - a] == text[t];
  }

  /** A unit word filling a slice starts a unit at the slice's start. */
  lemma UnitStarts(text: string, a: nat, b: nat)
    requires a <= b <= |text| && Unit(text[a..b])
    ensures UnitAt(text, a)
  {
    assert text[a..][..b - a] == text[a..b];
    if text[a..b] == "dollars" {
      assert text[a..][..6] == text[a..b][..6];
    }
  }

  /** A unit can only follow the whole run of whitespace after the digit. */
  lemma WordSpanSkips(text: string, i: nat, j: nat)
    requires WordSpan(text, i, j)
    ensures SkipSpaces(text, i + 1) == j
  {
    var m := SkipSpaces(text, i + 1);
    SpacesBetween(text, i + 1, j);
    SpacesBetween(text, i + 1, m);
    assert text[j..][0] == 'd' || text[j..][0] == 'U';
  }

  /** Decides `MoneyAt(text, i)` with one skip over whitespace. */
  function MoneyHere(text: string, i: nat): (found: bool)
    requires i < |text|
    ensures found <==> MoneyAt(text, i)
  {
    var j := SkipSpaces(text, i + 1);
    if AmountAt(text, i) then true
    else if IsDigit(text[i]) && UnitAt(text, j) then
      assert WordSpan(text, i, j);
      true
    else
      assert forall j' :: WordSpan(text, i, j') ==> j' == j by {
        forall j' | WordSpan(text, i, j') ensures j' == j { WordSpanSkips(text, i, j'); }
      }
      false
  }

  function ScanFrom(text: string, i: nat): (found: bool)
    requires i <= |text|
    ensures found <==> exists k :: i <= k < |text| && MoneyAt(text, k)
    decreases |text| - i
  {
    if i == |text| then false
    else MoneyHere(text, i) || ScanFrom(text, i + 1)
  }

  /** The money test of `extract_article_info`. */
  function CheckMoney(text: string): (found: bool)
    ensures found <==> exists k :: 0 <= k < |text| && MoneyAt(text, k)
  {
    ScanFrom(text, 0)
  }

  // --- Agreement with the pattern ---

  lemma MatchStartsWithShape(text: string, i: nat, j: nat)
    requires i <= j <= |text| && MatchesPattern(text[i..j])
    ensures exists k :: i <= k < j && MoneyAt(text, k)
  {
    var w := text[i..j];
    if AmountForm(w) {
      assert AmountAt(text, i);
      assert MoneyAt(text, i);
    } else {
      var p, r :| 0 < p <= r < |w| && Digits(w[..p]) && AllSpaces(w[p..r]) && Unit(w[r..]);
      assert w[..p][p - 1] == text[i + p - 1];
      SliceOfSlice(text, i, j, p, r);
      assert text[i + r..j] == w[r..];
      UnitStarts(text, i + r, j);
      assert WordSpan(text, i + p - 1, i + r);
      assert MoneyAt(text, i + p - 1);
    }
  }

  lemma ShapeStartsMatch(text: string, k: nat)
    requires k < |text| && MoneyAt(text, k)
    ensures exists j :: k <= j <= |text| && MatchesPattern(text[k..j])
  {
    if AmountAt(text, k) {
      var w := text[k..k + 2];
      assert DigitsOrCommas(w[2..2]) && Fraction(w[2..]);
      assert AmountForm(w);
    } else {
      var j: nat :| WordSpan(text, k, j);
      var tail := text[j..];
      var n := if StartsWith(tail, "dollar") then 6 else 3;
      var w := text[k..j + n];
      assert w[..1] == [text[k]];
      SliceOfSlice(text, k, j + n, 1, j - k);
      assert w[j - k..] == tail[..n];
      assert Digits(w[..1]) && AllSpaces(w[1..j - k]) && Unit(w[j - k..]);
      assert WordForm(w);
    }
  }

  /** The scan decides exactly what `re.search` with the pattern decides. */
  lemma CheckMoneyIsSearch(text: string)
    ensures CheckMoney(text) <==> PatternFound(text)
  {
    if PatternFound(text) {
      var i, j :| 0 <= i <= j <= |text| && MatchesPattern(text[i..j]);
      MatchStartsWithShape(text, i, j);
    }
    if CheckMoney(text) {
      var k :| 0 <= k < |text| && MoneyAt(text, k);
      ShapeStartsMatch(text, k);
    }
  }

  /** A shape in the left part is still there once text is appended. */
  lemma FoundInLeft(a: string, b: string, k: nat)
    requires k < |a| && MoneyAt(a, k)
    ensures MoneyAt(a + b, k)
  {
    var s := a + b;
    if !AmountAt(a, k) {
      var j: nat :| WordSpan(a, k, j);
      assert s[k + 1..j] == a[k + 1..j];
      var word := if StartsWith(a[j..], "dollar") then "dollar" else "USD";
      assert s[j..][..|word|] == a[j..][..|word|];
      assert WordSpan(s, k, j);
    }
  }

  /** A shape in the right part is still there once text is prepended. */
  lemma FoundInRight(a: string, b: string, k: nat)
    requires k < |b| && MoneyAt(b, k)
    ensures MoneyAt(a + b, |a| + k)
  {
    var s, n := a + b, |a|;
    if !AmountAt(b, k) {
      var j: nat :| WordSpan(b, k, j);
      forall t | n + k + 1 <= t < n + j ensures s[t] == b[t - n] { }
      assert s[n + k + 1..n + j] == b[k + 1..j];
      assert s[n + j..] == b[j..];
      assert WordSpan(s, n + k, n + j);
    }
  }

  /** Writing two texts side by side keeps every shape either of them holds. */
  lemma FoundInParts(a: string, b: string)
    ensures CheckMoney(a) || CheckMoney(b) ==> CheckMoney(a + b)
  {
    if CheckMoney(a) {
      var k :| 0 <= k < |a| && MoneyAt(a, k);
      FoundInLeft(a, b, k);
    } else if CheckMoney(b) {
      var k :| 0 <= k < |b| && MoneyAt(b, k);
      FoundInRight(a, b, k);
    }
  }

  /** Two examples: the singular unit written without a space matches, a lower-case "usd" does not. */
  lemma ExampleNoSpace()
    ensures PatternFound("5dollar")
  {
    assert WordSpan("5dollar", 0, 1);
    assert MoneyAt("5dollar", 0);
    CheckMoneyIsSearch("5dollar");
  }

  lemma ExampleLowerUsd()
    ensures !PatternFound("5 usd")
  {
    var t := "5 usd";
    assert SkipSpaces(t, 1) == 2;
    assert !MoneyHere(t, 0);
    assert !CheckMoney(t) by {
      assert forall k :: 1 <= k < |t| ==> t[k] in " usd";
    }
    CheckMoneyIsSearch(t);
  }
}
