/**
  The currency detector of the extraction loop: `re.search` with the pattern
  `\$\d+(?:,\d{3})*(?:\.\d{2})?|(?:\d+\s(?:dollars|USD))` and `re.IGNORECASE`.

  The pattern's language is written out alternative by alternative;
  `PatternFound` is what `bool(re.search(...))` decides.  `CheckMoneyInText`
  is a direct scan for the two short shapes that every match starts with,
  and `CheckMoneyInTextIsSearch` proves the two agree on every text.
 */
module ExtendedMoney {
  import opened PyText

  // --- The language of the pattern ---

  /** `(?:,\d{3})*` */
  predicate Groups(w: string)
    decreases |w|
  {
    w == [] || (|w| >= 4 && w[0] == ',' && AllDigits(w[1..4]) && Groups(w[4..]))
  }

  /** `(?:\.\d{2})?` */
  predicate Cents(w: string) {
    w == [] || (|w| == 3 && w[0] == '.' && IsDigit(w[1]) && IsDigit(w[2]))
  }

  /** `\$\d+(?:,\d{3})*(?:\.\d{2})?` */
  ghost predicate AmountForm(w: string) {
    |w| >= 2 && w[0] == '$' &&
    exists p, q :: 2 <= p <= q <= |w| && Digits(w[1..p]) && Groups(w[p..q]) && Cents(w[q..])
  }

  /** `dollars|USD` under IGNORECASE */
  predicate UnitWord(w: string) {
    Lower(w) == "dollars" || Lower(w) == "usd"
  }

  /** `\d+\s(?:dollars|USD)` */
  ghost predicate WordForm(w: string) {
    exists p :: 0 < p < |w| && Digits(w[..p]) && IsSpace(w[p]) && UnitWord(w[p + 1..])
  }

  ghost predicate MatchesPattern(w: string) {
    AmountForm(w) || WordForm(w)
  }

  /** Some substring of `text` matches the pattern: what `re.search` reports. */
  ghost predicate PatternFound(text: string) {
    exists i, j :: 0 <= i <= j <= |text| && MatchesPattern(text[i..j])
  }

  // --- The positional characterisation and its scan ---

  /** `text` has `word` at its start, ignoring the case of ASCII letters. */
  predicate StartsWithIgnoreCase(text: string, word: string) {
    |word| <= |text| && Lower(text[..|word|]) == word
  }

  /** A digit at index `i`, exactly one whitespace character, then "dollars" or "usd" in any case. */
  predicate WordAt(text: string, i: nat) {
    i + 1 < |text| && IsDigit(text[i]) && IsSpace(text[i + 1]) &&
    (StartsWithIgnoreCase(text[i + 2..], "dollars") || StartsWithIgnoreCase(text[i + 2..], "usd"))
  }

  predicate MoneyAt(text: string, i: nat) {
    AmountAt(text, i) || WordAt(text, i)
  }

  /** Looks for a money shape at index `i` or after it. */
  function ScanFrom(text: string, i: nat): (found: bool)
    requires i <= |text|
    ensures found <==> exists k :: i <= k < |text| && MoneyAt(text, k)
    decreases |text| - i
  {
    if i == |text| then false
    else MoneyAt(text, i) || ScanFrom(text, i + 1)
  }

  /** `check_money_in_text`: true when the text mentions a dollar amount. */
  function CheckMoneyInText(text: string): (found: bool)
    ensures found <==> exists k :: 0 <= k < |text| && MoneyAt(text, k)
  {
    ScanFrom(text, 0)
  }

  // --- Agreement with the pattern ---

  /** Every match of the pattern starts with one of the two short shapes. */
  lemma MatchStartsWithShape(text: string, i: nat, j: nat)
    requires i <= j <= |text| && MatchesPattern(text[i..j])
    ensures exists k :: i <= k < j && MoneyAt(text, k)
  {
    var w := text[i..j];
    if AmountForm(w) {
      var p, q :| 2 <= p <= q <= |w| && Digits(w[1..p]) && Groups(w[p..q]) && Cents(w[q..]);
      assert w[1..p][0] == w[1];
      assert MoneyAt(text, i);
    } else {
      var p :| 0 < p < |w| && Digits(w[..p]) && IsSpace(w[p]) && UnitWord(w[p + 1..]);
      assert w[..p][p - 1] == w[p - 1];
      var rest := text[i + p + 1..];
      assert w[p + 1..] == rest[..|w| - p - 1];
      assert |Lower(w[p + 1..])| == |w| - p - 1;
      assert MoneyAt(text, i + p - 1);
    }
  }

  /** Each short shape is itself the start of a match. */
  lemma ShapeStartsMatch(text: string, k: nat)
    requires k < |text| && MoneyAt(text, k)
    ensures exists j :: k <= j <= |text| && MatchesPattern(text[k..j])
  {
    if AmountAt(text, k) {
      var w := text[k..k + 2];
      assert Digits(w[1..2]) && Groups(w[2..2]) && Cents(w[2..]);
      assert AmountForm(w);
    } else {
      var rest := text[k + 2..];
      var n := if StartsWithIgnoreCase(rest, "dollars") then 7 else 3;
      var w := text[k..k + 2 + n];
      assert w[..1] == [text[k]];
      assert w[2..] == rest[..n];
      assert Digits(w[..1]) && IsSpace(w[1]) && UnitWord(w[2..]);
      assert WordForm(w);
    }
  }

  /** The scan decides exactly what `re.search` with the pattern decides. */
  lemma CheckMoneyInTextIsSearch(text: string)
    ensures CheckMoneyInText(text) <==> PatternFound(text)
  {
    if PatternFound(text) {
      var i, j :| 0 <= i <= j <= |text| && MatchesPattern(text[i..j]);
      MatchStartsWithShape(text, i, j);
    }
    if CheckMoneyInText(text) {
      var k :| 0 <= k < |text| && MoneyAt(text, k);
      ShapeStartsMatch(text, k);
    }
  }

  lemma ExampleAmount()
    ensures PatternFound("$12,345.67")
  {
    CheckMoneyInTextIsSearch("$12,345.67");
  }

  lemma ExampleWord()
    ensures PatternFound("50 dollars")
  {
    CheckMoneyInTextIsSearch("50 dollars");
  }

  lemma ExampleTwoSpaces()
    ensures !PatternFound("50  dollars")
  {
    var t := "50  dollars";
    assert !MoneyAt(t, 0) by {
      assert !IsSpace(t[1]);
    }
    assert !MoneyAt(t, 1) by {
      assert Lower(t[3..][..7])[0] == ' ' && Lower(t[3..][..3])[0] == ' ';
    }
    assert forall k :: 2 <= k < |t| ==> t[k] != '$' && !IsDigit(t[k]);
    CheckMoneyInTextIsSearch(t);
  }
}
