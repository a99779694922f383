/**
  The string-level rules of `NewsScraper`: the fields read from a feed card,
  the rows of the output table and the filter on publication dates.  What the
  page yields for a card, the current time and the date parser are inputs.
 */
module NewsScraper {
  import opened Wrappers
  import opened PyText
  import ScraperMoney
  import ExtendedMoney

  /** The exceptions that escape `extract_article_info` and `filter_articles_by_date`. */
  datatype ScrapeError =
    | ElementMissing(selector: string)  // `find_element_by_css_selector` matched nothing
    | DateFormatMismatch(text: string)  // `strptime(text, "%Y-%m-%d")` rejected the text
    | DateOverflow                      // `timedelta` or the subtraction left the range of `datetime`

  /** What the page yields for one `.FeedCard`: the text or `src` each selector finds, None when nothing matches. */
  datatype FeedCard = FeedCard(
    heading: Option<string>,    // text of "h1, h2"
    time: Option<string>,       // text of "time"
    paragraph: Option<string>,  // text of "p"
    imgSrc: Option<string>)     // `src` of "img"

  datatype ArticleInfo = ArticleInfo(
    title: string, date: string, description: string, imgUrl: string, containsMoney: bool)

  // --- extract_article_info ---

  /** The money test: the pattern searched in title and description written together, with no separator. */
  function ContainsMoney(title: string, description: string): (found: bool)
    ensures found == ScraperMoney.PatternFound(title + description)
  {
    ScraperMoney.CheckMoneyIsSearch(title + description);
    ScraperMoney.CheckMoney(title + description)
  }

  /**
    `extract_article_info`: the four fields in the order they are looked up,
    the first missing one raising.
   */
  function ExtractArticleInfo(card: FeedCard): (r: Result<ArticleInfo, ScrapeError>)
    ensures r.Ok? <==> card.heading.Some? && card.time.Some? && card.paragraph.Some? && card.imgSrc.Some?
    ensures r.Ok? ==>
      r.value.title == card.heading.value && r.value.date == card.time.value &&
      r.value.description == card.paragraph.value && r.value.imgUrl == card.imgSrc.value &&
      r.value.containsMoney == ScraperMoney.PatternFound(r.value.title + r.value.description)
    ensures card.heading.None? ==> r == Err(ElementMissing("h1, h2"))
    ensures card.heading.Some? && card.time.None? ==> r == Err(ElementMissing("time"))
    ensures card.heading.Some? && card.time.Some? && card.paragraph.None? ==> r == Err(ElementMissing("p"))
    ensures card.heading.Some? && card.time.Some? && card.paragraph.Some? && card.imgSrc.None? ==>
            r == Err(ElementMissing("img"))
  {
    match (card.heading, card.time, card.paragraph, card.imgSrc)
    case (None, _, _, _) => Err(ElementMissing("h1, h2"))
    case (Some(_), None, _, _) => Err(ElementMissing("time"))
    case (Some(_), Some(_), None, _) => Err(ElementMissing("p"))
    case (Some(_), Some(_), Some(_), None) => Err(ElementMissing("img"))
    case (Some(title), Some(date), Some(description), Some(imgUrl)) =>
      Ok(ArticleInfo(title, date, description, imgUrl, ContainsMoney(title, description)))
  }

  /** Money mentioned in either field is still found in the two written together. */
  lemma MoneyInEitherField(title: string, description: string)
    ensures ScraperMoney.PatternFound(title) || ScraperMoney.PatternFound(description) ==>
            ContainsMoney(title, description)
  {
    ScraperMoney.CheckMoneyIsSearch(title);
    ScraperMoney.CheckMoneyIsSearch(description);
    ScraperMoney.FoundInParts(title, description);
  }

  /** With no separator, a match can span the two fields although neither field holds one. */
  lemma MoneyAcrossBoundary()
    ensures ContainsMoney("5", "USD")
    ensures !ScraperMoney.PatternFound("5") && !ScraperMoney.PatternFound("USD")
  {
    assert ScraperMoney.WordSpan("5USD", 0, 1);
    assert ScraperMoney.MoneyAt("5USD", 0);
    ScraperMoney.CheckMoneyIsSearch("5");
    ScraperMoney.CheckMoneyIsSearch("USD");
    assert !ScraperMoney.MoneyHere("5", 0);
    assert !ScraperMoney.CheckMoney("USD") by {
      assert forall k :: 0 <= k < 3 ==> "USD"[k] in "USD";
    }
  }

  /** The extraction loop joins the fields with a space and this one does not, so the two detectors disagree. */
  lemma JoinDiffersFromExtractionLoop()
    ensures ContainsMoney("$", "5")
    ensures !ExtendedMoney.PatternFound("$" + " " + "5")
  {
    assert AmountAt("$5", 0);
    assert ScraperMoney.MoneyAt("$5", 0);
    var t := "$" + " " + "5";
    ExtendedMoney.CheckMoneyInTextIsSearch(t);
    assert !ExtendedMoney.CheckMoneyInText(t) by {
      assert !ExtendedMoney.MoneyAt(t, 0) && !ExtendedMoney.MoneyAt(t, 1) && !ExtendedMoney.MoneyAt(t, 2);
    }
  }

  // --- save_to_excel ---

  /** The image filename column: `img_url.split('/')[-1]`. */
  function ImageFilename(imgUrl: string): (name: string)
    ensures '/' !in name
    ensures |name| <= |imgUrl| && name == imgUrl[|imgUrl| - |name|..]
    ensures |name| == |imgUrl| || imgUrl[|imgUrl| - |name| - 1] == '/'
  {
    var parts := Split(imgUrl, '/');
    LastPiece(imgUrl, '/');
    parts[|parts| - 1]
  }

  /** The three properties of `ImageFilename` leave no other choice: it is the text after the last '/'. */
  lemma ImageFilenameUnique(imgUrl: string, name: string)
    requires '/' !in name
    requires |name| <= |imgUrl| && name == imgUrl[|imgUrl| - |name|..]
    requires |name| == |imgUrl| || imgUrl[|imgUrl| - |name| - 1] == '/'
    ensures name == ImageFilename(imgUrl)
  {
    var other := ImageFilename(imgUrl);
    var n := |imgUrl|;
    forall i | n - |name| <= i < n ensures imgUrl[i] != '/' {
      assert name[i - (n - |name|)] == imgUrl[i];
    }
    forall i | n - |other| <= i < n ensures imgUrl[i] != '/' {
      assert other[i - (n - |other|)] == imgUrl[i];
    }
  }

  /** A URL without '/' is its own filename; one ending in '/' gives the empty filename. */
  lemma ImageFilenameCases(imgUrl: string)
    ensures '/' !in imgUrl ==> ImageFilename(imgUrl) == imgUrl
    ensures |imgUrl| > 0 && imgUrl[|imgUrl| - 1] == '/' ==> ImageFilename(imgUrl) == ""
  {
    var name := ImageFilename(imgUrl);
    assert forall i :: 0 <= i < |imgUrl| ==> imgUrl[i] in imgUrl;
    assert |name| > 0 ==> name[|name| - 1] == imgUrl[|imgUrl| - 1];
  }

  const Columns: seq<string> := ["Title", "Date", "Description", "Image Filename", "Contains Money"]

  /** The row added to the table for one article. */
  function TableRow(info: ArticleInfo): (row: seq<string>)
    ensures |row| == |Columns|
    ensures row[..3] == [info.title, info.date, info.description]
  {
    [info.title, info.date, info.description, ImageFilename(info.imgUrl), BoolStr(info.containsMoney)]
  }

  /** Each row has a cell per column; the money cell reads "True" exactly when money was found. */
  lemma TableRowShape(info: ArticleInfo)
    ensures |TableRow(info)| == |Columns|
    ensures '/' !in TableRow(info)[3]
    ensures TableRow(info)[4] == "True" <==> info.containsMoney
    ensures TableRow(info)[4] == "False" <==> !info.containsMoney
  {
    BoolStrIff(info.containsMoney);
  }

  /** Where the table is written: `os.path.join(os.path.join(cwd, "output"), f"{search_phrase}_news.xlsx")`. */
  function ExcelPath(cwd: string, searchPhrase: string): (path: string)
    ensures var file := searchPhrase + "_news.xlsx"; |file| <= |path| && path[|path| - |file|..] == file
  {
    PathJoinSuffix(PathJoin(cwd, "output"), searchPhrase + "_news.xlsx");
    PathJoin(PathJoin(cwd, "output"), searchPhrase + "_news.xlsx")
  }

  /** A search phrase that does not start with '/' gives a file inside the output directory. */
  lemma ExcelPathInOutput(cwd: string, searchPhrase: string)
    requires |searchPhrase| == 0 || searchPhrase[0] != '/'
    ensures ExcelPath(cwd, searchPhrase) ==
      (if |cwd| == 0 || cwd[|cwd| - 1] == '/' then cwd else cwd + "/") + "output/" + searchPhrase + "_news.xlsx"
  {
  }

  /** A search phrase starting with '/' makes `os.path.join` drop the directory: the file lands at that absolute path. */
  lemma ExcelPathAbsolutePhrase(cwd: string, searchPhrase: string)
    requires |searchPhrase| > 0 && searchPhrase[0] == '/'
    ensures ExcelPath(cwd, searchPhrase) == searchPhrase + "_news.xlsx"
  {
  }

  datatype Table = Table(columns: seq<string>, rows: seq<seq<string>>)

  /** `save_to_excel`: the output path and the table handed to `save_to_file`, one row per article in input order. */
  method SaveToExcel(articlesData: seq<ArticleInfo>, cwd: string, searchPhrase: string)
    returns (excelPath: string, table: Table)
    ensures excelPath == ExcelPath(cwd, searchPhrase)
    ensures table.columns == Columns
    ensures |table.rows| == |articlesData|
    ensures forall k :: 0 <= k < |articlesData| ==> table.rows[k] == TableRow(articlesData[k])
  {
    excelPath := PathJoin(PathJoin(cwd, "output"), searchPhrase + "_news.xlsx");
    table := Table(Columns, []);
    for i := 0 to |articlesData|
      invariant table.columns == Columns && |table.rows| == i
      invariant forall k :: 0 <= k < i ==> table.rows[k] == TableRow(articlesData[k])
    {
      var data := articlesData[i];
      table := table.(rows := table.rows + [[
        data.title, data.date, data.description, ImageFilename(data.imgUrl), BoolStr(data.containsMoney)]]);
    }
  }

  // --- filter_articles_by_date ---

  /** A day in microseconds, the resolution of `datetime`. */
  const Day := 86_400_000_000

  /**
    Instants are microseconds since `datetime.min`, 0001-01-01 00:00; the last
    one `datetime` can hold is 9999-12-31 23:59:59.999999.
   */
  const MaxInstant := 3_652_059 * Day - 1

  type Instant = t: int | 0 <= t <= MaxInstant

  /** The largest number of days a `timedelta` holds, in either direction. */
  const MaxDeltaDays := 999_999_999

  /**
    `datetime.now() - timedelta(days=months * 30)`, or None where either step
    raises OverflowError: the `timedelta` is too long, or the difference falls
    outside the years 1 to 9999.
   */
  function Threshold(now: Instant, months: int): (t: Option<Instant>)
    ensures t.Some? ==> t.value == now - months * 30 * Day
  {
    if months * 30 < -MaxDeltaDays || months * 30 > MaxDeltaDays then None
    else if 0 <= now - months * 30 * Day <= MaxInstant then Some(now - months * 30 * Day)
    else None
  }

  /** No months at all is the current instant. */
  lemma ThresholdNow(now: Instant)
    ensures Threshold(now, 0) == Some(now)
  {
  }

  /**
    The threshold exists exactly when it lands in the range of `datetime`:
    the `timedelta` limit never decides, because it is wider than that range.
   */
  lemma ThresholdIff(now: Instant, months: int)
    ensures Threshold(now, months).Some? <==> now - MaxInstant <= months * 30 * Day <= now
  {
    var d := months * 30;
    if d > MaxDeltaDays {
      assert (d - MaxDeltaDays - 1) * Day >= 0;
    } else if d < -MaxDeltaDays {
      assert (-MaxDeltaDays - 1 - d) * Day >= 0;
    }
  }

  /** Any `months` beyond 121,735 in either direction raises, whatever the current instant. */
  lemma ThresholdBounded(now: Instant, months: int)
    ensures Threshold(now, months).Some? ==> -121_735 <= months <= 121_735
    ensures months > 121_735 || months < -121_735 ==> Threshold(now, months).None?
  {
    ThresholdIff(now, months);
    if months > 121_735 {
      assert (months - 121_736) * (30 * Day) >= 0;
    } else if months < -121_735 {
      assert (-121_736 - months) * (30 * Day) >= 0;
    }
  }

  /** More months can only move the threshold back. */
  lemma ThresholdAntitone(now: Instant, m1: int, m2: int)
    requires m1 <= m2 && Threshold(now, m1).Some? && Threshold(now, m2).Some?
    ensures Threshold(now, m2).value <= Threshold(now, m1).value
  {
    assert m2 * 30 * Day - m1 * 30 * Day == (m2 - m1) * (30 * Day);
  }

  /** The months with a threshold form an interval: whatever lies between two of them has one too. */
  lemma ThresholdBetween(now: Instant, m1: int, m: int, m2: int)
    requires m1 <= m <= m2 && Threshold(now, m1).Some? && Threshold(now, m2).Some?
    ensures Threshold(now, m).Some?
  {
    ThresholdIff(now, m1);
    ThresholdIff(now, m2);
    ThresholdIff(now, m);
    assert m * 30 * Day - m1 * 30 * Day == (m - m1) * (30 * Day);
    assert m2 * 30 * Day - m * 30 * Day == (m2 - m) * (30 * Day);
  }

  /** The date of one card: the text of its "time" element, read by `parse`. */
  function DateOf(card: FeedCard, parse: string -> Option<int>): (d: Result<int, ScrapeError>)
    ensures d.Ok? <==> card.time.Some? && parse(card.time.value).Some?
    ensures d.Ok? ==> parse(card.time.value) == Some(d.value)
    ensures card.time.None? ==> d == Err(ElementMissing("time"))
    ensures card.time.Some? && parse(card.time.value).None? ==> d == Err(DateFormatMismatch(card.time.value))
  {
    match card.time
    case None => Err(ElementMissing("time"))
    case Some(text) =>
      match parse(text)
      case None => Err(DateFormatMismatch(text))
      case Some(d) => Ok(d)
  }

  /** The dates of all cards, or the failure of the first card whose date cannot be read. */
  function ParseDates(cards: seq<FeedCard>, parse: string -> Option<int>): (r: Result<seq<int>, ScrapeError>)
    ensures r.Ok? ==> |r.value| == |cards|
    ensures r.Err? ==> !r.error.DateOverflow?
    decreases |cards|
  {
    if |cards| == 0 then Ok([])
    else
      match ParseDates(cards[..|cards| - 1], parse)
      case Err(e) => Err(e)
      case Ok(dates) =>
        match DateOf(cards[|cards| - 1], parse)
        case Err(e) => Err(e)
        case Ok(d) => Ok(dates + [d])
  }

  /** The cards whose date is at or after `threshold`, in their order. */
  function KeepSince(cards: seq<FeedCard>, dates: seq<int>, threshold: int): (kept: seq<FeedCard>)
    requires |cards| == |dates|
    ensures |kept| <= |cards|
    decreases |cards|
  {
    if |cards| == 0 then []
    else
      var n := |cards| - 1;
      var rest := KeepSince(cards[..n], dates[..n], threshold);
      if dates[n] >= threshold then rest + [cards[n]] else rest
  }

  /** What `filter_articles_by_date` returns or raises. */
  function ArticlesSince(cards: seq<FeedCard>, parse: string -> Option<int>, threshold: int): (r: Result<seq<FeedCard>, ScrapeError>)
    ensures r.Ok? <==> ParseDates(cards, parse).Ok?
    ensures r.Err? ==> r.error == ParseDates(cards, parse).error
    ensures r.Ok? ==> |r.value| <= |cards|
  {
    match ParseDates(cards, parse)
    case Err(e) => Err(e)
    case Ok(dates) => Ok(KeepSince(cards, dates, threshold))
  }

  /**
    What `filter_articles_by_date` returns or raises: the threshold is
    computed before any card is read, so its overflow wins over every date.
   */
  function FilteredArticles(cards: seq<FeedCard>, months: int, now: Instant, parse: string -> Option<int>)
    : (r: Result<seq<FeedCard>, ScrapeError>)
    ensures Threshold(now, months).None? <==> r == Err(DateOverflow)
    ensures r.Ok? ==> |r.value| <= |cards|
  {
    match Threshold(now, months)
    case None => Err(DateOverflow)
    case Some(threshold) => ArticlesSince(cards, parse, threshold)
  }

  /** A failure on a prefix is the failure of the whole list. */
  lemma {:induction false} ParseDatesErrPersists(cards: seq<FeedCard>, parse: string -> Option<int>, i: nat)
    requires i <= |cards| && ParseDates(cards[..i], parse).Err?
    ensures ParseDates(cards, parse) == ParseDates(cards[..i], parse)
    decreases |cards| - i
  {
    if i < |cards| {
      var n := |cards| - 1;
      assert cards[..n][..i] == cards[..i];
      ParseDatesErrPersists(cards[..n], parse, i);
    } else {
      assert cards[..i] == cards;
    }
  }

  /**
    `filter_articles_by_date`: walks the cards in order, keeping those dated
    at or after the threshold; the first card without a readable date raises.
   */
  method FilterArticlesByDate(articles: seq<FeedCard>, months: int, now: Instant, parse: string -> Option<int>)
    returns (r: Result<seq<FeedCard>, ScrapeError>)
    ensures r == FilteredArticles(articles, months, now, parse)
  {
    var filteredArticles: seq<FeedCard> := [];
    var days := months * 30;
    if days < -MaxDeltaDays || days > MaxDeltaDays {
      return Err(DateOverflow);
    }
    var timeThreshold := now - days * Day;
    if timeThreshold < 0 || timeThreshold > MaxInstant {
      return Err(DateOverflow);
    }
    ghost var dates: seq<int> := [];
    for i := 0 to |articles|
      invariant ParseDates(articles[..i], parse) == Ok(dates)
      invariant filteredArticles == KeepSince(articles[..i], dates, timeThreshold)
    {
      var article := articles[i];
      assert articles[..i + 1][..i] == articles[..i];
      if article.time.None? {
        ParseDatesErrPersists(articles, parse, i + 1);
        return Err(ElementMissing("time"));
      }
      var dateText := article.time.value;
      var articleDate := parse(dateText);
      if articleDate.None? {
        ParseDatesErrPersists(articles, parse, i + 1);
        return Err(DateFormatMismatch(dateText));
      }
      if articleDate.value >= timeThreshold {
        filteredArticles := filteredArticles + [article];
      }
      dates := dates + [articleDate.value];
      assert (dates[..i], dates[i]) == (dates[..|dates| - 1], dates[|dates| - 1]);
    }
    assert articles[..|articles|] == articles;
    return Ok(filteredArticles);
  }

  /** The dates parse exactly when every card's date parses, and then they are those dates in order. */
  lemma {:induction false} ParseDatesOkIff(cards: seq<FeedCard>, parse: string -> Option<int>)
    ensures ParseDates(cards, parse).Ok? <==> forall k :: 0 <= k < |cards| ==> DateOf(cards[k], parse).Ok?
    ensures ParseDates(cards, parse).Ok? ==>
      forall k :: 0 <= k < |cards| ==> ParseDates(cards, parse).value[k] == DateOf(cards[k], parse).value
    decreases |cards|
  {
    if |cards| > 0 {
      var n := |cards| - 1;
      ParseDatesOkIff(cards[..n], parse);
      assert forall k :: 0 <= k < n ==> cards[..n][k] == cards[k];
    }
  }

  /** The failure reported is that of the first card whose date cannot be read. */
  lemma {:induction false} ParseDatesFirstError(cards: seq<FeedCard>, parse: string -> Option<int>)
    requires ParseDates(cards, parse).Err?
    ensures exists k :: 0 <= k < |cards| && DateOf(cards[k], parse) == Err(ParseDates(cards, parse).error) &&
                        (forall j :: 0 <= j < k ==> DateOf(cards[j], parse).Ok?)
    decreases |cards|
  {
    var n := |cards| - 1;
    assert forall k :: 0 <= k < n ==> cards[..n][k] == cards[k];
    if ParseDates(cards[..n], parse).Err? {
      ParseDatesFirstError(cards[..n], parse);
    } else {
      ParseDatesOkIff(cards[..n], parse);
      assert DateOf(cards[n], parse) == Err(ParseDates(cards, parse).error);
    }
  }

  // --- Order-preserving subsequences ---

  /** `a` is `b` with some elements left out, the rest in their order. */
  predicate IsSubsequence<T(==)>(a: seq<T>, b: seq<T>)
    decreases |b|
  {
    if |a| == 0 then true
    else if |b| == 0 then false
    else if a[|a| - 1] == b[|b| - 1] then IsSubsequence(a[..|a| - 1], b[..|b| - 1])
    else IsSubsequence(a, b[..|b| - 1])
  }

  lemma {:induction false} SubsequenceExtend<T>(a: seq<T>, b: seq<T>, x: T)
    requires IsSubsequence(a, b)
    ensures IsSubsequence(a, b + [x])
    decreases |b|, 1
  {
    assert (b + [x])[..|b|] == b;
    if |a| > 0 && a[|a| - 1] == x {
      SubsequenceDropLast(a, b);
    }
  }

  lemma {:induction false} SubsequenceDropLast<T>(a: seq<T>, b: seq<T>)
    requires |a| > 0 && IsSubsequence(a, b)
    ensures IsSubsequence(a[..|a| - 1], b)
    decreases |b|, 0
  {
    var b' := b[..|b| - 1];
    assert b' + [b[|b| - 1]] == b;
    if a[|a| - 1] == b[|b| - 1] {
      SubsequenceExtend(a[..|a| - 1], b', b[|b| - 1]);
    } else {
      SubsequenceDropLast(a, b');
      SubsequenceExtend(a[..|a| - 1], b', b[|b| - 1]);
    }
  }

  lemma {:induction false} SubsequenceLength<T>(a: seq<T>, b: seq<T>)
    requires IsSubsequence(a, b)
    ensures |a| <= |b|
    decreases |b|
  {
    if |a| > 0 {
      if a[|a| - 1] == b[|b| - 1] {
        SubsequenceLength(a[..|a| - 1], b[..|b| - 1]);
      } else {
        SubsequenceLength(a, b[..|b| - 1]);
      }
    }
  }

  // --- Properties of the filter ---

  /** The kept cards are the input with some cards left out, in the input's order. */
  lemma {:induction false} KeepSinceSubsequence(cards: seq<FeedCard>, dates: seq<int>, threshold: int)
    requires |cards| == |dates|
    ensures IsSubsequence(KeepSince(cards, dates, threshold), cards)
    decreases |cards|
  {
    if |cards| > 0 {
      var n := |cards| - 1;
      KeepSinceSubsequence(cards[..n], dates[..n], threshold);
      var rest := KeepSince(cards[..n], dates[..n], threshold);
      if dates[n] >= threshold {
        assert (rest + [cards[n]])[..|rest|] == rest;
      } else {
        SubsequenceExtend(rest, cards[..n], cards[n]);
      }
      assert cards[..n] + [cards[n]] == cards;
    }
  }

  /** Every kept card is dated at or after the threshold, and every card so dated is kept. */
  lemma {:induction false} KeepSinceMembers(cards: seq<FeedCard>, dates: seq<int>, threshold: int)
    requires |cards| == |dates|
    ensures forall c :: c in KeepSince(cards, dates, threshold) ==>
      exists k :: 0 <= k < |cards| && cards[k] == c && dates[k] >= threshold
    ensures forall k :: 0 <= k < |cards| && dates[k] >= threshold ==> cards[k] in KeepSince(cards, dates, threshold)
    decreases |cards|
  {
    if |cards| > 0 {
      var n := |cards| - 1;
      KeepSinceMembers(cards[..n], dates[..n], threshold);
      assert forall k :: 0 <= k < n ==> cards[..n][k] == cards[k] && dates[..n][k] == dates[k];
    }
  }

  /** A lower threshold keeps every card a higher one keeps, and maybe more. */
  lemma {:induction false} KeepSinceMonotone(cards: seq<FeedCard>, dates: seq<int>, t1: int, t2: int)
    requires |cards| == |dates| && t2 <= t1
    ensures IsSubsequence(KeepSince(cards, dates, t1), KeepSince(cards, dates, t2))
    decreases |cards|
  {
    if |cards| > 0 {
      var n := |cards| - 1;
      KeepSinceMonotone(cards[..n], dates[..n], t1, t2);
      var k1, k2 := KeepSince(cards[..n], dates[..n], t1), KeepSince(cards[..n], dates[..n], t2);
      if dates[n] >= t1 {
        assert (k1 + [cards[n]])[..|k1|] == k1 && (k2 + [cards[n]])[..|k2|] == k2;
      } else if dates[n] >= t2 {
        SubsequenceExtend(k1, k2, cards[n]);
      }
    }
  }

  /**
    Where both thresholds exist, asking for more months fails on the same
    cards and otherwise keeps a superset, in order; for months that are not
    negative, more months can only add an overflow, never remove one.
   */
  lemma FilterMonotoneInMonths(cards: seq<FeedCard>, parse: string -> Option<int>, now: Instant, m1: int, m2: int)
    requires m1 <= m2
    ensures 0 <= m1 && FilteredArticles(cards, m2, now, parse) != Err(DateOverflow) ==>
      FilteredArticles(cards, m1, now, parse) != Err(DateOverflow)
    ensures Threshold(now, m1).Some? && Threshold(now, m2).Some? ==>
      FilteredArticles(cards, m1, now, parse).Ok? == FilteredArticles(cards, m2, now, parse).Ok?
    ensures Threshold(now, m1).Some? && Threshold(now, m2).Some? && FilteredArticles(cards, m1, now, parse).Ok? ==>
      var k1, k2 := FilteredArticles(cards, m1, now, parse).value, FilteredArticles(cards, m2, now, parse).value;
      IsSubsequence(k1, k2) && |k1| <= |k2| <= |cards|
  {
    if 0 <= m1 && Threshold(now, m2).Some? {
      ThresholdNow(now);
      ThresholdBetween(now, 0, m1, m2);
    }
    var dates := ParseDates(cards, parse);
    if Threshold(now, m1).Some? && Threshold(now, m2).Some? && dates.Ok? {
      ThresholdAntitone(now, m1, m2);
      var t1, t2 := Threshold(now, m1).value, Threshold(now, m2).value;
      KeepSinceMonotone(cards, dates.value, t1, t2);
      SubsequenceLength(KeepSince(cards, dates.value, t1), KeepSince(cards, dates.value, t2));
    }
  }

  /**
    Past the range of `datetime` the filter raises even with no cards, and
    so more months need not keep what fewer months kept.
   */
  lemma FilterOverflowExample(now: Instant, parse: string -> Option<int>)
    ensures FilteredArticles([], 0, now, parse) == Ok([])
    ensures FilteredArticles([], 121_736, now, parse) == Err(DateOverflow)
  {
    ThresholdNow(now);
    ThresholdBounded(now, 121_736);
  }
}
