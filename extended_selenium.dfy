/**
  The string-level rules of `ExtendedSelenium`: the keyword count, the
  category table, the image filename, the rows built by the extraction loop
  and the bounded click retry.  Browser calls become inputs: what a card on
  the result page yields, and whether each click attempt succeeds.
 */
module ExtendedSelenium {
  import opened Wrappers
  import opened PyText
  import ExtendedMoney

  /** The sentinel written for a field that could not be read. */
  const NA := "N/A"

  // --- count_search_phrases ---

  /** What one phrase adds to the count: its matches in the lowered title plus those in the lowered description. */
  function PhraseHits(title: string, description: string, phrase: string): (hits: nat)
    ensures Lower(phrase) == "" ==> hits == |title| + |description| + 2
  {
    Count(Lower(title), Lower(phrase)) + Count(Lower(description), Lower(phrase))
  }

  /** The hits of every phrase of the list, summed. */
  function PhrasesCount(title: string, description: string, phrases: seq<string>): (total: nat)
    ensures total == 0 <==> forall k :: 0 <= k < |phrases| ==> PhraseHits(title, description, phrases[k]) == 0
    decreases |phrases|
  {
    if |phrases| == 0 then 0
    else PhrasesCount(title, description, phrases[..|phrases| - 1]) +
         PhraseHits(title, description, phrases[|phrases| - 1])
  }

  /** `count_search_phrases`: accumulates the hits phrase by phrase. */
  method CountSearchPhrases(title: string, description: string, phrases: seq<string>) returns (count: nat)
    ensures count == PhrasesCount(title, description, phrases)
    ensures phrases == [] ==> count == 0
  {
    count := 0;
    for i := 0 to |phrases|
      invariant count == PhrasesCount(title, description, phrases[..i])
    {
      assert phrases[..i + 1][..i] == phrases[..i];
      count := count + Count(Lower(title), Lower(phrases[i]));
      count := count + Count(Lower(description), Lower(phrases[i]));
    }
    assert phrases[..|phrases|] == phrases;
  }

  /** The count of a concatenated list is the sum of the counts of its parts. */
  lemma {:induction false} PhrasesCountAppend(title: string, description: string, ps: seq<string>, qs: seq<string>)
    ensures PhrasesCount(title, description, ps + qs) ==
            PhrasesCount(title, description, ps) + PhrasesCount(title, description, qs)
    decreases |qs|
  {
    if |qs| > 0 {
      var init := qs[..|qs| - 1];
      assert (ps + qs)[..|ps + qs| - 1] == ps + init;
      PhrasesCountAppend(title, description, ps, init);
    } else {
      assert ps + qs == ps;
    }
  }

  /** An empty phrase is found once per position of each field, end included, as `str.count` does. */
  lemma EmptyPhraseHits(title: string, description: string)
    ensures PhraseHits(title, description, "") == |title| + |description| + 2
  {
  }

  /** A non-empty phrase scores exactly when it occurs, in any case, in the title or in the description. */
  lemma PhraseHitsIff(title: string, description: string, phrase: string)
    requires |phrase| > 0
    ensures PhraseHits(title, description, phrase) > 0 <==>
      (exists i :: 0 <= i <= |title| && OccursAt(Lower(title), Lower(phrase), i)) ||
      (exists i :: 0 <= i <= |description| && OccursAt(Lower(description), Lower(phrase), i))
  {
    CountPositiveIff(Lower(title), Lower(phrase));
    CountPositiveIff(Lower(description), Lower(phrase));
  }

  /** Matches of a non-empty phrase never overlap, so they fit in the two fields side by side. */
  lemma PhraseHitsBound(title: string, description: string, phrase: string)
    requires |phrase| > 0
    ensures PhraseHits(title, description, phrase) * |phrase| <= |title| + |description|
  {
    var p, m := Lower(phrase), |phrase|;
    var a, b := Count(Lower(title), p), Count(Lower(description), p);
    assert |p| == m && |Lower(title)| == |title| && |Lower(description)| == |description|;
    CountBound(Lower(title), p);
    CountBound(Lower(description), p);
    assert PhraseHits(title, description, phrase) == a + b;
    MulDistributes(a, b, m);
  }

  /** The case of the fields does not matter: counting in the lowered fields gives the same total. */
  lemma {:induction false} PhrasesCountIgnoresCase(title: string, description: string, phrases: seq<string>)
    ensures PhrasesCount(Lower(title), Lower(description), phrases) == PhrasesCount(title, description, phrases)
    decreases |phrases|
  {
    LowerIdempotent(title);
    LowerIdempotent(description);
    if |phrases| > 0 {
      PhrasesCountIgnoresCase(title, description, phrases[..|phrases| - 1]);
    }
  }

  /** The fields are counted one by one, so a phrase split between title and description scores nothing. */
  lemma NoMatchAcrossFields()
    ensures PhrasesCount("Co", "vid", ["COVID"]) == 0
    ensures Count(Lower("Co" + "vid"), Lower("COVID")) == 1
  {
    assert ["COVID"][..0] == [];
    assert Lower("COVID") == "covid";
    assert Lower("Co" + "vid") == "covid";
  }

  // --- get_category_value ---

  const StoriesId := "00000188-f942-d221-a78c-f9570e360000"

  /** The filter checkbox value of each category name. */
  const CategoryMapping: map<string, string> := map[
    "Live Blogs" := "00000190-0dc5-d7b0-a1fa-dde7ec030000",
    "Sections" := "00000189-9323-dce2-ad8f-bbe74c770000",
    "Stories" := StoriesId,
    "Subsections" := "00000189-9323-db0a-a7f9-9b7fb64a0000",
    "Videos" := "00000188-d597-dc35-ab8d-d7bf1ce10000"
  ]

  /** `get_category_value`: the table entry, and the "Stories" value for a name the table lacks. */
  function GetCategoryValue(name: string): (id: string)
    ensures id in CategoryMapping.Values
    ensures name in CategoryMapping ==> id == CategoryMapping[name]
    ensures name !in CategoryMapping ==> id == StoriesId
  {
    assert CategoryMapping["Stories"] == StoriesId;
    if name in CategoryMapping then CategoryMapping[name] else StoriesId
  }

  /** The five entries of the table, and the default. */
  lemma CategoryValues(unknown: string)
    requires unknown !in {"Live Blogs", "Sections", "Stories", "Subsections", "Videos"}
    ensures GetCategoryValue("Live Blogs") == "00000190-0dc5-d7b0-a1fa-dde7ec030000"
    ensures GetCategoryValue("Sections") == "00000189-9323-dce2-ad8f-bbe74c770000"
    ensures GetCategoryValue("Stories") == "00000188-f942-d221-a78c-f9570e360000"
    ensures GetCategoryValue("Subsections") == "00000189-9323-db0a-a7f9-9b7fb64a0000"
    ensures GetCategoryValue("Videos") == "00000188-d597-dc35-ab8d-d7bf1ce10000"
    ensures GetCategoryValue(unknown) == GetCategoryValue("Stories")
  {
  }

  /** Two different names of the table select two different checkboxes. */
  lemma CategoryValuesDistinct(a: string, b: string)
    requires a in CategoryMapping && b in CategoryMapping && a != b
    ensures GetCategoryValue(a) != GetCategoryValue(b)
  {
  }

  // --- save_image_from_element ---

  /** How many characters of the title go into an image filename. */
  const TitleLimit := 50

  function TitleHead(title: string): (head: string)
    ensures |head| <= |title| && |head| <= TitleLimit && head == title[..|head|]
    ensures |head| == TitleLimit || head == title
  {
    title[..if |title| < TitleLimit then |title| else TitleLimit]
  }

  /** The name under which an article's image is saved: `f"image-{title[:50]}.png"`. */
  function ImageFileName(title: string): (name: string)
    ensures 10 <= |name| <= 60
    ensures name[..6] == "image-" && name[|name| - 4..] == ".png"
  {
    "image-" + TitleHead(title) + ".png"
  }

  /** Two titles give the same filename exactly when their first fifty characters agree. */
  lemma ImageFileNameIff(t1: string, t2: string)
    ensures ImageFileName(t1) == ImageFileName(t2) <==> TitleHead(t1) == TitleHead(t2)
  {
    var n1, n2 := ImageFileName(t1), ImageFileName(t2);
    if n1 == n2 {
      assert n1[6..|n1| - 4] == TitleHead(t1);
      assert n2[6..|n2| - 4] == TitleHead(t2);
    }
  }

  /** The path handed to the screenshot is "output/" followed by the filename. */
  lemma ImagePathUnderOutput(title: string)
    ensures PathJoin("output", ImageFileName(title)) == "output/" + ImageFileName(title)
  {
  }

  /** `save_image_from_element`: the filename once the screenshot is saved, the sentinel when saving fails. */
  function SaveImageFromElement(title: string, saveSucceeds: bool): (name: string)
    ensures name == NA <==> !saveSucceeds
    ensures saveSucceeds ==> |name| <= 60
    ensures saveSucceeds ==> name == ImageFileName(title)
  {
    if saveSucceeds then ImageFileName(title) else NA
  }

  // --- extract_news_data_and_store ---

  /** What the result page yields for one article card. */
  datatype ImageElement = NoImage | Image(saveSucceeds: bool)

  datatype PromoCard = PromoCard(
    interactable: bool,           // scrolling to the card and waiting for it succeed
    title: Option<string>,        // text of ".PagePromo-title span"; None when it cannot be read
    description: Option<string>,  // text of ".PagePromo-description span"
    date: Option<string>,         // text of ".PagePromo-date span"
    image: ImageElement)          // ".PagePromo-media img"

  /** A spreadsheet cell. */
  datatype Cell = Text(text: string) | Number(n: nat) | Flag(b: bool)

  const Header: seq<Cell> := [Text("Title"), Text("Date"), Text("Description"),
    Text("Image Filename"), Text("Search Phrases Count"), Text("Contains Money")]

  /** The phrases the extraction loop counts. */
  const SearchPhrases: seq<string> := ["COVID"]

  function ImageColumn(card: PromoCard): (cell: string)
    ensures cell == NA <==> card.image == NoImage || card.image == Image(false)
  {
    match card.image
    case NoImage => NA
    case Image(ok) => SaveImageFromElement(card.title.GetOr(NA), ok)
  }

  /** The row written for one card. */
  function ArticleRow(card: PromoCard): (row: seq<Cell>)
    ensures |row| == |Header|
    ensures row[0].Text? && row[1].Text? && row[2].Text? && row[3].Text? && row[4].Number? && row[5].Flag?
  {
    var title := card.title.GetOr(NA);
    var description := card.description.GetOr(NA);
    [Text(title), Text(card.date.GetOr(NA)), Text(description), Text(ImageColumn(card)),
     Number(PhrasesCount(title, description, SearchPhrases)),
     Flag(ExtendedMoney.CheckMoneyInText(title + " " + description))]
  }

  function ArticleRows(cards: seq<PromoCard>): (rows: seq<seq<Cell>>)
    ensures |rows| == |cards|
    ensures forall k :: 0 <= k < |cards| ==> rows[k] == ArticleRow(cards[k])
  {
    seq(|cards|, k requires 0 <= k < |cards| => ArticleRow(cards[k]))
  }

  /** The rows of one more card are the rows so far and that card's row. */
  lemma ArticleRowsGrow(cards: seq<PromoCard>, i: nat)
    requires i < |cards|
    ensures ArticleRows(cards[..i + 1]) == ArticleRows(cards[..i]) + [ArticleRow(cards[i])]
  {
    assert cards[..i + 1][i] == cards[i];
    assert forall k :: 0 <= k < i ==> cards[..i + 1][k] == cards[..i][k];
  }

  /**
    `extract_news_data_and_store`: the header and one row per card, in page
    order, as handed to the workbook; None when scrolling to a card fails,
    which abandons the extraction before anything is saved.
   */
  method ExtractNewsDataAndStore(cards: seq<PromoCard>) returns (sheet: Option<seq<seq<Cell>>>)
    ensures sheet.Some? <==> forall k :: 0 <= k < |cards| ==> cards[k].interactable
    ensures sheet.Some? ==> sheet.value == [Header] + ArticleRows(cards)
  {
    var data: seq<seq<Cell>> := [];
    for i := 0 to |cards|
      invariant data == ArticleRows(cards[..i])
      invariant forall k :: 0 <= k < i ==> cards[k].interactable
    {
      var card := cards[i];
      if !card.interactable {
        return None;
      }
      var title, description, date, imgFilename := NA, NA, NA, NA;
      if card.title.Some? {
        title := card.title.value;
      }
      if card.description.Some? {
        description := card.description.value;
      }
      if card.date.Some? {
        date := card.date.value;
      }
      if card.image.Image? {
        imgFilename := SaveImageFromElement(title, card.image.saveSucceeds);
      }
      var searchPhrasesCount := CountSearchPhrases(title, description, ["COVID"]);
      var containsMoney := ExtendedMoney.CheckMoneyInText(title + " " + description);
      var row := [Text(title), Text(date), Text(description), Text(imgFilename),
                  Number(searchPhrasesCount), Flag(containsMoney)];
      assert row == ArticleRow(card);
      data := data + [row];
      ArticleRowsGrow(cards, i);
    }
    assert cards[..|cards|] == cards;
    sheet := Some([Header] + data);
  }

  /** One six-column row per card, in order. */
  lemma RowsShape(cards: seq<PromoCard>)
    ensures |ArticleRows(cards)| == |cards|
    ensures forall k :: 0 <= k < |cards| ==> |ArticleRows(cards)[k]| == |Header| == 6
  {
  }

  /**
    Each text column holds the sentinel exactly when its element is missing,
    or when the page itself shows "N/A"; the image column holds it exactly
    when there is no image or saving it fails.
   */
  lemma SentinelIff(card: PromoCard)
    ensures ArticleRow(card)[0] == Text(NA) <==> card.title.None? || card.title == Some(NA)
    ensures ArticleRow(card)[1] == Text(NA) <==> card.date.None? || card.date == Some(NA)
    ensures ArticleRow(card)[2] == Text(NA) <==> card.description.None? || card.description == Some(NA)
    ensures ArticleRow(card)[3] == Text(NA) <==> card.image.NoImage? || !card.image.saveSucceeds
  {
  }

  /** Each column depends only on the fields it is computed from. */
  lemma ColumnsIndependent(c: PromoCard, d: PromoCard)
    ensures c.title == d.title ==> ArticleRow(c)[0] == ArticleRow(d)[0]
    ensures c.date == d.date ==> ArticleRow(c)[1] == ArticleRow(d)[1]
    ensures c.description == d.description ==> ArticleRow(c)[2] == ArticleRow(d)[2]
    ensures c.title == d.title && c.image == d.image ==> ArticleRow(c)[3] == ArticleRow(d)[3]
    ensures c.title == d.title && c.description == d.description ==> ArticleRow(c)[4..] == ArticleRow(d)[4..]
  {
  }

  /** The image column is the sentinel in exactly as many rows as there are cards whose image is not saved. */
  lemma MissingImagesCounted(cards: seq<PromoCard>)
    ensures var rows := ArticleRows(cards);
      (set k | 0 <= k < |rows| && rows[k][3] == Text(NA)) ==
      (set k | 0 <= k < |cards| && (cards[k].image.NoImage? || !cards[k].image.saveSucceeds))
  {
    forall k | 0 <= k < |cards| {
      SentinelIff(cards[k]);
    }
  }

  /** The count column is non-zero exactly when "covid", in any case, occurs in the title or the description. */
  lemma CountColumnIff(card: PromoCard)
    ensures var title, description := card.title.GetOr(NA), card.description.GetOr(NA);
      ArticleRow(card)[4] != Number(0) <==>
        (exists i :: 0 <= i <= |title| && OccursAt(Lower(title), "covid", i)) ||
        (exists i :: 0 <= i <= |description| && OccursAt(Lower(description), "covid", i))
  {
    assert SearchPhrases[..0] == [];
    assert Lower("COVID") == "covid";
    PhraseHitsIff(card.title.GetOr(NA), card.description.GetOr(NA), "COVID");
  }

  /** The money column is what the pattern reports for title, one space, description. */
  lemma MoneyColumnIsSearch(card: PromoCard)
    ensures ArticleRow(card)[5] ==
      Flag(ExtendedMoney.PatternFound(card.title.GetOr(NA) + " " + card.description.GetOr(NA)))
  {
    ExtendedMoney.CheckMoneyInTextIsSearch(card.title.GetOr(NA) + " " + card.description.GetOr(NA));
  }

  /** A card from which nothing can be read still gives a full row of sentinels. */
  lemma AllMissingRow(card: PromoCard)
    requires card.title.None? && card.description.None? && card.date.None? && card.image.NoImage?
    ensures ArticleRow(card) == [Text(NA), Text(NA), Text(NA), Text(NA), Number(0), Flag(false)]
  {
    var t := NA + " " + NA;
    assert !ExtendedMoney.CheckMoneyInText(t) by {
      assert forall k :: 0 <= k < |t| ==> t[k] in "N/A ";
    }
    assert SearchPhrases[..0] == [];
  }

  // --- click_element_with_retry ---

  /**
    `click_element_with_retry`: tries to click until an attempt succeeds,
    at most `retries` times, and returns normally either way.
    `attempt(k)` is whether the k-th attempt (from 0) finds, waits for and
    clicks the element; the results are how many attempts were made and
    whether one of them clicked.
   */
  method ClickElementWithRetry(attempt: nat -> bool, retries: int := 3) returns (attempts: nat, clicked: bool)
    ensures attempts <= if retries > 0 then retries else 0
    ensures clicked <==> exists k :: 0 <= k < retries && attempt(k)
    ensures clicked ==> 0 < attempts && attempt(attempts - 1) &&
                        forall k :: 0 <= k < attempts - 1 ==> !attempt(k)
    ensures !clicked ==> attempts == if retries > 0 then retries else 0
  {
    var n: nat := if retries > 0 then retries else 0;
    for a := 0 to n
      invariant forall k :: 0 <= k < a ==> !attempt(k)
    {
      if attempt(a) {
        return a + 1, true;
      }
    }
    return n, false;
  }
}
