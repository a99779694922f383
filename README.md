# News-scraping robot: the string rules, modelled in Dafny

The robot searches a news site in a browser, reads the result cards and writes
one spreadsheet row per article. This model covers the small deterministic
rules that decide what goes into those rows:

- the keyword counter, a case-insensitive `str.count` over the title and the
  description, summed over the phrases;
- the two currency detectors, two different `re.search` patterns. Each
  pattern's language is written out as predicates, one per alternative.
  `PatternFound` says that some substring of the text is in that language.
  A hand-written scan is proved to decide exactly `PatternFound`;
- the category-name table with its default;
- the image filename `image-<first 50 characters of the title>.png`, and
  the basename column `img_url.split('/')[-1]`;
- the row-building loops of both scrapers, with the `"N/A"` sentinel of the
  extraction loop and the exceptions of `extract_article_info`;
- the filter on publication dates, and the bounded click retry.

Browser results are inputs to the model:
- what each result card yields, as optional fields;
- whether each click attempt succeeds, as a function `attempt: nat -> bool`;
- the current instant, and the date parser `parse: string -> Option<int>`.

Instants are integers counting microseconds since `datetime.min`
(0001-01-01 00:00), the resolution of Python's `datetime`, and never beyond
`datetime.max` (9999-12-31 23:59:59.999999). Within that range the
comparison with `now - timedelta(days=30 * months)` is exact. Where
`timedelta` or the subtraction would leave the range, Python raises
OverflowError before any card is read. The model returns the error
`DateOverflow` there: with `now` in 2026, that is any `months` above about
24,600, and any `months` beyond 121,735 in either direction whatever `now` is.

Files and modules:
- `wrappers.dfy` (`Wrappers`): `Option` and `Result`.
- `py_text.dfy` (`PyText`): the Python builtins the rules use:
  - the regex classes `\d` and `\s`;
  - `str.lower`, `str.count`, `str.split` on one character;
  - POSIX `os.path.join` and `str(bool)`.
- `extended_money.dfy` (`ExtendedMoney`): the pattern of `check_money_in_text`.
- `scraper_money.dfy` (`ScraperMoney`): the pattern of `extract_article_info`.
- `extended_selenium.dfy` (`ExtendedSelenium`): the rules of `ExtendedSelenium.py`.
- `news_scraper.dfy` (`NewsScraper`): the rules of `news_scraper.py`.

Three behaviours of the code worth knowing:
- The keyword count adds a count over the title and a separate count over the
  description. It does not count matches in their concatenation, so a
  phrase split across the two fields scores nothing (see
  `ExtendedSelenium.NoMatchAcrossFields`).
- `check_money_in_text` accepts exactly one whitespace character between the
  digits and "dollars"/"usd". "50  dollars", with two spaces, is not money.
- The extraction loop counts the fixed phrase list `["COVID"]`. It does not
  count the search phrase the run was started with.

## Model

| member | source | states |
|---|---|---|
| PyText.LowerChar | ExtendedSelenium.py:435-436 | `c.lower()` for one character: no upper-case ASCII letter is left, and only A-Z change, each to the letter 32 code points on |
| PyText.Lower | ExtendedSelenium.py:435-436 | `s.lower()`: the same length, and no upper-case ASCII letter left |
| PyText.Count | ExtendedSelenium.py:435-436 | `text.count(pat)`, scanning left to right and resuming after each match; an empty pattern counts the length plus one, a pattern longer than the text counts zero |
| PyText.CountPositiveIff | ExtendedSelenium.py:435-436 | `str.count` of a non-empty pattern is positive exactly when the pattern occurs in the text |
| PyText.CountBound | ExtendedSelenium.py:435-436 | matches counted by `str.count` never overlap: count times pattern length is at most the text length |
| PyText.Split | news_scraper.py:60 | `split('/')` yields at least one piece, no piece holds a '/', and joining the pieces with '/' gives back the string |
| PyText.LastPiece | news_scraper.py:60 | the last piece of `split('/')` is the suffix after the last '/', or the whole string |
| PyText.PathJoin | news_scraper.py:49-51 | POSIX `os.path.join(a, b)`: a second part starting with '/' replaces the first; otherwise the first part is kept as the prefix, and the result always has the second part's length or more |
| PyText.PathJoinSuffix | news_scraper.py:49-51 | `os.path.join(a, b)` always ends with `b` |
| PyText.BoolStr | news_scraper.py:61 | `str(b)` is one of "True" and "False" |
| PyText.BoolStrIff | news_scraper.py:61 | `str(b)` is "True" exactly for True and "False" exactly for False |
| ExtendedMoney.ScanFrom | ExtendedSelenium.py:449-450 | the scan from index i is true exactly when a money shape starts at some index at or after i |
| ExtendedMoney.CheckMoneyInText | ExtendedSelenium.py:449-450 | true exactly when the text holds a '$' followed by a digit, or a digit, one whitespace character and "dollars"/"usd" in any case |
| ExtendedMoney.MatchStartsWithShape | ExtendedSelenium.py:449 | every substring in the pattern's language starts with one of those two short shapes |
| ExtendedMoney.ShapeStartsMatch | ExtendedSelenium.py:449 | every such shape begins a substring in the pattern's language |
| ExtendedMoney.CheckMoneyInTextIsSearch | ExtendedSelenium.py:449-450 | the scan agrees with `re.search` of the full pattern with IGNORECASE on every text |
| ExtendedMoney.ExampleAmount | ExtendedSelenium.py:449-450 | "$12,345.67" matches |
| ExtendedMoney.ExampleWord | ExtendedSelenium.py:449-450 | "50 dollars" matches |
| ExtendedMoney.ExampleTwoSpaces | ExtendedSelenium.py:449-450 | "50  dollars", with two spaces, does not match |
| ScraperMoney.ScanFrom | news_scraper.py:37-38 | the scan from index i is true exactly when a money shape starts at some index at or after i |
| ScraperMoney.SkipSpaces | news_scraper.py:37 | `\s*` run: the result is the first non-whitespace index at or after k, with only whitespace before it |
| ScraperMoney.WordSpanSkips | news_scraper.py:37 | a unit after a digit can only start where the whitespace run after the digit ends |
| ScraperMoney.MoneyHere | news_scraper.py:37 | the check at index i is true exactly when a '$' and a digit, or a digit, any whitespace and "dollar"/"USD", start at i |
| ScraperMoney.CheckMoney | news_scraper.py:37-38 | true exactly when such a shape starts somewhere in the text, case-sensitively |
| ScraperMoney.MatchStartsWithShape | news_scraper.py:37 | every substring in the pattern's language starts with one of the two shapes |
| ScraperMoney.ShapeStartsMatch | news_scraper.py:37 | every such shape begins a substring in the pattern's language |
| ScraperMoney.CheckMoneyIsSearch | news_scraper.py:37-38 | the scan agrees with `re.search` of the full case-sensitive pattern on every text |
| ScraperMoney.FoundInLeft | news_scraper.py:38 | a shape in the title is still one once the description is appended |
| ScraperMoney.FoundInRight | news_scraper.py:38 | a shape in the description is still one once the title is prepended |
| ScraperMoney.FoundInParts | news_scraper.py:38 | money found in either part is found in the two concatenated |
| ScraperMoney.ExampleNoSpace | news_scraper.py:37-38 | "5dollar" matches |
| ScraperMoney.ExampleLowerUsd | news_scraper.py:37-38 | "5 usd" does not match |
| ExtendedSelenium.CountSearchPhrases | ExtendedSelenium.py:433-437 | the loop returns the sum over the phrases of the lowered phrase's count in the lowered title plus its count in the lowered description; 0 for no phrases |
| ExtendedSelenium.PhraseHits | ExtendedSelenium.py:435-436 | the hits of one phrase, lowered counts in the title plus in the description; an empty phrase adds both lengths plus two |
| ExtendedSelenium.PhrasesCount | ExtendedSelenium.py:433-437 | the hits summed over the phrase list: zero exactly when no phrase scores |
| ExtendedSelenium.PhrasesCountAppend | ExtendedSelenium.py:433-437 | the count over two lists written one after the other is the sum of their counts |
| ExtendedSelenium.EmptyPhraseHits | ExtendedSelenium.py:435-436 | an empty phrase adds the length of each field plus one per field |
| ExtendedSelenium.PhraseHitsIff | ExtendedSelenium.py:435-436 | a non-empty phrase scores exactly when it occurs, ignoring case, in the title or the description |
| ExtendedSelenium.PhraseHitsBound | ExtendedSelenium.py:435-436 | a non-empty phrase scores at most total field length divided by its length |
| ExtendedSelenium.PhrasesCountIgnoresCase | ExtendedSelenium.py:435-436 | lowering the fields first does not change the count |
| ExtendedSelenium.NoMatchAcrossFields | ExtendedSelenium.py:435-436 | "Co" / "vid" scores 0 for ["COVID"], although "Covid" written together would score 1 |
| ExtendedSelenium.GetCategoryValue | ExtendedSelenium.py:476-483 | a name in the table gives its entry, a name the table lacks gives the "Stories" id, so the result is always one of the table's ids |
| ExtendedSelenium.CategoryValues | ExtendedSelenium.py:476-483 | the five entries of the table and the "Stories" default |
| ExtendedSelenium.CategoryValuesDistinct | ExtendedSelenium.py:476-482 | two different names of the table select two different ids |
| ExtendedSelenium.TitleHead | ExtendedSelenium.py:409 | `title[:50]`: a prefix of the title, at most 50 characters, and the whole title when it is shorter |
| ExtendedSelenium.ImageFileName | ExtendedSelenium.py:409 | the filename starts with "image-", ends with ".png" and has 10 to 60 characters |
| ExtendedSelenium.ImageFileNameIff | ExtendedSelenium.py:409 | two titles give the same filename exactly when their first 50 characters agree |
| ExtendedSelenium.ImagePathUnderOutput | ExtendedSelenium.py:410 | the image is written at "output/" followed by the filename |
| ExtendedSelenium.SaveImageFromElement | ExtendedSelenium.py:408-419 | the result is "N/A" exactly when saving fails, and otherwise exactly the filename `image-<title[:50]>.png` |
| ExtendedSelenium.ImageColumn | ExtendedSelenium.py:353-359 | the image cell is "N/A" exactly when the card has no image or saving it fails |
| ExtendedSelenium.ArticleRow | ExtendedSelenium.py:331-371 | one card's row: as many cells as the header, four texts, then the count, then the money flag |
| ExtendedSelenium.ArticleRows | ExtendedSelenium.py:315-371 | one row per card, the k-th row being the k-th card's row |
| ExtendedSelenium.ExtractNewsDataAndStore | ExtendedSelenium.py:310-391 | with every card reachable, the header followed by one row per card in page order; nothing when scrolling to a card fails |
| ExtendedSelenium.RowsShape | ExtendedSelenium.py:315-371 | one row per card, each with as many cells as the six-name header |
| ExtendedSelenium.SentinelIff | ExtendedSelenium.py:331-359 | title, date and description are "N/A" exactly when missing or shown as "N/A"; the image cell exactly when there is no image or saving fails |
| ExtendedSelenium.ColumnsIndependent | ExtendedSelenium.py:331-371 | each cell depends only on the fields it is computed from, so one missing field degrades no other column |
| ExtendedSelenium.MissingImagesCounted | ExtendedSelenium.py:353-359 | the rows whose image cell is "N/A" are exactly the cards whose image is missing or not saved |
| ExtendedSelenium.CountColumnIff | ExtendedSelenium.py:362-363 | the count cell is non-zero exactly when "covid" occurs, in any case, in the title or the description, sentinels included |
| ExtendedSelenium.MoneyColumnIsSearch | ExtendedSelenium.py:366-367 | the money cell is `re.search` of the pattern on title, one space, description |
| ExtendedSelenium.AllMissingRow | ExtendedSelenium.py:331-371 | a card yielding nothing still gives the row "N/A", "N/A", "N/A", "N/A", 0, False |
| ExtendedSelenium.ClickElementWithRetry | ExtendedSelenium.py:90-107 | with `retries` 3 unless given, at most `retries` attempts (none when `retries` is not positive), stopping at the first success; without a success, exactly `retries` failed attempts and a normal return |
| NewsScraper.ContainsMoney | news_scraper.py:37-38 | the flag is `re.search` of the pattern on title and description concatenated without separator |
| NewsScraper.ExtractArticleInfo | news_scraper.py:30-46 | all four elements present gives the record of their texts and the money flag; otherwise the first missing selector in lookup order is the error |
| NewsScraper.MoneyInEitherField | news_scraper.py:38 | money in the title alone or in the description alone sets the flag |
| NewsScraper.MoneyAcrossBoundary | news_scraper.py:38 | "5" and "USD" set the flag although neither holds a match |
| NewsScraper.JoinDiffersFromExtractionLoop | news_scraper.py:38 | "$" and "5" set this flag, while the extraction loop's " " join and pattern see no money |
| NewsScraper.ImageFilename | news_scraper.py:60 | the cell is a suffix of the URL with no '/', either the whole URL or standing right after a '/' |
| NewsScraper.ImageFilenameUnique | news_scraper.py:60 | any string with those three properties is that cell |
| NewsScraper.ImageFilenameCases | news_scraper.py:60 | a URL without '/' is its own filename; a URL ending in '/' gives "" |
| NewsScraper.TableRow | news_scraper.py:56-62 | a row has one cell per column, the first three being title, date and description |
| NewsScraper.TableRowShape | news_scraper.py:56-62 | five cells, the filename cell without '/', the money cell "True"/"False" matching the flag |
| NewsScraper.ExcelPath | news_scraper.py:49-51 | the workbook path always ends with `<search_phrase>_news.xlsx` |
| NewsScraper.ExcelPathInOutput | news_scraper.py:49-51 | a phrase not starting with '/' gives cwd/output/<phrase>_news.xlsx |
| NewsScraper.ExcelPathAbsolutePhrase | news_scraper.py:49-51 | a phrase starting with '/' makes `os.path.join` drop the directory |
| NewsScraper.SaveToExcel | news_scraper.py:48-64 | the fixed five columns and exactly one row per record, in input order, with the output path |
| NewsScraper.Threshold | news_scraper.py:69 | `datetime.now() - timedelta(days=months * 30)` when it exists, an instant exactly that many microseconds back |
| NewsScraper.ThresholdNow | news_scraper.py:69 | zero months gives the current instant, never an overflow |
| NewsScraper.ThresholdIff | news_scraper.py:69 | the threshold exists exactly when it lands between `datetime.min` and `datetime.max`; the `timedelta` limit never decides |
| NewsScraper.ThresholdBounded | news_scraper.py:69 | any `months` beyond 121,735 in either direction raises OverflowError, whatever the current instant |
| NewsScraper.ThresholdAntitone | news_scraper.py:69 | where both thresholds exist, the threshold never moves forward when `months` grows |
| NewsScraper.ThresholdBetween | news_scraper.py:69 | the months that do not overflow form an interval |
| NewsScraper.FilterArticlesByDate | news_scraper.py:66-78 | the loop raises OverflowError when the threshold leaves the range of `datetime`, before reading any card; otherwise it returns the cards dated at or after now minus 30·months days, in order, or the first date failure |
| NewsScraper.DateOf | news_scraper.py:71-73 | a card's date is read exactly when it has a `time` element whose text parses, and is what the parser gives; a missing element fails with its selector, an unparsable text with that text |
| NewsScraper.ParseDates | news_scraper.py:71-73 | one date per card when all are read; a failure is never an overflow |
| NewsScraper.ArticlesSince | news_scraper.py:71-78 | the loop for a given threshold: it fails exactly when some date cannot be read, with that failure, and otherwise keeps at most all the cards |
| NewsScraper.FilteredArticles | news_scraper.py:66-78 | what the method returns or raises: the overflow error exactly when the threshold does not exist, whatever the cards |
| NewsScraper.ParseDatesOkIff | news_scraper.py:71-73 | the dates parse exactly when every card's date parses, and then they are those dates |
| NewsScraper.ParseDatesFirstError | news_scraper.py:71-73 | the failure raised is that of the first card whose date cannot be read |
| NewsScraper.KeepSince | news_scraper.py:71-78 | the filter never returns more cards than it is given |
| NewsScraper.KeepSinceSubsequence | news_scraper.py:71-78 | the kept cards are the input with some cards left out, order preserved |
| NewsScraper.KeepSinceMembers | news_scraper.py:75-76 | every kept card is dated at or after the threshold, and every such card is kept |
| NewsScraper.KeepSinceMonotone | news_scraper.py:75 | a lower threshold keeps a superset, in order |
| NewsScraper.FilterMonotoneInMonths | news_scraper.py:66-78 | where both thresholds exist, more months fails on the same inputs and otherwise keeps a superset in order, never more than the input; for months that are not negative, more months never removes an overflow |
| NewsScraper.FilterOverflowExample | news_scraper.py:66-78 | zero months on no cards returns an empty list, 121,736 months raises OverflowError even on no cards |

## Left out

- Browser interaction. `open_site`, `accept_cookies`, `close_all_popups`,
  `click_search_button`, `type_and_submit_search_query`,
  `click_and_select_category`, `wait_until_element_is_interactable`,
  `print_webdriver_log`, `quit_driver`, `search_news` and `close` are foreign
  WebDriver calls with timeouts. What they return enters the model as inputs.
- `select_sort_by_newest`. It reloads the page and calls itself while the live
  URL lacks "s=3", with no bound, so it depends on the browser.
- Screenshots, `os.makedirs`, the Excel workbook, `Table.save_to_file` and
  work-item files. These are I/O. The model stops at the rows, paths and
  filenames handed to them.
- `datetime.now()` and `strptime`. They enter as the instant `now`, within
  the range of `datetime`, and the function `parse`, which gives microseconds
  since 0001-01-01. Calendar parsing is not modelled.
- `tasks.py` (orchestration) and `CustomSelenium`. `CustomSelenium` is not
  part of this model.
- Unicode in `str.lower`, `\d` and IGNORECASE. These are modelled for ASCII
  only: letters A-Z, digits 0-9. Non-ASCII case folding is not modelled:
  under IGNORECASE 'ſ' (U+017F, long s) matches 's', so "50 dollarſ" and
  "5 uſd" are money for `check_money_in_text` but not for `ExtendedMoney`. `\s` is modelled in full, as
  the characters for which `str.isspace()` holds.
- Logging, and the order of the log messages.
- ExtractNewsDataAndStore: one `interactable` flag per card covers both the
  wait on that card (ExtendedSelenium.py:327-329) and the wait on it as the
  "next article" (374-377). The container lookup at 320-323 is not modelled:
  the cards are given.
- ExtractArticleInfo: an `img` element without a `src` attribute
  (`get_attribute` returning None) is not modelled. In the code it would
  raise later, at the `split` in save_to_excel.
- ClickElementWithRetry: the selector is not modelled. Each attempt's
  find, wait and click are one abstract outcome.
