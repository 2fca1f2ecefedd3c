# Backward news crawler for Diario Correo and Peru21, in Dafny

This project models the core of a news-collection tool. Two scrapers share it:
- `NewsScrapper` in `scrapper.py` crawls Diario Correo;
- `Peru21Scrapper` in `scrapper_peru21.py` crawls Peru21.

Each scraper walks the site's daily archive backwards, one day at a time, from a start date. It
appends one TSV row per article whose text is non-empty. It stops after a number of consecutive
days with no news. A later run can resume from the date in the file's first data row. The text
helpers of `utils/utils.py` are modelled as well.

The modules follow the program:

| module | what it holds |
|---|---|
| `Wrappers` | `Option` |
| `Decimal` | digit strings, for `strftime`/`strptime` fields and `str(page)` |
| `Calendar` | proleptic Gregorian days: `timedelta(days=1)` subtraction, `%Y-%m-%d` formatting and parsing |
| `Whitespace` | `str.strip`, `str.split()[0]`, and the `\s+` → `' '` collapse |
| `Markup` | the tag-stripping `clean_text` method |
| `Utils` | `utils/utils.py` |
| `Retry` | `_retry_request` as a function of the outcome of each attempt |
| `Site` | the configuration, the HTTP session (a class) and the retry loop, a method on it |
| `Listing` | `get_news_list` of each site: the URL, the filter from story block to news item, and Peru21's pagination |
| `Output` | the TSV file as a class with `Overwrite`/`Append`, and the resume read `_get_last_date_from_file` |
| `Articles` | `get_article_content`, `process_article` and the per-day fan-out |
| `Crawl` | `extract_historical` and `extract` |

The website is an oracle. Request number n of a session (counted from 0) gets the answer the
oracle fixes for it, for the page it asks for:
- a parsed archive page (its story blocks and whether it links to a next page);
- an article's body text;
- a `RequestException`;
- any other exception.

The session logs every request it makes, as a `Request` value. Its `waits` is a ghost log of
every `time.sleep`. From one retry run up to a whole crawl, the contracts state:
- which pages and articles were requested, in order;
- which sleeps were taken, in order: the retry backoffs and the crawl loop's own `retry_delay` waits;
- what each call returns, as a function of the oracle's answers.

The crawl loop is specified by a pure transition function on its four variables: `Step` for one
pass and `Run` for a sequence of passes. The imperative `Walk` is proved equal to `Run` over the
passes it made.

Two behaviours of the source are stated as lemmas:
- Resuming walks again over days already saved (`Crawl.ResumeRewalks`). The file is written
  newest day first, so its first data row holds the newest day of the earlier run, and the
  resumed run starts the day before that one.
- Peru21 dates an item by its own update-date block, not by the archive day
  (`Listing.Peru21FechaFromUpdate`).

## Model

| member | source | states |
|---|---|---|
| Decimal.NatToString | scrapper_peru21.py:130 | `str(page)`: digits only, at least one, denoting the page number, with no leading zero |
| Decimal.ValuePad | scrapper.py:120 | the zero-padded field written by `strftime` denotes the number modulo 10^width |
| Decimal.PadValue | scrapper.py:105 | an ASCII digit string read by `strptime` is its value zero-padded to its own width |
| Calendar.PrevDay | scrapper.py:255 | `date - timedelta(days=1)` fails exactly at 0001-01-01 |
| Calendar.PrevDayOrdinal | scrapper.py:255 | otherwise, the previous day's day number is one less |
| Calendar.DaysBeforeYearClosed | scrapper.py:255 | the year-by-year day count matches the closed leap-year formula 365p + p/4 - p/100 + p/400 |
| Calendar.OrdinalPositive | scrapper.py:255 | day numbers are positive, so 0001-01-01 is the earliest day |
| Calendar.Format | scrapper.py:120 | `%Y-%m-%d` gives ten characters: digits, with dashes at positions 4 and 7 |
| Calendar.MonthField | scrapper.py:105 | a month field that parses lies in 1..12 |
| Calendar.DayField | scrapper.py:105 | a day field that parses lies in 1..31 |
| Calendar.ParseFormat | scrapper.py:105 | `strptime` of `strftime(d)` is d again, for every day |
| Calendar.ParseYmd | scrapper.py:105 | `strptime(t, '%Y-%m-%d')`: an accepted text is 8 to 10 characters long, with four ASCII year digits, a dash, and a second dash later on; the day's year is the value of those four digits |
| Calendar.ShortFieldsAccepted | scrapper.py:105 | `strptime` also accepts single-digit and blank-led fields: "2025-1-5" and "2025-01- 5" both give 2025-01-05, and neither is the `strftime` form of any day |
| Calendar.FormatParse | scrapper.py:105 | a ten-character text without blanks that `strptime` accepts is the `strftime` form of its day |
| Whitespace.StripLeftShape | scrapper.py:57 | `lstrip` removes exactly the leading whitespace: a suffix of the input, everything before it whitespace, and empty or starting with a non-space |
| Whitespace.StripRight | scrapper.py:57 | removes exactly the trailing whitespace: a prefix of the input that is empty or ends with a non-space |
| Whitespace.CollapseShape | scrapper.py:56 | after `re.sub(r'\s+', ' ', t)` no two adjacent whitespace characters remain, every whitespace left is a blank, and a non-empty input starts with whitespace exactly when the output does |
| Whitespace.CollapseWords | scrapper.py:56 | `re.sub(r'\s+', ' ', t)` is the words of t joined by single blanks, with one blank in front when t begins with whitespace and one behind when it ends with whitespace after a word |
| Whitespace.WordsShape | scrapper.py:105 | `split()` gives no word exactly for an all-whitespace text, and every word is non-empty with no whitespace in it |
| Whitespace.CollapseKeeps | scrapper.py:56 | collapsing keeps every non-space character in order |
| Whitespace.Normalize | scrapper.py:56-57 | collapse then strip: normalized, and the same non-space characters in order |
| Whitespace.NormalizeWords | scrapper.py:56-57 | collapse then strip is exactly `' '.join(t.split())`: the same words, in order, with one blank between neighbours |
| Whitespace.StripCollapsed | scrapper.py:56-57 | stripping a collapsed text gives a normalized one |
| Whitespace.StripKeepsNonSpace | scrapper.py:57 | stripping keeps every non-space character |
| Whitespace.NormalizeFixes | utils/utils.py:73 | normalizing a normalized text changes nothing |
| Whitespace.CollapseFixes | utils/utils.py:73 | collapsing a collapsed text changes nothing |
| Whitespace.NormalizeDrawsFrom | utils/utils.py:47 | a normalized text draws its characters from the input plus the blank |
| Whitespace.FirstToken | scrapper.py:105 | `split()[0]`: absent exactly for an all-whitespace text; otherwise a non-empty run of non-space characters |
| Whitespace.FirstTokenOfWord | scrapper.py:105 | the first token of a single word is the word itself |
| Whitespace.FirstTokenBeforeSpace | scrapper.py:105 | a word followed by whitespace, or by nothing, is the first token |
| Markup.TagEnd | scrapper.py:54 | finds the match of `<[^>]+>` at the front: the first `>` after a `<`, with at least one character between them |
| Markup.StripTags | scrapper.py:54 | removing tags never lengthens the text and adds no `>` |
| Markup.StripTagsKeepsPlain | scrapper.py:54 | text with no `<` in it is copied unchanged, whatever follows |
| Markup.StripTagsDropsTag | scrapper.py:54 | a whole tag `<m>`, m non-empty without `>`, is deleted and the scan goes on after it |
| Markup.StripTagsLeavesNoTag | scrapper.py:54 | no tag is left after stripping |
| Markup.StripTagsFixes | scrapper.py:54 | a text with no tag is left unchanged |
| Markup.StripTagsIdempotent | scrapper.py:54 | stripping twice is stripping once |
| Markup.CleanText | scrapper.py:51-57 | "" for "", otherwise normalized whitespace with the non-space characters of the de-tagged, de-emojied text (the same method in scrapper_peru21.py:53-59) |
| Markup.CleanTextWords | scrapper.py:51-57 | for non-empty text, the words of the de-tagged, de-emojied text joined by single blanks (scrapper_peru21.py:53-59 alike) |
| Utils.UnmarkedMember | utils/utils.py:34 | a character is kept exactly when it occurs in the decomposed text and is not a combining mark |
| Utils.UnmarkedAppend | utils/utils.py:34 | the filter keeps order: the text of a concatenation is the concatenation of the filtered parts |
| Utils.UnmarkedFixes | utils/utils.py:34 | a text with no combining mark is kept as it is |
| Utils.StripAccentsKeeps | utils/utils.py:31-34 | "" for a non-string; otherwise exactly the non-mark characters of the NFD decomposition remain |
| Utils.StripAccentsFixes | utils/utils.py:31-34 | a text that NFD leaves alone and that has no mark comes back unchanged |
| Utils.DigitRunsNoDigit | utils/utils.py:45 | no ASCII digit remains |
| Utils.DigitRunsOfRun | utils/utils.py:45 | a whole run of ASCII digits becomes one blank in front of the rest |
| Utils.DigitRunsCons | utils/utils.py:45 | a character other than an ASCII digit in front is copied as it is (with DigitRunsOfRun and the empty text, this fixes the whole substitution) |
| Utils.DigitRunsFixes | utils/utils.py:45 | a text without ASCII digits is kept as it is |
| Utils.MaskNonLetters | utils/utils.py:46 | same length; every a–z letter and every whitespace character stays where it was, and every other character becomes a blank |
| Utils.NormalizeLetters | utils/utils.py:46-47 | after masking and collapsing, only a–z and single blanks remain |
| Utils.RegexClean | utils/utils.py:36-48 | "" for a non-string; otherwise only a–z and single blanks, with no space at either end |
| Utils.RegexCleanWords | utils/utils.py:36-48 | for a string: the maximal runs of a–z letters of the lower-cased, accent-stripped, substituted text, in order, joined by single blanks |
| Utils.RegexCleanLetters | utils/utils.py:36-48 | for a string: the non-space characters of the result are exactly the a–z letters of that text, in order |
| Utils.DigitRunsWords | utils/utils.py:45-47 | turning digit runs into blanks changes none of the a–z words, nor whether the text begins with a letter |
| Utils.MaskWords | utils/utils.py:46-47 | after masking, the words are the runs of a–z letters |
| Utils.BlankLetters | utils/utils.py:46-47 | blanking everything outside a–z keeps exactly the a–z letters as non-space characters |
| Utils.LowerChar | utils/utils.py:39 | a capital A–Z or Latin-1 capital (U+00C0–U+00DE but ×) becomes its small letter, 32 code points on; any other character is kept; no capital remains |
| Utils.RegexCleanLowersWord | utils/utils.py:39-47 | a single word of ASCII letters comes out lower-cased and otherwise unchanged |
| Utils.RegexCleanAccentedLetter | utils/utils.py:39-47 | a character whose small letter decomposes into an a–z letter and a combining mark comes out as that letter |
| Utils.RegexCleanCapitalU | utils/utils.py:39-47 | "Ú" comes out as "u" when NFD splits "ú" into u and the combining acute |
| Utils.RemoveMarkers | utils/utils.py:50-74 | an empty marker list or a non-string input is returned unchanged; otherwise the result is a normalized string |
| Utils.RemoveMarkersWords | utils/utils.py:50-74 | with markers, a string becomes the words left by the substitutions, joined by single blanks |
| Utils.CleanText | utils/utils.py:76-79 | "" for a non-string; otherwise only a–z and single blanks, with no space at either end |
| Utils.CleanTextWords | utils/utils.py:76-79 | for a string: the a–z words of what `regex_clean` makes of the marker-free text, joined by single blanks |
| Utils.Present | utils/utils.py:82 | never more strings than tokens |
| Utils.PresentMember | utils/utils.py:82 | a string is kept exactly when some token holds it: the None tokens are the ones dropped |
| Utils.JoinNonSpace | utils/utils.py:82 | joining with blanks keeps every token's non-space characters, in order |
| Utils.ReplaceKeepsNonSpace | utils/utils.py:84 | removing the blank before a mark keeps every non-space character |
| Utils.ReplaceMarksKeepsNonSpace | utils/utils.py:83-84 | the loop over all six marks keeps every non-space character |
| Utils.FormatSentence | utils/utils.py:81-91 | the loop over the marks computes the sentence that `Formatted` specifies |
| Utils.FormattedEndsWithMark | utils/utils.py:86-87 | with final punctuation on, a non-empty sentence ends with one of `.!?` |
| Utils.FormattedOfNothing | utils/utils.py:82-89 | tokens that are all None or "" give the empty sentence, whatever the flags |
| Utils.FinalPunctOnlyAppends | utils/utils.py:86-87 | final punctuation only appends: a `.` after a non-empty sentence that ends in none of `.!?`, else nothing |
| Utils.CapitalizeOnlyFirst | utils/utils.py:88-89 | capitalization changes at most the first character |
| Utils.FormattedKeepsText | utils/utils.py:82-85 | the sentence has the tokens' non-space characters, in order |
| Retry.RetryFromShape | scrapper.py:63-76 | from any attempt on: calls made, which of them raised a `RequestException`, the doubling sleeps, and which call decides the result |
| Retry.RetryPolicy | scrapper.py:59-77 | `max_retries <= 0`: no call and None. Otherwise 1..max_retries calls, all but the last raised a `RequestException`, sleeps `retry_delay * 2^i`, and the last call decides the result; a network failure is re-raised only on the last allowed call (the same wrapper in scrapper_peru21.py:61-79) |
| Retry.AttemptDecides | scrapper.py:63-76 | one attempt either ends the run (value, other exception, or the last `RequestException`) or leaves the next attempt pending |
| Retry.ValueOfLastCall | scrapper.py:65 | a returned value is the last call's value |
| Retry.ScheduleIndex | scrapper.py:68 | the i-th sleep is `retry_delay * 2**i` |
| Retry.ScheduleDoubles | scrapper.py:68 | each sleep is twice the one before it |
| Site.DefaultConfig | scrapper.py:17-29 | the default settings use the scraper's own `clean_text` |
| Site.Session.Get | scrapper.py:123-124 | a request gets the oracle's answer for its index, and is logged |
| Site.Session.Sleep | scrapper.py:70 | a sleep is logged and changes nothing else |
| Site.RetryRequest | scrapper.py:59-77 | the loop returns `RetryCall`'s result, requests once per attempt, and sleeps by its schedule |
| Listing.ArchiveUrlDistinct | scrapper_peru21.py:127-130 | different days or different pages give different archive URLs |
| Listing.ArchiveUrlInjective | scrapper_peru21.py:127-130 | the URL determines the ten-character day text and the page |
| Listing.PageSuffixInjective | scrapper_peru21.py:130 | the page part of the URL determines the page |
| Listing.UpdateDateWord | scrapper_peru21.py:174-180 | Peru21's `fecha` is the archive day when the update block is missing or blank, and otherwise the first word of its stripped text |
| Listing.BuildItemFilter | scrapper.py:128-149 | Diario Correo keeps a block exactly when it has a title link with a non-empty cleaned title and a non-empty joined URL, and dates it with the archive day; Peru21 (scrapper_peru21.py:150-188) exactly when it has a link, an `h2`, a non-empty cleaned title and a non-empty joined URL, and dates it by the update block |
| Listing.BuildItemValid | scrapper.py:143-149 | every item kept has a non-empty title and URL, and its `fecha` is a single word |
| Listing.CollectItems | scrapper.py:128-149 | the loop over story blocks appends the page's items, in page order |
| Listing.ItemsEmpty | scrapper.py:128-149 | a page gives no item exactly when every one of its blocks is skipped |
| Listing.ItemsValid | scrapper.py:128-149 | every item of a page is valid |
| Listing.Peru21FechaFromUpdate | scrapper_peru21.py:174-180 | an item listed under one day whose update block reads another day is dated that other day |
| Listing.UpdateDateOfWord | scrapper_peru21.py:174-178 | an update text that starts with a word followed by whitespace gives that word |
| Listing.FormatInjective | scrapper.py:120 | different days give different `%Y-%m-%d` texts |
| Listing.CorreoNewsList | scrapper.py:116-156 | None exactly when the retries ended in a `RequestException` or were never made; [] on any other exception; otherwise the page's items. One request per attempt |
| Listing.Peru21ListedNone | scrapper_peru21.py:133-140 | Peru21's list is None exactly when page 1 failed on the network or was never requested |
| Listing.Peru21KeepsEarlierPages | scrapper_peru21.py:197-202 | whatever ends the listing, the items of the pages already read are kept, first and in order |
| Listing.ListedStep | scrapper_peru21.py:133-200 | the result after the last page read, for each way that page ended |
| Listing.PagesValid | scrapper_peru21.py:150-188 | every item of every page read is valid |
| Listing.ReadPage | scrapper_peru21.py:127-140 | one page through the retry loop, answered by the request after those of the earlier pages; a page past the site's last one has no next link |
| Listing.Peru21NewsList | scrapper_peru21.py:118-202 | pages 1, 2, … until one has no story block, no next link, or a failed request; returns `Listed` of the pages read, with the exact request and sleep logs |
| Listing.GetNewsList | scrapper.py:116-156 | the list is `Listed` of the listing run of the date's archive from the session's next request; every item is valid for the day; the session logs exactly that run's requests and sleeps (scrapper_peru21.py:118-202 alike) |
| Listing.ListedNoneIff | scrapper.py:151-153 | the list is None exactly when the retry run of page 1 ended in a `RequestException` or was never tried, and with `max_retries >= 1` the first request is page 1 of that day (scrapper_peru21.py:133-140 alike) |
| Listing.OnePageListed | scrapper.py:116-156 | a single page read gives its items, [] on another exception, and None on a network failure or no attempt |
| Output.TsvFile.Overwrite | scrapper.py:220-223 | a new file holds the header alone |
| Output.TsvFile.Append | scrapper.py:180-184 | appends exactly the one row and creates the file if needed |
| Output.ColumnOf | scrapper.py:89-95 | the first position of the `fecha` column, or none when the header lacks it |
| Output.LastDate | scrapper.py:79-114 | a date is read only from a present file with a `fecha` column and at least one data row |
| Output.ResumeRoundTrip | scrapper.py:101-106 | a file whose first row was written for day d gives back d |
| Output.LastDateOfFirstToken | scrapper.py:101-106 | when the first token of the shown cell parses, that date is the one read back |
| Articles.ArticleContent | scrapper.py:158-176 | "" on any exception and None only when no attempt was made; truthy exactly when the body block's cleaned text is non-empty, and then equal to it |
| Articles.GetArticleContent | scrapper.py:158-176 | one retry run of the article's request, with the result above |
| Articles.ProcessArticle | scrapper.py:178-185 | one retry run of the article's request, with exactly its requests and backoff sleeps; appends the five-column row exactly when the text is truthy, and returns whether it did (scrapper_peru21.py:232-239 alike) |
| Articles.Saved | scrapper.py:245-252 | a day gives at most one row per item |
| Articles.SavedRows | scrapper.py:246-251 | the rows are as many as the successes; each has five columns, a non-empty `contenido`, and is the row of one of the day's items |
| Articles.SavedBounds | scrapper.py:246-251 | no success gives no row, and every item a success gives one row per item |
| Articles.ProcessDay | scrapper.py:245-252 | each item's text is the result of its own retry run; the runs follow one another from the session's next request, and the request and sleep logs grow by exactly theirs, in item order; the file gains exactly `Saved`; the count is the number of rows added |
| Articles.FetchLogsStep | scrapper.py:245-248 | one more item's run, begun where the runs before it ended, extends the request and sleep logs by exactly its own |
| Crawl.BackOrdinal | scrapper.py:254-264 | the step back is one day earlier, except at 0001-01-01, where the date stays |
| Crawl.Step | scrapper.py:227-264 | a None list changes nothing; an empty list adds one empty attempt; a non-empty one resets the count and adds the saved articles; both then count the day and step back |
| Crawl.BackNExact | scrapper.py:255 | k steps back lower the day number by k, unless 0001-01-01 stopped them |
| Crawl.RunCounts | scrapper.py:227-255 | `days_processed` counts the passes whose list was not None; `total_news` counts the articles saved; the date steps back once per such pass |
| Crawl.FailuresKeep | scrapper.py:233-237 | connection failures alone leave the loop's variables as they were |
| Crawl.EmptyDays | scrapper.py:239-242 | after k empty days, `empty_attempts` is k and the date is k days back |
| Crawl.EmptyDaysStop | scrapper.py:227-242 | with every day empty, the loop condition holds before each of k passes and fails after the last exactly when k is `max_empty_attempts` (0 when that is not positive) |
| Crawl.Plan | scrapper.py:197-212 | on resume of a present file with a date read: the day before it, appending, or the `OverflowError` at 0001-01-01; otherwise the start date or today, rewriting the file (scrapper_peru21.py:251-265 alike) |
| Crawl.ResumeRewalks | scrapper.py:197-212 | a resumed run starts the day before the newest saved day, so it re-queries older days already saved |
| Crawl.ResumeBefore | scrapper.py:202 | resuming from day d0 starts exactly one day before d0, which is no older than any older saved day |
| Crawl.LaterNotEpoch | scrapper.py:202 | a day later than another is not 0001-01-01, so the resume step does not overflow |
| Crawl.PlanResumes | scrapper.py:202 | a resume from any day but 0001-01-01 appends from the day before it |
| Crawl.SaveDay | scrapper.py:243-252 | on a non-empty list, the whole pass is an honest read of the site, a Found day with as many saved articles as rows appended, and the file gains exactly that day's `Saved` rows; the sleeps are the items' backoffs, in item order |
| Crawl.StepBack | scrapper.py:254-264 | the date steps one day back, or stays at 0001-01-01, where the loop sleeps `retry_delay` once; no request |
| Crawl.Pass | scrapper.py:228-264 | one pass reads the site's answer for the loop's date from the session's next request, moves the loop's variables by `Step` of its outcome, and appends exactly its rows; its sleeps are its listing's and its articles' backoffs, then one `retry_delay` after a None list or an overflowing step back |
| Crawl.FoundPass | scrapper.py:243-255 | the rest of a pass on a non-empty list: its articles, the reset count and the step back, with the same guarantees as `Pass` |
| Crawl.HonestGrows | scrapper.py:228-252 | later requests do not change what a pass read |
| Crawl.FailedPassIff | scrapper.py:229-237 | a pass counts as a failure (None) exactly when the retry run of page 1 of its day ended in a `RequestException` or was never tried, and with `max_retries >= 1` its first request is that page |
| Crawl.EmptyArchivePass | scrapper.py:239-242 | on a day whose archive page 1 always comes back without story blocks, the pass is an empty day and appends nothing |
| Crawl.PassRowsCount | scrapper.py:243-252 | a pass appends as many rows as its outcome says it saved |
| Crawl.AllRowsCount | scrapper.py:227-252 | the rows of all passes number the articles saved over them |
| Crawl.RowsTally | scrapper.py:227-252 | the rows the loop appended number `total_news` |
| Crawl.ListingOnlyHonest | scrapper.py:229-242 | a pass with a None or empty list read its listing run and nothing more, and appends nothing |
| Crawl.FetchedHonest | scrapper.py:229-252 | a pass with a non-empty list read its listing run, then each item's article run, one after another, with exactly their requests |
| Crawl.EmptySiteDays | scrapper.py:227-255 | on a site whose archive is empty for every day from the start back, the k-th pass asks for the day k days back, and every pass is an empty day |
| Crawl.EmptySiteStops | scrapper.py:227-242 | on such a site the loop makes at most `max_empty_attempts` passes, and exactly that many when it drained |
| Crawl.EmptyPasses | scrapper.py:239-255 | after k empty passes from a fresh count, `empty_attempts` is k and the date is k days back |
| Crawl.VisitedStep | scrapper.py:227-228 | a pass on the day the loop's date stands on, taken while the loop condition holds, extends the loop's passes, and the variables move by `Step` |
| Crawl.Prepare | scrapper.py:197-223 | the plan is that of the resume read; a new run rewrites the file with the header; a resumed or overflowing one leaves it untouched |
| Crawl.Walk | scrapper.py:227-264 | the passes read the site's answers for the days the loop's date stood on, one after another over the session's requests, which keep the requests logged before; the variables are `Run` of their outcomes; it ends with `empty_attempts >= max_empty_attempts` or at the interrupt, after at most `stopAfter` passes either way; the file gains exactly the passes' rows, `total_news` of them; the sleep log grows by the passes' sleeps, pass after pass |
| Crawl.Advance | scrapper.py:228-255 | one pass keeps the loop invariant, the sleep log included, and keeps the requests logged before |
| Crawl.WalkStep | scrapper.py:228-255 | one more honest pass on the loop's date keeps the invariant: variables, passes, request chain and rows |
| Crawl.ExtractHistorical | scrapper.py:187-266 | the plan, then the loop from its day with `Walk`'s guarantees, earlier requests kept and at most `stopAfter` passes; the file ends as the header or the old rows, followed by the passes' rows, and the sleeps are the passes'; an overflowing resume makes no request, takes no sleep and changes nothing (scrapper_peru21.py:241-320 alike) |
| Crawl.Extract | scrapper.py:268-288 | one honest pass on the date after the requests logged before, which stay; a None or empty list leaves the file alone and returns 0, 0; otherwise the file is the header followed by exactly the listed items' rows with non-empty text, and `successful` of `total` listed items were saved; the sleeps are the listing's and the articles' backoffs (scrapper_peru21.py:322-342 alike) |

## Left out

- The HTTP requests, `raise_for_status`, the request timeout and the BeautifulSoup parse: the site is an oracle that hands over parsed pages, article texts or exceptions.
- Threads: `ThreadPoolExecutor`, `as_completed` and the write lock. The articles of a day are processed one after another, in item order, so the model fixes one interleaving; the row order of a concurrent run is not captured.
- `_print_progress` and `_is_jupyter`: console output only.
- `time.sleep`: recorded in a ghost log of seconds; no time passes.
- `datetime.now()`: a parameter (`now`).
- `KeyboardInterrupt`: a pass budget `stopAfter`. The interrupt arrives only between passes, never part-way through a request or a write.
- pandas `read_csv`, `parse_dates` and `pd.to_datetime`: the parameters `shown` (how pandas shows the `fecha` cell) and `fallback` (the `to_datetime` fallback). The time of day of every date is dropped: the source reads a date only through `strftime('%Y-%m-%d')` (scrapper.py:120, 144, 228) and moves it by whole days.
- demoji, `urljoin`, the marker regexes of `remove_markers` and the URL, domain, handle and quote substitutions of `regex_clean`: functions given as parameters.
- The Unicode tables: `unicodedata.normalize("NFD", …)` is the parameter `nfd`, and the category test `== "Mn"` is the parameter `isMark`.
- Utils.Lower: `str.lower` is modelled on ASCII and Latin-1, which covers the accented capitals of Spanish. Other capitals (Latin Extended, Greek, Cyrillic) map to themselves, so `regex_clean` blanks them where Python would keep their base letter; the one-to-two mapping of "İ" is not modelled either.
- `upper` and `capitalize` in `format_sentence`: ASCII letters only; other characters map to themselves.
- Utils.DigitRuns: `\d` is taken as the ASCII digits 0–9, where Python's `\d` also matches the other Unicode decimal digits. The `[^a-z\s]` pass blanks those anyway, so `RegexCleanWords` fixes the same result.
- Utils.RemoveMarkers: states the shape of the result (normalized whitespace), not which marker segments were removed.
- A Peru21 exception raised part-way through a page's items: modelled as an exception for the whole page, which keeps the earlier pages' items. The items of that page read before the failure are not kept.
- File write errors and CSV/TSV quoting: a row is the list of its cells.
- `Config.clean` stands for the scraper's `clean_text`; `Site.CleansWith` ties it to `Markup.CleanText`, and `Site.DefaultConfig` builds it that way.
- `clickbait_generator.py`, `clickbait_dataset_builder.py` and `ejemplo_uso_scrapers.py`: callers of the core, not part of this model.
- Calendar.ParseYmd: reads ASCII digits only. `strptime`'s `\d` also matches the other Unicode decimal digits, and `int()` converts them, so a date written in such digits is read by Python but goes to `fallback` in the model. Such a date could reach the resume read through a Peru21 `fecha` (scrapper_peru21.py:178).
- `if last_date:` in the resume: a `datetime` is always truthy, so it is modelled as "a date was read".
- A loop whose listing fails on every pass runs forever in the source. `Walk` models this with the `stopAfter` budget, and a None pass leaves the loop's variables unchanged (`Crawl.FailuresKeep`).
- Peru21NewsList: requires `Session.Finite()`, which says no archive page at or past `lastPage` links to a next one. On a site where every archive page has stories and a next link, the `while True:` of scrapper_peru21.py:126 never reaches a break (191-193) and the source never returns; the model does not capture that run.
