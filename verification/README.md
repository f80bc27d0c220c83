# GoodReadsWebScraper crawl core in Dafny

GoodReadsWebScraper crawls Goodreads book pages. It starts from one book URL and, on each page:
- records the title, series, contributors and URL as one line of `data.csv`;
- appends the book's id to the ledger `scraped.txt`;
- follows the first related book whose id is not yet in the ledger.

It stops when no such book exists or when the page counter hits its limit.

This project models the logic of `main.py` that comes after the HTML has been parsed. It proves what that logic guarantees.

- `wrappers.dfy`: `Option`.
- `text.dfy` (`Text`): Python's `str.split` and `str.join` for a one-character separator. The idioms `s.split(d)[0]` and `s.split(d)[-1]` are the functions `Before` and `After`. They are linked to `Split` by lemmas, with the round trips between `Split` and `Join`.
- `urls.dfy` (`Urls`): `clean_url` and `id`.
- `book_page.dfy` (`BookPage`): `scrape` after parsing.
  - The page is the datatype `Page`. It holds the title, the optional series, the contributor names and the related hrefs. An href may be missing, which is `None`.
  - The functions cover the series column, the contributors column, the choice of `next`, and the CSV line.
  - The value `scrape` returns as `next`, which becomes `url`, is a `Cursor`: a URL or `None`.
  - `scrape` can raise in two ways:
    - An anchor without `href` reaches `clean_url(None)`.
    - There are no related anchors. The `for` loop binds `next`, so `next` is a local of `scrape`. With nothing to loop over it is never bound, and `return csv_line, next` raises.
- `crawler.dfy` has two modules:
  - `Crawler`: the `while` loop as a total function `Loop`, parameterised by its body. `Body` is the program's body. The state holds:
    - the current `url`;
    - the `scraped` set;
    - one append-only trace of the writes to both files, in program order;
    - the counter.
  - `CrawlerProperties`: what the loop guarantees for any body, and for any body obeying the program body's contract `Obeys`.
- `scenarios.dfy` (`CrawlScenarios`):
  - `Run`, the program's crawl, and what every crawl from the starting URL guarantees;
  - the same loop written imperatively (`CrawlLoop`), proved equal to `Run`;
  - concrete runs showing the loop's quirks:
    - the starting page is scraped even when already ledgered;
    - a self-linked page is scraped twice in a row;
    - a page without related links crashes the crawl before its row is written;
    - the limit is eleven pages, not ten.

Facts about `main.py` that the model keeps:
- A record has four fields: title, series, contributors and URL.
- Only the series has a placeholder, the text `None`. A missing page region raises.
- The crawl visits at most eleven pages, because the counter is tested against 10 before it is incremented.
- The starting page is never checked against the ledger.

## Model

| member | source | states |
|---|---|---|
| Text.SplitFirst | main.py:50 | `Before(s, d)`, the longest `d`-free prefix, is exactly the first piece of Python's `s.split(d)` |
| Text.SplitLast | main.py:54 | `After(s, d)`, the longest `d`-free suffix, is exactly the last piece of Python's `s.split(d)` |
| Text.JoinSplit | main.py:50 | joining the pieces of `s.split(d)` with `d` gives back `s` |
| Text.SplitJoin | main.py:27 | `Join`, Python's `sep.join`, is undone by splitting on `d` when no part contains `d` |
| Text.Split | main.py:22 | `split` yields one piece more than there are separators, and no piece contains the separator |
| Urls.CleanUrl | main.py:48-50 | the cleaned URL is a prefix of the URL, contains no `?`, stops exactly at the first `?`, and is the whole URL when there is no `?` |
| Urls.CleanUrlIdempotent | main.py:48-50 | cleaning twice is cleaning once |
| Urls.QueryIgnored | main.py:48-50 | everything after the first `?` is dropped |
| Urls.Id | main.py:52-54 | the id is a suffix of the URL with no `/`, preceded by a `/` or the start, and is the whole URL when it has no `/` |
| Urls.IdOfLastSegment | main.py:52-54 | the id of `prefix/segment` is `segment` |
| Urls.SameIdAcrossQueries | main.py:48-54 | two URLs that agree up to their first `?` name the same book |
| Urls.CleanIdHasNoDelimiters | main.py:48-54 | a book id taken from a cleaned URL holds neither `/` nor `?` |
| Urls.ShowPathExample | main.py:48-54 | `show/42.Title?ref=x` names the book `42.Title` |
| BookPage.SeriesField | main.py:20-24 | a present series is cut just before its first `#`, and the result has no `#`; an absent series is the text `None` |
| BookPage.SeriesSentinelCollides | main.py:20-24 | a series literally named `None` gives the same column as no series |
| BookPage.Contributors | main.py:25-27 | the contributors column is empty exactly when there are no names, or one empty name; splitting it on `;` gives back the names in document order, each after the first with the separator's space, when no name contains `;` |
| BookPage.PickFrom | main.py:29-35 | once the link loop has run, it yields no pick only when every link names a scraped book; a picked URL is clean and unscraped |
| BookPage.FirstUnseenDecides | main.py:29-35 | the first link that is missing or unscraped decides: a missing href raises, an unscraped one is taken after cleaning |
| BookPage.PickNext | main.py:29-35 | an empty list is its own outcome, with `next` never bound; a non-empty list where every book is scraped gives `None`; otherwise a clean, unscraped URL |
| BookPage.SelectNext | main.py:29-35 | the `for` loop with `break`, written imperatively, computes `PickNext` |
| BookPage.CsvLine | main.py:36 | the line is twelve characters longer than its fields, starts with the quoted title, and ends with the quoted URL and a newline |
| BookPage.CsvLineAsJoin | main.py:36 | the line is its nine quote-delimited pieces joined with `"` |
| BookPage.CsvLineRoundTrip | main.py:36 | splitting the line on `"` gives back the four fields when none contains `"` |
| BookPage.CsvLinePieceCount | main.py:36 | every `"` inside a field adds a piece, because nothing is escaped |
| BookPage.Scrape | main.py:15-37 | `scrape` raises on an unbound `next` exactly when there are no related links, and on a missing href exactly when one comes before any unscraped link; otherwise the line is the CSV line of the title, the series column, the contributors column and the URL passed in, and `next` is `None` exactly when every link is scraped, else a clean, unscraped URL |
| BookPage.ScrapeLineColumns | main.py:20-36 | split on `"`, the row `scrape` writes gives back the title, the series column, the contributors column and the URL, in that order, when none contains `"` |
| BookPage.ScrapeFollowsFirstUnseen | main.py:29-35 | the first related link that is missing or unscraped decides `scrape`: a missing href raises, an unscraped one becomes `next` after cleaning |
| Crawler.Body | main.py:72-75 | a pass leaves the loop exactly at `url = None`; a visit ledgers the cleaned URL's id, ends its row with that URL, and moves on only to a clean URL whose id was unscraped |
| Crawler.RunBodyIsSound | main.py:72-83 | the program's body obeys that contract from every state |
| Crawler.Loop | main.py:72-86 | the trace only grows; `scraped` never shrinks; at most eleven passes write, two writes each; a run stopped by the counter made exactly eleven |
| CrawlerProperties.LoopWrites | main.py:76-83 | for any body, the writes alternate CSV row then ledger id, and the final set is the initial set plus exactly the ledgered ids |
| CrawlerProperties.LoopHalts | main.py:72-86 | for a body obeying `Obeys`, the loop ends normally only where the test `url is not None` fails, and a crash is the body raising at a URL |
| CrawlerProperties.FirstLedgerId | main.py:73-81 | the first id ledgered is that of the URL the loop starts at, after cleaning |
| CrawlerProperties.LaterPagesWereUnscraped | main.py:29-35 | every page after the first was unscraped when its predecessor was visited; no id was in the initial set after the first one; an id repeats only immediately |
| CrawlScenarios.Run | main.py:72-86 | the program's crawl ends normally only at `url = None`, and crashes only at a URL |
| CrawlScenarios.RunCrashes | main.py:72-75 | a crash is `scrape` raising on the cleaned current URL against the scraped set as it stood, before that page's writes |
| CrawlScenarios.RunGuarantees | main.py:62-86 | for a whole crawl from the starting URL and a loaded ledger, all of the loop's guarantees hold at once, including at most eleven ids |
| CrawlScenarios.CrawlLoop | main.py:62-86 | the loop on mutable variables computes `Run` exactly, writes at most 22 entries, and keeps every loaded id |
| CrawlScenarios.AlternatingIdCount | main.py:77-81 | half the writes are ledger lines |
| CrawlScenarios.SeedIsAlwaysScraped | main.py:72-81 | the starting page is written and ledgered even when its id is already in the ledger |
| CrawlScenarios.TwoVisitsThenStop | main.py:72-86 | two visits below the limit and then `url = None` end the loop normally with exactly those two ids ledgered |
| CrawlScenarios.SelfLinkScrapedTwice | main.py:29-35 | a page linking only to itself is scraped twice in a row and then the loop ends, because its id joins the set only after `scrape` returns |
| CrawlScenarios.DeadEndCrashes | main.py:29-37 | wherever the crawl reaches a page without related links, even at the eleventh page, it crashes on the unbound `next` and writes nothing for that page |
| CrawlScenarios.ChainStep | main.py:29-35 | on a site where each page links to a new one, a visit moves on to that new page |
| CrawlScenarios.KeepsVisitingToLimit | main.py:84-86 | a loop whose every pass is such a visit stops at the counter |
| CrawlScenarios.ChainRunsToLimit | main.py:84-86 | on a site that always links to a new page, the loop stops at the counter |
| CrawlScenarios.ElevenPagesPerRun | main.py:84-86 | such a crawl writes eleven rows and eleven ids, not ten |

## Left out

- HTML parsing with BeautifulSoup (main.py:17-19, 25, 28-29): `Page` holds what the selectors return. Their text stripping is left out, as are the exceptions raised when a page region is missing.
- The Selenium browser, scrolling and `sleep` (main.py:39-46, 61, 87): a `Fetcher` is an arbitrary function from a URL to a parsed page. This makes it deterministic within one run.
- File I/O (main.py:64-70, 77-81):
  - the two appended files are a single trace of `Write`s, in program order; `Write.Appended` gives the appended text;
  - reading the ledger, with its `strip` and the missing-file case, is left out, and the loaded set is a parameter.
- The command-line arguments and the two URL constants (main.py:12-13, 57-60): the starting URL is a parameter.
- An exception inside `scrape` is the halt `Crash`, with its cause: a missing href, or `next` never bound. Writes already made stay in the trace. The driver is not shut down in that case, which is not modelled.
- The separators are single characters, except the contributors' `"; "`, which is kept as written. Python's `split` with no argument and multi-character separators are not modelled.
- Crawler.Body: the relation between a CSV row and the ledger id written after it holds per pass, in `Obeys`. It is not restated for the whole trace.
