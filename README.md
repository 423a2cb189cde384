# books_library_restyle crawlers, modelled in Dafny

This project models the two crawl scripts of `books_library_restyle`. Both
scripts download books from tululu.org.

- `parse_tululu_category.py` walks pages 1 to 4 of the science-fiction category
  `/l55/`. On each page it walks every book table: it fetches the book page,
  parses it, downloads the text and the cover, and appends the parsed
  description to a list. At the end the list is dumped as JSON.
- `main.py` walks the book ids of `range(start_id, end_id)`, which defaults to
  1 to 10. For each id it runs the same fetch, parse and download body, and
  collects nothing.

A caught `requests.exceptions.ConnectionError` skips the item after
`time.sleep(3)`. A caught `HTTPError`, which is also what `check_for_redirect`
raises, skips it at once. Three failures are caught by nothing and end the
whole run:

- a failure inside `parse_book_page`;
- in the category script, a fetched category page without its `#content`
  block;
- in the category script, a book table without a link that has an `href`.

Modules:

- `Wrappers`: `Option` and `Result`.
- `PyStr`: Python string operations the scripts rely on, with their proved
  properties: `str.find`, `str.split`, the `"".join` inverse, `strip()` with
  Python's whitespace set, slicing with negative indices, and `str(int)`.
- `Tululu`: the helpers both scripts define identically.
  - `check_for_redirect` and `raise_for_status`.
  - The header split into title and author on `"\xa0 :: \xa0"`.
  - The book id slice `href[2:-1]`.
  - The text and cover file names and paths (`os.path.join`).
  - `download_txt` and `download_img`.
  - The field record `parse_book_page` builds.
- `Crawl`: the trace of a run and the fold that builds it.
  - An event is a request issued, a file saved, or a pause.
  - A step is one loop item: its events and how it ended (kept, done,
    skipped, or an exception that escaped).
  - A run is what the scripts build: the books, the events, and the escaped
    exception.
  - Generic lemmas about walking a sequence of items and a range of pages.
- `BookCrawl`: the per-book body both loops share, as a function `BookStep`
  and as the imperative method `CrawlBook`.
- `CategoryCrawl`: `main()` of `parse_tululu_category.py`, as nested loops
  (`CrawlCategory`, `CrawlPage`, `CrawlTables`, `CrawlTable`).
- `IdCrawl`: `main()` of `main.py`, as a loop over the id range (`CrawlIds`,
  `CrawlIndices`, `CrawlIndex`).

Each method is proved equal to a functional reference run. `CategoryRun` folds
the per-item steps of pages 1 to 4 in order; `IdRun` folds those of the ids.
Lemmas then relate the run to independent references:

- the books kept are a flatten of per-item filters;
- the pages or ids are requested in order;
- the pauses match the `ConnectionError` skips.

The outside world is a parameter `Env`:

- the answer to each GET request;
- `urljoin`;
- the path of `urlsplit`;
- `sanitize_filename`;
- what BeautifulSoup finds on a book page and on a category page.

Where the code and its documentation disagree, the model follows the code:

- Category pages are only status-checked, never redirect-checked.
- Covers are never redirect-checked.
- A parse failure aborts the run instead of skipping the book.
- The text file is written before the cover is fetched, so it stays on disk
  when the cover later fails.
- `main.py` builds book page links as `url + "/b" + index + "/"`. With
  `url = "https://tululu.org/"` this gives a double slash.
- A category page without its content block, or a book table without a
  linked `href`, is documented as having no books. The code raises instead.
- The category script takes the genres from the first genre span only and
  raises when there is none. `main.py` finds genres with `select`, which
  takes the links of every genre span and gives an empty list when there is
  none.

## Model

| member | source | states |
|---|---|---|
| Tululu.CheckForRedirect | parse_tululu_category.py:16-18 | `check_for_redirect` raises, and raises `HTTPError`, exactly when the response history is non-empty (the same function is at main.py:15-17) |
| Tululu.RaiseForStatus | parse_tululu_category.py:50 | `raise_for_status` raises `HTTPError` exactly for a 4xx or 5xx status |
| Tululu.GetCheckedSpec | parse_tululu_category.py:125-137 | a fetch-and-check block ends in `ConnectionError` exactly when no response came; it yields the response exactly when the status is not an error and, where checked, there was no redirect |
| Tululu.TitleBeforeDelimiter | parse_tululu_category.py:29 | the title is the stripped text before the first delimiter, and then an author exists |
| Tululu.AuthorBetweenDelimiters | parse_tululu_category.py:30 | the author is the stripped text between the first and second delimiters |
| Tululu.AuthorAfterOnlyDelimiter | parse_tululu_category.py:30 | with a single delimiter, the author is the stripped rest of the header |
| Tululu.NoDelimiterNoAuthor | parse_tululu_category.py:30 | without the delimiter, the author look-up raises `IndexError` and the title is the whole stripped header |
| Tululu.HeaderRoundTrip | main.py:73-74 | a stripped title and author free of the delimiter, joined by it, are recovered exactly by the split |
| Tululu.HeaderIsTitleDelimiterAuthor | parse_tululu_category.py:29-30 | a header that splits into two pieces is piece, delimiter, piece, and title and author are those pieces stripped |
| Tululu.DelimiterAfterStrippedTitle | parse_tululu_category.py:29 | after a stripped title free of the delimiter, the first delimiter is the one appended |
| Tululu.BookId | parse_tululu_category.py:123 | `href[2:-1]` drops the first two and the last character, and is empty for hrefs shorter than three |
| Tululu.BookIdOfLink | parse_tululu_category.py:121-123 | the id slice undoes the `/b<id>/` link form |
| Tululu.TextFilenameParts | parse_tululu_category.py:140 | the text file name is the id, `". "`, then the title |
| Tululu.PathJoinEndsWithName | parse_tululu_category.py:56 | `os.path.join` ends with the name; an absolute name replaces the folder; a folder ending in `/` is simply prefixed |
| Tululu.TextPathEndsInTxt | parse_tululu_category.py:56 | the text file path ends with the sanitized name followed by `.txt` |
| Tululu.ImageFilenameIsLastSegment | parse_tululu_category.py:75 | the cover's file name holds no `/`, ends the URL path, and follows a `/` unless it is the whole path |
| Tululu.ImagePathInFolder | parse_tululu_category.py:77 | with a folder ending in `/`, such as `images/`, the cover lands directly in it |
| Tululu.DownloadTxtSpec | parse_tululu_category.py:39-60 | the text is saved exactly when its request passes the status and redirect checks; a redirect is an `HTTPError`; the file lands at the text path |
| Tululu.DownloadImgSpec | parse_tululu_category.py:63-81 | the cover is saved exactly when its request passes the status check; a redirect is accepted; the file lands at the cover path |
| Tululu.CommentTextsSpec | parse_tululu_category.py:32 | the comments come back, one text per block in page order, exactly when every block has its span; otherwise a missing element raises |
| Tululu.BookFromFieldsSpec | parse_tululu_category.py:21-36 | a record comes back exactly when the header with its delimiter, the cover, every comment span and the genres are there; its fields are those pieces |
| PyStr.FindSpec | parse_tululu_category.py:29 | `find` returns the leftmost occurrence, or nothing when the separator is absent |
| PyStr.FindIsFirst | parse_tululu_category.py:29 | the leftmost occurrence is what `find` returns |
| PyStr.FindAbsent | parse_tululu_category.py:30 | a separator that does not occur is not found |
| PyStr.SplitAtFirst | parse_tululu_category.py:29-30 | `split` cuts at the first occurrence: the first piece is the text before it, and the remaining pieces are exactly the split of the text after it |
| PyStr.JoinSplit | parse_tululu_category.py:29-30 | joining the pieces of `split` with the separator gives back the string |
| PyStr.SplitPiecesFree | parse_tululu_category.py:29-30 | no piece of `split` contains the separator |
| PyStr.SplitLastPiece | parse_tululu_category.py:75 | the last piece of `split` is free of the separator and ends the string, right after a separator unless it is the whole string |
| PyStr.LStripSpec | parse_tululu_category.py:29 | `lstrip` drops exactly the leading whitespace |
| PyStr.RStripSpec | parse_tululu_category.py:29 | `rstrip` drops exactly the trailing whitespace |
| PyStr.StripStripped | parse_tululu_category.py:29 | what `strip` keeps starts and ends with non-whitespace |
| PyStr.StripIsTrimmedMiddle | parse_tululu_category.py:30 | `strip` keeps a middle slice whose surroundings are all whitespace |
| PyStr.StripIdempotent | parse_tululu_category.py:30 | stripping twice is stripping once |
| PyStr.NatToStrDigits | parse_tululu_category.py:102 | `str` of a natural number is decimal digits without a leading zero |
| PyStr.IntToStrSign | main.py:114 | `str` of an integer starts with `-` exactly when the integer is negative |
| PyStr.IntToStrInjective | main.py:114 | different integers print differently |
| Crawl.PauseSpec | parse_tululu_category.py:107-115 | a caught `ConnectionError` pauses exactly once; an `HTTPError` does not pause |
| Crawl.CollectNoFatal | parse_tululu_category.py:139 | a run ends early exactly when some step raised; otherwise it kept every step's book and did every step's effects |
| Crawl.CollectFatalPrefix | main.py:129 | once a parse error has escaped, later items change nothing |
| Crawl.CollectFirstFatal | parse_tululu_category.py:139 | the first parse error ends the run: the books are those before it, the effects those up to it |
| Crawl.CollectIsPrefix | parse_tululu_category.py:155 | a run's books and effects are prefixes of those of all its steps |
| Crawl.StepsKeep | parse_tululu_category.py:120-155 | appending each item's kept book in turn gives the flatten of the per-item filter |
| Crawl.PagesKeep | parse_tululu_category.py:101-155 | over pages and, within each page, tables, the books kept are the page-then-table flatten |
| Crawl.StepsRequests | main.py:113-116 | items that each issue one request of a kind issue, together, those requests in item order |
| Crawl.PagesRequests | parse_tululu_category.py:101-105 | pages each issuing one page request issue, together, one per page in page order |
| Crawl.StepsSleeps | main.py:119-143 | items that pause only on a `ConnectionError` pause, together, once per such skip |
| Crawl.PagesSleeps | parse_tululu_category.py:107-153 | the same over pages and their tables |
| Crawl.RangeAt | main.py:113 | `range(lo, hi)` counts up from `lo` in steps of one |
| Crawl.MapAt | parse_tululu_category.py:101 | mapping applies the function to each item in place |
| BookCrawl.BookStepOutcome | parse_tululu_category.py:125-155 | a book is kept exactly when the page fetch, the status and redirect checks, the parse, the text and the cover all succeed, and the kept book is the parsed one; a parse failure escapes exactly when a fetched page does not parse |
| BookCrawl.BookStepSavesFiles | parse_tululu_category.py:139-144 | a kept book's step fetched its page, then its text, saved as `"<id>. <title>"` under `books/`, then its cover, saved under `images/` |
| BookCrawl.BookStepPauses | parse_tululu_category.py:129-153 | a book step pauses exactly when it was skipped after a `ConnectionError`, once, as its last effect |
| BookCrawl.BookStepCoverAfterText | parse_tululu_category.py:143-144 | the cover is requested only right after the text was saved, so a failed text download means no cover request |
| BookCrawl.BookStepLaterFetches | main.py:132-134 | after the book page, a book step requests only the text and the cover |
| BookCrawl.BookStepRequests | main.py:116 | a book step requests its book page exactly once and no category page |
| BookCrawl.CrawlBook | parse_tululu_category.py:125-153 | the loop body's effects and ending are those of the reference book step |
| CategoryCrawl.ParseBookPage | parse_tululu_category.py:33 | a page without a genre span raises; a parsed book's genres are the links of the first genre span |
| CategoryCrawl.PageStepOutcome | parse_tululu_category.py:104-118 | a category page is requested first; tables are walked exactly when the page was fetched, passed the status check and has the content block; a fetched page without the content block raises; a redirected success page is not skipped; a failed page has no tables |
| CategoryCrawl.TableStepKeepsTableBook | parse_tululu_category.py:121-155 | a table keeps exactly the reference book of its link; a table without a linked `href` raises |
| CategoryCrawl.CategoryCollectsReferenceBooks | parse_tululu_category.py:99-155 | the list built is a prefix of the page-then-table flatten of the per-book filter, and is all of it when nothing escaped |
| CategoryCrawl.PageStepRequests | parse_tululu_category.py:102-105 | a page step requests its own page once |
| CategoryCrawl.TableStepRequests | parse_tululu_category.py:120-137 | a table step requests no category page |
| CategoryCrawl.CategoryPagesInOrder | parse_tululu_category.py:101-105 | the category pages requested are the pages of `range(1, 5)` in order, each once, cut short only by an escaped exception |
| CategoryCrawl.CategoryPagesListed | parse_tululu_category.py:101-102 | those pages are pages 1, 2, 3 and 4 |
| CategoryCrawl.CategorySleeps | parse_tululu_category.py:107-153 | a completed run paused exactly once per item skipped after a `ConnectionError` |
| CategoryCrawl.CrawlTable | parse_tululu_category.py:121-155 | one table pass continues the run by that table's reference step |
| CategoryCrawl.CrawlTables | parse_tululu_category.py:120-155 | the table loop's result is the reference fold of its tables, stopping at an escaped exception |
| CategoryCrawl.CrawlPage | parse_tululu_category.py:102-155 | one page pass continues the run by the page's step and then its tables' steps |
| CategoryCrawl.CrawlCategory | parse_tululu_category.py:99-155 | the nested loops compute exactly the reference run of the script |
| IdCrawl.ParsersAgree | main.py:65-80 | this script's parser accepts every page the category parser accepts, with the same title, author, cover and comments; its genres are the links of all genre spans, which start with the category parser's; with at most one genre span the books are equal; it also accepts a page without a genre span, giving no genres |
| IdCrawl.BookPageUrlInjective | main.py:114 | different ids are fetched at different book page URLs |
| IdCrawl.DefaultIds | main.py:96-107 | by default the ids walked are 1 to 10 |
| IdCrawl.IdRunKeepsReference | main.py:113-145 | the books logged as downloaded are, in id order, those whose page, text and cover were all fetched, cut short only by an escaped exception |
| IdCrawl.IdPagesInOrder | main.py:113-116 | the book pages requested are those of `range(start_id, end_id)` in increasing order, each once |
| IdCrawl.IdSleeps | main.py:119-143 | a completed run paused exactly once per id skipped after a `ConnectionError`, never after an `HTTPError` |
| IdCrawl.CrawlIndex | main.py:114-145 | one pass of the loop continues the run by that id's reference step |
| IdCrawl.CrawlIndices | main.py:113-145 | the loop over a list of ids computes the reference fold of their steps |
| IdCrawl.CrawlIds | main.py:113-145 | the loop over `range(start_id, end_id)` computes exactly the reference run of the script |

## Left out

- Network I/O: each GET is a value of `Env.net`, fixed per request, so a repeated request gets the same answer.
- Exceptions other than `ConnectionError` and `HTTPError` raised by `requests.get`, such as timeouts or invalid URLs, are not modelled.
- `raise_for_status` is modelled on the status code only; the reason phrase is ignored.
- `urljoin`, `urlsplit(...).path` and `sanitize_filename` are uninterpreted parameters, and nothing is assumed about them.
- HTML parsing is a parameter. It gives a book page's header, cover `src`, comment spans and the links of each genre span, and a category page's table `href`s.
- `main.py` looks elements up with CSS selectors under `.ow_px_td`, where the category script uses `find` under `#content`. The model gives both scripts the same extracted fields.
- The filesystem is left out: `mkdir`, the file writes, and the JSON dump of the collected list. That dump happens only when the run ends without an escaped exception, and it holds the run's books.
- An empty cover file name makes the write raise `IsADirectoryError`, which nothing catches. The model records the save instead.
- Logging, `sys.stderr` messages, `print`, the length of the sleep, and `argparse` parsing are left out. The ids come in as parameters, and their defaults are constants.
- `render_website.py` is not part of this model.
- IdCrawl.CrawlIds: `main.py` keeps no list. The books it returns stand for the success lines it logs, one per fully downloaded id.
