# books_scraper in Dafny

A model of the crawler in `scraper.py`, which collects every book of the
Books to Scrape catalogue. It has three parts:

- `get_book_data` turns one book detail page into an eleven-field record:
  - title, price, availability and description, each stripped of surrounding whitespace;
  - a 1..5 star rating;
  - six fields looked up in the product table (UPC, product type, the two prices, tax and the number of reviews).
- The link loop turns the `href`s of one listing page into absolute
  detail-page URLs.
- `scrape_books` walks listing pages 1, 2, 3, ... until the first page that
  answers 404. For each page it runs a pool of `get_book_data` calls over
  that page's URLs. The records of the calls that succeed are kept, and the
  calls that fail are skipped.

The network is a parameter:
- `Listing` gives the answer for each listing page number;
- `Fetcher` gives the answer for each detail URL (`None` when the request itself raises);
- `PageUrls` gives, for each page, the order in which the pool reports its fetches as completed.

HTML is not parsed. A `DetailPage` holds, for each selector the builder
uses, the text the selector finds, or `None`. The exception Python raises
when an element is missing becomes a `Failure` with a `FetchError` naming
that element.

Files:
- `Wrappers.dfy`: `Option` and `Result`.
- `Lists.dfy`: `FilterMap`, the shape shared by the source's comprehensions and its filter-and-append loops.
- `Text.dfy`: `str.strip()`, `str.replace(pat, '')` and `str(n)`.
- `BookPage.dfy`: `get_book_data` after the request.
- `Links.dfy`: the `href` loop.
- `Crawler.dfy`: the request, the pool and the page walk.

Three behaviours of the code that are easy to miss:
- A page without the rating element, or whose rating element has only the
  `star-rating` class, makes `get_book_data` raise. The code indexes `None`
  or takes `[0]` of an empty list. The model fails with `NoStarRating` or
  `NoRatingClass`. An unknown rating word gives a null rating, not an error.
- A listing page answering a status other than 200 or 404 is parsed like
  any other page, since `soup` is always bound in `scrape_books`.
- As written, an anchor without `href` is not skipped: it raises and aborts
  the crawl (see Findings). `Links.ListingUrlsAsWritten` models that loop.
  The walk itself uses the corrected loop, which skips such an anchor.

## Model

| member | source | states |
|---|---|---|
| Text.Strip | scraper.py:43 | the result has no whitespace at either end (Python `isspace` characters) and is no longer than the input |
| Text.StripSlice | scraper.py:43 | stripping only removes whitespace runs from the two ends: the result is a contiguous slice with all-whitespace text before and after it |
| Text.StripEmpty | scraper.py:43 | stripping gives the empty string exactly when the text is all whitespace |
| Text.StripIdempotent | scraper.py:43 | stripping twice is stripping once |
| Text.RemoveAll | scraper.py:120 | `s.replace(pat, '')`, scanning left to right; the result is never longer than the input. Characterised by RemoveAllSkipsClean and RemoveAllLeading |
| Text.RemoveAllKeepsOtherCharacters | scraper.py:120 | every character that does not occur in `../../../` survives the removal, in order |
| Text.RemoveAllSkipsClean | scraper.py:120 | text in which no copy of the pattern starts is kept unchanged, and removal continues after it |
| Text.RemoveAllLeading | scraper.py:120 | a copy of the pattern at the front is dropped; with the previous row this fixes `replace(pat, '')` completely |
| Text.RemoveAllAbsent | scraper.py:120 | an `href` with no copy of the pattern comes back unchanged |
| Text.Decimal | scraper.py:101-107 | `str(n)` inside `format`: a non-empty run of decimal digits, starting with `0` only for 0. Characterised by DecimalRoundTrip |
| Text.DecimalRoundTrip | scraper.py:101 | the decimal page number reads back as the number |
| BookPage.RatingValue | scraper.py:51-58 | `rating_map.get`: a value exactly for `One`..`Five`, and that value lies in 1..5; DecodeRatingCases gives the word-by-word map |
| BookPage.DecodeRatingCases | scraper.py:49-58 | decoding fails exactly when every class is `star-rating`; otherwise the first other class decides, and the rating is n exactly when that class is the word for n (One..Five), and null for any other word |
| BookPage.DecodeRating | scraper.py:49-58 | a failure is always `NoRatingClass`; a decoded rating lies in 1..5 |
| BookPage.Description | scraper.py:64-68 | no anchor gives exactly "No description"; an anchor gives the stripped next paragraph, and fails (with `NoDescriptionText`) exactly when there is none |
| BookPage.CompleteRows | scraper.py:72-73 | defined exactly when every row has `th` and `td`, and then holds each row's stripped header and value, row for row |
| BookPage.TableOf | scraper.py:72-73 | the dict comprehension: no more entries than rows, and the last row's header maps to its value. Characterised by TableEntries, TableKeys, LastRowWins and TableWithout |
| BookPage.TableEntries | scraper.py:72-73 | every entry of the dict is the stripped header and value of some row |
| BookPage.TableKeys | scraper.py:72-73 | the table dict has a key exactly for each header that some row carries |
| BookPage.LastRowWins | scraper.py:72-73 | with a repeated header, the dict holds the value of the last row carrying it |
| BookPage.TableWithout | scraper.py:72-73 | dropping the rows of one header removes that key and changes nothing else in the dict |
| BookPage.LookupTable | scraper.py:72-86 | a table field is absent exactly when no row has its header, and otherwise is the stripped value of the last row that has it |
| BookPage.WithTable | scraper.py:81-86 | the six `data.get` calls: a table field is present exactly when its header is a key, and then holds that key's value; the five head fields are unchanged |
| BookPage.HeaderOfInjective | scraper.py:81-86 | the six headers are distinct, so each field reads its own row |
| BookPage.BookHead | scraper.py:35-68 | a status other than 200 fails with `NotOk(status)`; a rating in the head lies in 1..5; a failure is never `NetworkFailure` |
| BookPage.ExtractBook | scraper.py:35-87 | a status other than 200 fails with `NotOk(status)`; a rating in the record lies in 1..5; a failure is never `NetworkFailure`, which only the request gives |
| BookPage.ExtractBookSucceeds | scraper.py:35-87 | the builder succeeds exactly when status is 200 and every element it reads is present (rating element with a class besides the marker, paragraph after a description anchor, complete table rows) |
| BookPage.ExtractedBookFields | scraper.py:43-68 | title, price and availability are the stripped text of their elements; the title is empty exactly when the heading is all whitespace; the description follows the anchor rule; the rating is the decode of the first non-marker class (n exactly for the word for n, absent for another word) |
| BookPage.ExtractedTableField | scraper.py:72-86 | each of the six table fields of a built record is the lookup of its own header: absent exactly when no row has it, else the last such row's value |
| BookPage.MissingHeaderClearsOnlyItsField | scraper.py:72-86 | removing one header's rows from a page makes that field absent and leaves the other ten fields as they were |
| BookPage.ExtractReplacingTable | scraper.py:72-86 | replacing the product table changes only the six table fields |
| BookPage.MissingTaxRow | scraper.py:85 | a page without a `Tax` row gives a record without tax, and its UPC is present exactly when a `UPC` row exists |
| BookPage.Entries | scraper.py:75-87 | the returned dict has exactly the eleven keys, in the order the source writes them |
| BookPage.EntriesRoundTrip | scraper.py:75-87 | the dict keeps every field: reading it back gives the record |
| Links.CleanedCatalogueHref | scraper.py:120 | the site's `../../../a/index.html` form cleans to `a/index.html`, with its dots and slashes kept |
| Links.CatalogueHrefClean | scraper.py:120 | the catalogue-relative `a/index.html` holds no `../`, so the removal returns it unchanged |
| Links.ListingUrls | scraper.py:117-124 | the corrected loop as a function: at most one URL per anchor, each the root followed by a non-empty path. Characterised by ListingUrlsSpec |
| Links.ListingUrlsSpec | scraper.py:117-124 | a URL is collected exactly when some anchor's cleaned `href` joins to it; nothing is dropped exactly when every anchor has a usable `href`; page order is kept |
| Links.CollectUrls | scraper.py:117-124 | the loop returns `ListingUrls` of the page's anchors |
| Links.ListingUrlsAsWritten | scraper.py:117-124 | the loop as written, `None` standing for the raised exception; when it does not raise, at most one URL per anchor, each under the root. Characterised by AsWrittenFailsOnMissingHref |
| Links.AsWrittenFailsOnMissingHref | scraper.py:117-124 | as written, the loop raises exactly when some anchor has no `href`, and otherwise returns `ListingUrls` |
| Links.MissingHrefExample | scraper.py:120-122 | one anchor without `href` beside a valid one: as written the crawl aborts; the skipping loop keeps the valid URL |
| Crawler.PageUrl | scraper.py:101-107 | the listing URL of page n: the fixed prefix, then decimal digits that read back as n, then `.html` |
| Crawler.PageUrlInjective | scraper.py:101-107 | different page numbers give different listing URLs |
| Crawler.FetchBook | scraper.py:35-87 | the request, then the builder: the result is `NetworkFailure` exactly when the request raises, and a status other than 200 gives `NotOk(status)` |
| Crawler.GetBookDataSucceeds | scraper.py:14-87 | the task for a URL gives a record exactly when the request returns a page the builder can read; a raising request gives `NetworkFailure` |
| Crawler.BatchAccounted | scraper.py:126-135 | every URL of a batch ends as exactly one record or one failure |
| Crawler.BatchMembership | scraper.py:126-135 | a record is in the batch exactly when some URL's task produced it |
| Crawler.FailureIsolated | scraper.py:131-135 | a failing task removes its own record and nothing else |
| Crawler.BatchOrderIrrelevant | scraper.py:126-135 | any completion order gives the same records and failures, as multisets |
| Crawler.FetchBatch | scraper.py:126-135 | returns the records and failures in completion order; as multisets they are those of the submitted URLs; their counts add up to the number of URLs |
| Crawler.FirstNotFoundUnique | scraper.py:106-112 | the first-404 page is unique and at most one past the last page |
| Crawler.FirstNotFoundExists | scraper.py:106-112 | every listing has a first-404 page, so the `while True` loop always ends |
| Crawler.GatheredOrderIrrelevant | scraper.py:126-141 | any per-page completion orders gather the same records, as a multiset, as listing order |
| Crawler.FailureOrderIrrelevant | scraper.py:126-141 | the same for the failed URLs |
| Crawler.ScheduleIrrelevant | scraper.py:106-141 | when each page's completion order is a permutation of its links, the records and failures gathered equal, as multisets, those gathered in listing order |
| Crawler.ScrapePage | scraper.py:117-141 | one iteration of the walk: from the records of pages before n, the records gathered through page n, page n's batch appended in its completion order |
| Crawler.ScrapeBooks | scraper.py:100-147 | the walk asks for pages 1, 2, ... and stops at the first page answering 404 (any other status is parsed); the result is the records of pages before it, page after page, each page's whole batch in its completion order; links are collected with the corrected loop (see Left out) |
| Crawler.GatheredAccounted | scraper.py:126-141 | over the pages walked, records plus failures equal the number of detail links |
| Crawler.GatheredMembership | scraper.py:126-141 | a record is collected exactly when the task of some link of some walked page produced it |
| Crawler.FailedMembership | scraper.py:131-135 | a URL is among the failures exactly when it is a link of a walked page and its task failed |
| Crawler.GatheredAllSucceed | test/test_scraper.py:117-124 | when no task fails, the number of records equals the number of detail links |
| Crawler.GatheredBooksWellFormed | test/test_scraper.py:142-151 | every collected record has stripped title, price and availability, its title is unchanged by stripping, and its rating lies in 1..5 |
| Lists.FilterMapPermutation | scraper.py:128-135 | filtering inputs that are permutations of each other gives outputs that are permutations of each other |
| Lists.MapAllSpec | scraper.py:72-73 | mapping every row succeeds exactly when each row does, with the values row for row |

## Left out

- HTTP, text decoding and BeautifulSoup: each listing page is a status and a list of `href`s, and each detail page a `DetailPage` of selector results.
- `urljoin` is modelled as concatenation. Because the root ends in `/`, the two agree on the site's own form of cleaned `href`: a relative path of non-empty segments made only of ASCII letters, digits, `-`, `_` and `.`, none of them `.` or `..`. Outside that form, `urljoin` normalises what concatenation keeps:
  - dot segments: `../x.html` keeps its single `../`, and `urljoin` resolves it to `http://books.toscrape.com/x.html`;
  - empty segments: `a//index.html` becomes `.../catalogue/a/index.html`;
  - leading spaces and control characters are stripped, and tab, CR and LF are deleted;
  - a scheme or authority (an absolute URL, `/x`, `//host/x`) replaces the root;
  - an empty query or fragment (`a.html?`, `a.html#`) is dropped;
  - `;` parameters on the last segment: an empty one is dropped (`a/x.html;`), and the path before `;` is resolved on its own (`a/..;x` becomes `.../catalogue/;x`).
- A `Fetcher` gives one answer per URL. A URL listed twice, on one page or on two, is fetched twice by the source, and the two fetches may have different outcomes. The model gives both the same outcome.
- Crawler.ScrapeBooks: it collects each page's links with `Links.CollectUrls`, the corrected loop, which skips an anchor without `href`. As written, such an anchor raises `AttributeError` outside the `try` and `scrape_books` returns nothing (Findings). So for a listing with such an anchor, the model returns records where the source raises.
- Links.CollectUrls: it is the corrected loop. The loop as written is `Links.ListingUrlsAsWritten`, and `Links.AsWrittenFailsOnMissingHref` shows that the two agree exactly when every anchor has an `href`.
- Concurrency: the pool's `as_completed` order is an input, one permutation of the page's URLs per page. `max_workers = 20` does not change which results arrive, so it is not modelled.
- Crawler.ScrapeBooks: the error lines printed for failed detail fetches are not returned. `GatheredFailures` and `FailedMembership` say which URLs they name, and `FetchBatch` returns them batch by batch.
- Crawler.ScrapeBooks: it returns the number of the page that answered 404, not a log of the requests. Pages 1 up to that page are the ones asked for.
- A listing-page request that raises aborts the crawl in the source. It is not modelled: a listing page always answers.
- A site that never answers 404 makes the source loop forever. A `Listing` is finite and every page after it answers 404, so this case is not modelled.
- The `print` calls, `is_save` and the JSON dump, `job`, and the `schedule` / stdin loop: I/O and scheduling around the core.
- The rating is kept as the integer n for Python's float n.0.
- Text.IsSpace: Python's `str.isspace` is written out as an explicit character list. There is no Unicode database.
- Crawler.GatheredBooksWellFormed: the test at test/test_scraper.py:149 wants every title non-blank. The model proves that a title is blank exactly when its heading is all whitespace (`ExtractedBookFields`), since nothing in the code rejects such a page.

## Findings

| source | as written | input that shows it | evidently intended | confidence | as-written member | corrected member |
|---|---|---|---|---|---|---|
| scraper.py:120-122 | `link.get("href").replace(...)` runs before the emptiness test and outside the `try`; for an anchor without `href` it raises `AttributeError` and ends the whole crawl | a listing page whose anchors are one without `href` and one with `a/index.html` | the missing link is skipped, as the comment on the emptiness test says, and the valid link is kept | not executed | Links.ListingUrlsAsWritten, Links.MissingHrefExample | Links.ListingUrls, Links.ListingUrlsSpec |
