/** `scrape_books`: the walk over the listing pages 1, 2, 3, ... until the
    first 404, and the batch of detail fetches made for each page. The two
    network calls are parameters: `PageAt(listing, n)` is the answer to the
    request for `PageUrl(n)`, and `fetch(url)` the answer for a detail page (`None`
    when the request itself raises). */
module Crawler {
  import opened Wrappers
  import opened Text
  import Lists
  import opened BookPage
  import opened Links

  const CatalogueRoot := "http://books.toscrape.com/catalogue/"
  const PagePrefix := "http://books.toscrape.com/catalogue/page-"
  const PageSuffix := ".html"

  /** `page_url_template.format(n)`: the page number, in decimal, between
      the fixed prefix and suffix, from where it can be read back. */
  function PageUrl(n: nat): (u: string)
    ensures |PagePrefix| + |PageSuffix| < |u|
    ensures u[..|PagePrefix|] == PagePrefix && u[|u| - |PageSuffix|..] == PageSuffix
    ensures var number := u[|PagePrefix|..|u| - |PageSuffix|];
      && (forall k :: 0 <= k < |number| ==> IsDigit(number[k]))
      && ParseDecimal(number) == n
  {
    var u := PagePrefix + Decimal(n) + PageSuffix;
    assert u[|PagePrefix|..|u| - |PageSuffix|] == Decimal(n);
    DecimalRoundTrip(n);
    u
  }

  /** Different page numbers are different URLs, so answering by page number
      is answering by URL. */
  lemma PageUrlInjective(a: nat, b: nat)
    requires PageUrl(a) == PageUrl(b)
    ensures a == b
  {
    var u := PageUrl(a);
    assert Decimal(a) == u[|PagePrefix|..|u| - |PageSuffix|];
    assert Decimal(b) == u[|PagePrefix|..|u| - |PageSuffix|];
    DecimalInjective(a, b);
  }

  /** A listing page: its status and the `href` of each book anchor on it
      (`None` for an anchor without one). */
  datatype ListingPage = ListingPage(status: int, hrefs: seq<Option<string>>)

  /** The listing pages the site serves: page `n` is `listing[n - 1]`, and
      every page after the last answers 404. */
  type Listing = seq<ListingPage>

  const NotFound := ListingPage(404, [])

  /** The answer to the request for listing page `n`. */
  function PageAt(listing: Listing, n: nat): (page: ListingPage)
    ensures n > |listing| ==> page == NotFound
  {
    if 1 <= n <= |listing| then listing[n - 1] else NotFound
  }
  type Fetcher = string -> Option<DetailPage>

  /** What the pool runs for one URL: a record, or the reason there is none. */
  type Task = string -> Result<Book, FetchError>

  /** `get_book_data(url)`: the request, then the record builder. */
  function FetchBook(fetch: Fetcher, url: string): (r: Result<Book, FetchError>)
    ensures r == Failure(NetworkFailure) <==> fetch(url).None?
    ensures fetch(url).Some? && fetch(url).value.status != 200 ==> r == Failure(NotOk(fetch(url).value.status))
  {
    match fetch(url)
    case None => Failure(NetworkFailure)
    case Some(page) => ExtractBook(page)
  }

  /** `get_book_data` as the task submitted for each URL. */
  function GetBookData(fetch: Fetcher): Task {
    (url: string) => FetchBook(fetch, url)
  }

  /** A task yields a record exactly when the request returns a page the
      builder can read. */
  lemma GetBookDataSucceeds(fetch: Fetcher, url: string)
    ensures GetBookData(fetch)(url).Success? <==> fetch(url).Some? && Extractable(fetch(url).value)
    ensures fetch(url).None? ==> GetBookData(fetch)(url) == Failure(NetworkFailure)
  {
    if fetch(url).Some? {
      ExtractBookSucceeds(fetch(url).value);
    }
  }

  function BookOf(task: Task, url: string): Option<Book> {
    var r := task(url);
    if r.Success? then Some(r.value) else None
  }

  function FailureOf(task: Task, url: string): Option<string> {
    if task(url).Failure? then Some(url) else None
  }

  /** The records of the tasks that succeed, in the order of `urls`. */
  function Successes(task: Task, urls: seq<string>): seq<Book> {
    Lists.FilterMap((u: string) => BookOf(task, u), urls)
  }

  /** The URLs whose task fails, in the order of `urls`. */
  function Failures(task: Task, urls: seq<string>): seq<string> {
    Lists.FilterMap((u: string) => FailureOf(task, u), urls)
  }

  /** Every URL of a batch ends up either as a record or as a failure. */
  lemma {:induction false} BatchAccounted(task: Task, urls: seq<string>)
    ensures |Successes(task, urls)| + |Failures(task, urls)| == |urls|
    decreases |urls|
  {
    if urls != [] {
      BatchAccounted(task, urls[1..]);
    }
  }

  /** A batch's records: a record is there exactly when the task of some URL
      of the batch produced it, whatever happened to the other URLs. */
  lemma BatchMembership(task: Task, urls: seq<string>, b: Book)
    ensures b in Successes(task, urls) <==> exists u :: u in urls && task(u) == Success(b)
  {
    var f := (u: string) => BookOf(task, u);
    Lists.FilterMapMembers(f, urls, b);
    if b in Successes(task, urls) {
      var u :| u in urls && f(u) == Some(b);
    } else {
      forall u | u in urls ensures task(u) != Success(b) {
        assert f(u) != Some(b);
      }
    }
  }

  /** A task that fails drops its own record and nothing else: with `u0`
      failing, the batch yields exactly the records it would yield
      without `u0`. */
  lemma {:induction false} FailureIsolated(task: Task, broken: Task, u0: string, urls: seq<string>)
    requires broken(u0).Failure?
    requires forall u :: u != u0 ==> broken(u) == task(u)
    ensures Successes(broken, urls)
         == Successes(task, Lists.FilterMap((u: string) => if u == u0 then None else Some(u), urls))
    decreases |urls|
  {
    if urls != [] {
      FailureIsolated(task, broken, u0, urls[1..]);
      var g := (u: string) => if u == u0 then None else Some(u);
      var f := (u: string) => BookOf(task, u);
      var rest := Lists.FilterMap(g, urls[1..]);
      if urls[0] != u0 {
        var kept := [urls[0]] + rest;
        assert kept[1..] == rest;
        assert Lists.FilterMap(f, kept)
            == (if f(urls[0]).Some? then [f(urls[0]).value] else []) + Lists.FilterMap(f, rest);
      }
    }
  }

  /** Running the batch in another order gives the same records and the
      same failures, as multisets. */
  lemma BatchOrderIrrelevant(task: Task, urls: seq<string>, arrival: seq<string>)
    requires multiset(arrival) == multiset(urls)
    ensures multiset(Successes(task, arrival)) == multiset(Successes(task, urls))
    ensures multiset(Failures(task, arrival)) == multiset(Failures(task, urls))
  {
    Lists.FilterMapPermutation((u: string) => BookOf(task, u), arrival, urls);
    Lists.FilterMapPermutation((u: string) => FailureOf(task, u), arrival, urls);
  }

  /** The pool for one page. Every URL of `urls` is submitted once, and the
      results are taken in `arrival`, the order in which the pool reports
      them as completed: each submitted URL once, in an order the model
      does not fix. A success is appended to `items`, a failure is recorded
      and does not stop the batch. */
  method FetchBatch(task: Task, urls: seq<string>, arrival: seq<string>)
    returns (items: seq<Book>, failed: seq<string>)
    requires multiset(arrival) == multiset(urls)
    ensures items == Successes(task, arrival) && failed == Failures(task, arrival)
    ensures multiset(items) == multiset(Successes(task, urls))
    ensures multiset(failed) == multiset(Failures(task, urls))
    ensures |items| + |failed| == |urls|
  {
    items, failed := [], [];
    ghost var bookOf := (u: string) => BookOf(task, u);
    ghost var failureOf := (u: string) => FailureOf(task, u);
    for i := 0 to |arrival|
      invariant items == Successes(task, arrival[..i])
      invariant failed == Failures(task, arrival[..i])
      invariant |items| + |failed| == i
    {
      assert arrival[..i + 1] == arrival[..i] + [arrival[i]];
      Lists.FilterMapAppend(bookOf, arrival[..i], [arrival[i]]);
      Lists.FilterMapSingle(bookOf, arrival[i]);
      Lists.FilterMapAppend(failureOf, arrival[..i], [arrival[i]]);
      Lists.FilterMapSingle(failureOf, arrival[i]);
      var url := arrival[i];
      var result := task(url);
      if result.Success? {
        items := items + [result.value];
      } else {
        failed := failed + [url];
      }
    }
    assert arrival[..|arrival|] == arrival;
    assert |arrival| == |multiset(arrival)| == |multiset(urls)| == |urls|;
    BatchOrderIrrelevant(task, urls, arrival);
  }

  // ---------------------------------------------------------------------
  // The walk

  /** The detail URLs found on listing page `n`. */
  function PageLinks(listing: Listing, n: nat): seq<string> {
    ListingUrls(CatalogueRoot, PageAt(listing, n).hrefs)
  }

  /** For each page number, a sequence of that page's detail URLs: its links
      in listing order, or the order in which the pool reports their fetches
      as completed. */
  type PageUrls = nat -> seq<string>

  /** The detail links of every listing page, in listing order. */
  function LinksOf(listing: Listing): PageUrls {
    (n: nat) => PageLinks(listing, n)
  }

  /** Page n's completion order holds each of its detail URLs once. */
  ghost predicate CompletesPage(listing: Listing, schedule: PageUrls, n: nat) {
    multiset(schedule(n)) == multiset(PageLinks(listing, n))
  }

  /** So does every page's. */
  ghost predicate Completes(listing: Listing, schedule: PageUrls) {
    forall n: nat :: CompletesPage(listing, schedule, n)
  }

  /** The records gathered from pages 1..n, each page's URLs taken in the
      order `pages` gives. */
  function Gathered(task: Task, pages: PageUrls, n: nat): seq<Book>
    decreases n
  {
    if n == 0 then [] else Gathered(task, pages, n - 1) + Successes(task, pages(n))
  }

  /** The failed URLs of pages 1..n, each page's in the order `pages` gives. */
  function GatheredFailures(task: Task, pages: PageUrls, n: nat): seq<string>
    decreases n
  {
    if n == 0 then [] else GatheredFailures(task, pages, n - 1) + Failures(task, pages(n))
  }

  /** The number of detail URLs on pages 1..n. */
  function LinkCount(pages: PageUrls, n: nat): nat
    decreases n
  {
    if n == 0 then 0 else LinkCount(pages, n - 1) + |pages(n)|
  }

  /** Page k is the first listing page to answer 404: the page at which
      the walk stops. */
  predicate FirstNotFound(listing: Listing, k: nat) {
    && 1 <= k
    && PageAt(listing, k).status == 404
    && forall p :: 1 <= p < k ==> PageAt(listing, p).status != 404
  }

  /** A first 404 page is unique, and it is at most one past the last page
      given, since the pages after that one answer 404: of two first 404
      pages neither can come before the other. */
  lemma FirstNotFoundUnique(listing: Listing, k: nat)
    requires FirstNotFound(listing, k)
    ensures k <= |listing| + 1
    ensures forall j: nat :: FirstNotFound(listing, j) <==> j == k
  {
    assert PageAt(listing, |listing| + 1).status == 404;
  }

  /** Every listing has a first 404 page, so the walk always stops. */
  lemma FirstNotFoundExists(listing: Listing)
    ensures exists k :: FirstNotFound(listing, k)
  {
    FirstNotFoundFrom(listing, 1);
  }

  /** Searching upward from page j, past pages that did not answer 404. */
  lemma {:induction false} FirstNotFoundFrom(listing: Listing, j: nat)
    requires 1 <= j <= |listing| + 1
    requires forall p :: 1 <= p < j ==> PageAt(listing, p).status != 404
    ensures exists k :: FirstNotFound(listing, k)
    decreases |listing| + 1 - j
  {
    if PageAt(listing, j).status == 404 {
      assert FirstNotFound(listing, j);
    } else {
      FirstNotFoundFrom(listing, j + 1);
    }
  }

  /** Page p's links in `order` are a permutation of those in `pages`. */
  ghost predicate SameLinks(order: PageUrls, pages: PageUrls, p: nat) {
    multiset(order(p)) == multiset(pages(p))
  }

  /** Whatever order each page's fetches complete in, the same records are
      gathered, as a multiset, as in listing order. */
  lemma {:induction false} GatheredOrderIrrelevant(task: Task, pages: PageUrls, order: PageUrls, n: nat)
    requires forall p: nat :: p <= n ==> SameLinks(order, pages, p)
    ensures multiset(Gathered(task, order, n)) == multiset(Gathered(task, pages, n))
    decreases n
  {
    if n > 0 {
      var m := n - 1;
      GatheredOrderIrrelevant(task, pages, order, m);
      assert SameLinks(order, pages, n);
      BatchOrderIrrelevant(task, pages(n), order(n));
      Lists.AppendPermutations(Gathered(task, order, m), Successes(task, order(n)),
                               Gathered(task, pages, m), Successes(task, pages(n)));
    }
  }

  /** The same for the failed URLs. */
  lemma {:induction false} FailureOrderIrrelevant(task: Task, pages: PageUrls, order: PageUrls, n: nat)
    requires forall p: nat :: p <= n ==> SameLinks(order, pages, p)
    ensures multiset(GatheredFailures(task, order, n)) == multiset(GatheredFailures(task, pages, n))
    decreases n
  {
    if n > 0 {
      var m := n - 1;
      FailureOrderIrrelevant(task, pages, order, m);
      assert SameLinks(order, pages, n);
      BatchOrderIrrelevant(task, pages(n), order(n));
      Lists.AppendPermutations(GatheredFailures(task, order, m), Failures(task, order(n)),
                               GatheredFailures(task, pages, m), Failures(task, pages(n)));
    }
  }

  /** Given completion orders for every page, the walk gathers the records
      and failures of the pages it walked, as multisets, in listing order. */
  lemma ScheduleIrrelevant(listing: Listing, task: Task, schedule: PageUrls, n: nat)
    requires Completes(listing, schedule)
    ensures multiset(Gathered(task, schedule, n)) == multiset(Gathered(task, LinksOf(listing), n))
    ensures multiset(GatheredFailures(task, schedule, n)) == multiset(GatheredFailures(task, LinksOf(listing), n))
  {
    var pages := LinksOf(listing);
    forall p: nat | p <= n
      ensures SameLinks(schedule, pages, p)
    {
      assert CompletesPage(listing, schedule, p);
      assert pages(p) == PageLinks(listing, p);
    }
    GatheredOrderIrrelevant(task, pages, schedule, n);
    FailureOrderIrrelevant(task, pages, schedule, n);
  }

  /** The work for one listing page n that did not answer 404: collect its
      detail URLs, run the whole batch, whose fetches complete in the order
      `schedule` gives for page n, and add its records to those of pages
      1..n-1. */
  method ScrapePage(listing: Listing, task: Task, schedule: PageUrls, n: nat, books: seq<Book>)
    returns (books': seq<Book>)
    requires 1 <= n && CompletesPage(listing, schedule, n)
    requires books == Gathered(task, schedule, n - 1)
    ensures books' == Gathered(task, schedule, n)
  {
    var urls := CollectUrls(CatalogueRoot, PageAt(listing, n).hrefs);
    var items, failed := FetchBatch(task, urls, schedule(n));
    books' := books + items;
  }

  /** `scrape_books` without saving, running `task` for every detail URL
      (`GetBookData(fetch)` in the program): asks for pages 1, 2, ... in
      turn, stops at the first page that answers 404 (any other status is
      parsed like a normal page), and runs each earlier page's whole batch
      before asking for the next. `last` is the page that answered 404, so
      pages 1..last were asked for; `books` holds the records page by page,
      each page's in the order `schedule` says its batch completed. */
  method ScrapeBooks(listing: Listing, task: Task, schedule: PageUrls)
    returns (books: seq<Book>, last: nat)
    requires Completes(listing, schedule)
    ensures FirstNotFound(listing, last)
    ensures books == Gathered(task, schedule, last - 1)
  {
    var pageNum: nat := 1;
    books := [];
    while true
      invariant 1 <= pageNum <= |listing| + 1
      invariant forall p :: 1 <= p < pageNum ==> PageAt(listing, p).status != 404
      invariant books == Gathered(task, schedule, pageNum - 1)
      decreases |listing| + 1 - pageNum
    {
      var page := PageAt(listing, pageNum);
      if page.status == 404 {
        last := pageNum;
        break;
      }
      assert CompletesPage(listing, schedule, pageNum);
      books := ScrapePage(listing, task, schedule, pageNum, books);
      pageNum := pageNum + 1;
    }
  }

  // ---------------------------------------------------------------------
  // What the collection holds

  /** Every URL of every page walked is accounted for once: as a record or
      as a failure. */
  lemma {:induction false} GatheredAccounted(task: Task, pages: PageUrls, n: nat)
    ensures |Gathered(task, pages, n)| + |GatheredFailures(task, pages, n)| == LinkCount(pages, n)
    decreases n
  {
    if n > 0 {
      GatheredAccounted(task, pages, n - 1);
      BatchAccounted(task, pages(n));
    }
  }

  /** A record is gathered exactly when the task of some URL of some page
      walked produced it; so a failing task never keeps another URL's
      record out. */
  lemma {:induction false} GatheredMembership(task: Task, pages: PageUrls, n: nat, b: Book)
    ensures b in Gathered(task, pages, n) <==>
      exists p, u :: 1 <= p <= n && u in pages(p) && task(u) == Success(b)
    decreases n
  {
    if n > 0 {
      GatheredMembership(task, pages, n - 1, b);
      BatchMembership(task, pages(n), b);
    }
  }

  /** A URL is among the failures exactly when it is a URL of some page
      walked and its task failed. */
  lemma {:induction false} FailedMembership(task: Task, pages: PageUrls, n: nat, u: string)
    ensures u in GatheredFailures(task, pages, n) <==>
      exists p :: 1 <= p <= n && u in pages(p) && task(u).Failure?
    decreases n
  {
    if n > 0 {
      FailedMembership(task, pages, n - 1, u);
      Lists.FilterMapMembers((v: string) => FailureOf(task, v), pages(n), u);
    }
  }

  /** When no task fails, one record is gathered per URL. */
  lemma {:induction false} GatheredAllSucceed(task: Task, pages: PageUrls, n: nat)
    requires forall p, u :: 1 <= p <= n && u in pages(p) ==> task(u).Success?
    ensures |Gathered(task, pages, n)| == LinkCount(pages, n)
    decreases n
  {
    if n > 0 {
      GatheredAllSucceed(task, pages, n - 1);
      var f := (u: string) => BookOf(task, u);
      Lists.FilterMapKeepsAll(f, pages(n));
    }
  }

  /** Every record gathered by `get_book_data` has stripped title, price
      and availability (so its title is non-empty after stripping exactly
      when it is non-empty) and a rating, if any, between 1 and 5. */
  lemma GatheredBooksWellFormed(fetch: Fetcher, pages: PageUrls, n: nat, b: Book)
    requires b in Gathered(GetBookData(fetch), pages, n)
    ensures IsStripped(b.title) && IsStripped(b.price) && IsStripped(b.availability)
    ensures Strip(b.title) == b.title
    ensures b.rating.Some? ==> 1 <= b.rating.value <= 5
  {
    var task := GetBookData(fetch);
    GatheredMembership(task, pages, n, b);
    var p, u :| 1 <= p <= n && u in pages(p) && task(u) == Success(b);
    assert FetchBook(fetch, u) == Success(b);
    GetBookDataSucceeds(fetch, u);
    ExtractedBookFields(fetch(u).value);
    StripStripped(b.title);
  }
}
