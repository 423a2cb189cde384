/**
 * `main()` of the category crawler: walk the pages of category `/l55/`,
 * and on each page every book table, keeping the description of every book
 * whose page, text and cover were all fetched; the list is then dumped as
 * JSON.
 */
module CategoryCrawl {
  import opened Wrappers
  import opened PyStr
  import opened Tululu
  import opened Crawl
  import opened BookCrawl

  const CategoryPath: string := "/l55/"

  /** `range(1, 5)`: the pages walked are 1 up to, not including, 5. */
  const FirstPage: int := 1
  const EndPage: int := 5

  /**
   * `parse_book_page` of this script: the genres are the links of the first
   * `span.d_book`, and a page without such a span raises.
   */
  function ParseBookPage(f: BookFields): (r: Result<Book, ParseError>)
    ensures f.genreSpans == [] ==> r.Err?
    ensures r.Ok? ==> r.value.genres == f.genreSpans[0]
  {
    BookFromFields(f, if f.genreSpans == [] then None else Some(f.genreSpans[0]))
  }

  /** `urljoin(urljoin(url, book_category), str(page))`, requested without parameters. */
  function PageRequest(env: Env, page: int): Request {
    Request(env.urljoin(env.urljoin(BaseUrl, CategoryPath), IntToStr(page)), [])
  }

  /** `urljoin(url, book_href)`. */
  function BookLink(env: Env, href: string): string {
    env.urljoin(BaseUrl, href)
  }

  /** The `href` of the first link of each book table on page `page`, when the page was fetched and has a content block. */
  function Tables(env: Env, page: int): seq<Option<string>> {
    match GetChecked(env, PageRequest(env, page), false)
    case Err(_) => []
    case Ok(response) =>
      match env.categoryTables(response.text)
      case None => []
      case Some(hrefs) => hrefs
  }

  /**
   * Fetching category page `page`: the status is checked but a redirect is
   * not; a fetched page without the content block raises. A page that
   * fails or raises has no tables to walk.
   */
  function PageStep(env: Env, page: int): Step
  {
    var req := PageRequest(env, page);
    var fetched := [Fetched(CategoryPage, req)];
    match GetChecked(env, req, false)
    case Err(e) => Step(fetched + Pause(e), Skipped(e))
    case Ok(response) =>
      if env.categoryTables(response.text).None? then Step(fetched, Fatal(MissingElement))
      else Step(fetched, Done)
  }

  /**
   * A page step starts with the request for its page; it goes on to the
   * tables exactly when the page was fetched, passed the status check and
   * has a content block, and raises when a fetched page has none; a page
   * answered with a success status is not
   * skipped, even when redirected; a page step never keeps a book; and a
   * page that fails or raises has no tables to walk.
   */
  lemma PageStepOutcome(env: Env, page: int)
    ensures var s := PageStep(env, page);
      && |s.events| >= 1 && s.events[0] == Fetched(CategoryPage, PageRequest(env, page))
      && (s.outcome.Done? <==> GetChecked(env, PageRequest(env, page), false).Ok?
                               && env.categoryTables(GetChecked(env, PageRequest(env, page), false).value.text).Some?)
      && (GetChecked(env, PageRequest(env, page), false).Ok?
          && env.categoryTables(GetChecked(env, PageRequest(env, page), false).value.text).None?
          ==> s.outcome == Fatal(MissingElement))
      && (env.net(PageRequest(env, page)).Got? && !(400 <= env.net(PageRequest(env, page)).response.status < 600)
          ==> !s.outcome.Skipped?)
      && !s.outcome.Record?
      && (!s.outcome.Done? ==> Tables(env, page) == [])
  {
  }

  /** The three ways a page step ends, and the tables each leaves to walk. */
  lemma PageStepCases(env: Env, page: int)
    ensures var req, ps, tables := PageRequest(env, page), PageStepOf(env)(page), TablesOf(env)(page);
      && (GetChecked(env, req, false).Err? ==>
            var e := GetChecked(env, req, false).error;
            ps == Step([Fetched(CategoryPage, req)] + Pause(e), Skipped(e)) && tables == [])
      && (GetChecked(env, req, false).Ok? && env.categoryTables(GetChecked(env, req, false).value.text).None? ==>
            ps == Step([Fetched(CategoryPage, req)], Fatal(MissingElement)) && tables == [])
      && (GetChecked(env, req, false).Ok? && env.categoryTables(GetChecked(env, req, false).value.text).Some? ==>
            ps == Step([Fetched(CategoryPage, req)], Done) && tables == env.categoryTables(GetChecked(env, req, false).value.text).value)
  {
  }

  /** One book table: a table without a linked `href` raises; otherwise the book behind the link is fetched. */
  function TableStep(env: Env, href: Option<string>): Step {
    match href
    case None => Step([], Fatal(MissingElement))
    case Some(h) => BookStep(env, BookLink(env, h), BookId(h), ParseBookPage)
  }

  /** Reference: the book a table contributes, if every request for it succeeded. */
  function TableBook(env: Env, href: Option<string>): seq<Book> {
    if href.None? then []
    else match BookRecord(env, BookLink(env, href.value), BookId(href.value), ParseBookPage)
      case None => []
      case Some(book) => [book]
  }

  function PageStepOf(env: Env): int -> Step {
    page => PageStep(env, page)
  }

  function TablesOf(env: Env): int -> seq<Option<string>> {
    page => Tables(env, page)
  }

  function TableStepOf(env: Env): Option<string> -> Step {
    href => TableStep(env, href)
  }

  function TableBookOf(env: Env): Option<string> -> seq<Book> {
    href => TableBook(env, href)
  }

  function PageRequestOf(env: Env): int -> Request {
    page => PageRequest(env, page)
  }

  /** Everything the script does, page after page and, within a page, table after table. */
  function CategorySteps(env: Env): seq<Step> {
    Pages(PageStepOf(env), TablesOf(env), TableStepOf(env), FirstPage, EndPage)
  }

  /** The run of the whole script. */
  function CategoryRun(env: Env): Run {
    Collect(CategorySteps(env))
  }

  /** Reference: the books of pages 1 to 4, page after page, table after table, each kept iff all its requests succeeded. */
  function CategoryBooks(env: Env): seq<Book> {
    PagesFlatten(TablesOf(env), TableBookOf(env), FirstPage, EndPage)
  }

  /** A table keeps exactly the reference book, and a table without a linked `href` raises. */
  lemma TableStepKeepsTableBook(env: Env, href: Option<string>)
    ensures KeptBy(TableStep(env, href)) == TableBook(env, href)
    ensures href.None? ==> TableStep(env, href).outcome == Fatal(MissingElement)
  {
    if href.Some? {
      BookStepOutcome(env, BookLink(env, href.value), BookId(href.value), ParseBookPage);
    }
  }

  /**
   * The collected list is the reference filter over pages and tables: a
   * book is kept iff its page, text and cover were all fetched, in page
   * order and then table order, without deduplication. An escaped parse
   * error cuts the list short but never reorders it.
   */
  lemma CategoryCollectsReferenceBooks(env: Env)
    ensures CategoryRun(env).books <= CategoryBooks(env)
    ensures CategoryRun(env).fatal.None? ==> CategoryRun(env).books == CategoryBooks(env)
  {
    var P, T, S := PageStepOf(env), TablesOf(env), TableStepOf(env);
    forall page
      ensures !P(page).outcome.Record?
    {
      PageStepOutcome(env, page);
    }
    forall href
      ensures KeptBy(S(href)) == TableBookOf(env)(href)
    {
      TableStepKeepsTableBook(env, href);
    }
    PagesKeep(P, T, S, TableBookOf(env), FirstPage, EndPage);
    CollectIsPrefix(CategorySteps(env));
    CollectNoFatal(CategorySteps(env));
  }

  lemma PageStepRequests(env: Env, page: int)
    ensures Requests(PageStep(env, page).events, CategoryPage) == [PageRequest(env, page)]
  {
    var ev := PageStep(env, page).events;
    PageStepOutcome(env, page);
    assert forall k :: 1 <= k < |ev| ==> ev[k] == Slept;
    NoRequestsFrom(ev, 1, CategoryPage);
    FirstRequest(ev, CategoryPage);
  }

  lemma TableStepRequests(env: Env, href: Option<string>)
    ensures Requests(TableStep(env, href).events, CategoryPage) == []
  {
    if href.Some? {
      BookStepRequests(env, BookLink(env, href.value), BookId(href.value), ParseBookPage);
    }
  }

  /**
   * The category pages requested are pages 1, 2, 3 and 4, in this order,
   * each once; an escaped parse error stops the walk early.
   */
  lemma CategoryPagesInOrder(env: Env)
    ensures Requests(CategoryRun(env).events, CategoryPage) <= Map(PageRequestOf(env), Range(FirstPage, EndPage))
    ensures CategoryRun(env).fatal.None? ==>
      Requests(CategoryRun(env).events, CategoryPage) == Map(PageRequestOf(env), Range(FirstPage, EndPage))
  {
    var P, T, S := PageStepOf(env), TablesOf(env), TableStepOf(env);
    forall page
      ensures Requests(P(page).events, CategoryPage) == [PageRequestOf(env)(page)]
    {
      PageStepRequests(env, page);
    }
    forall href
      ensures Requests(S(href).events, CategoryPage) == []
    {
      TableStepRequests(env, href);
    }
    PagesRequests(P, T, S, FirstPage, EndPage, CategoryPage, PageRequestOf(env));
    CollectIsPrefix(CategorySteps(env));
    CollectNoFatal(CategorySteps(env));
    RequestsPrefix(CategoryRun(env).events, AllEvents(CategorySteps(env)), CategoryPage);
  }

  /** The pages walked are exactly pages 1, 2, 3 and 4. */
  lemma CategoryPagesListed(env: Env)
    ensures Map(PageRequestOf(env), Range(FirstPage, EndPage))
            == [PageRequest(env, 1), PageRequest(env, 2), PageRequest(env, 3), PageRequest(env, 4)]
  {
    var pages := Range(FirstPage, EndPage);
    assert pages == [1, 2, 3, 4];
    MapAt(PageRequestOf(env), pages);
  }

  /**
   * When the run completes, it slept once per page or book skipped after a
   * `ConnectionError`, and never after an `HTTPError`.
   */
  lemma CategorySleeps(env: Env)
    ensures CategoryRun(env).fatal.None? ==> Sleeps(CategoryRun(env).events) == ConnectionSkips(CategorySteps(env))
  {
    var P, T, S := PageStepOf(env), TablesOf(env), TableStepOf(env);
    forall page
      ensures PausesOnConnectionError(P(page))
    {
    }
    forall href
      ensures PausesOnConnectionError(S(href))
    {
      if href.Some? {
        BookStepPauses(env, BookLink(env, href.value), BookId(href.value), ParseBookPage);
      }
    }
    PagesSleeps(P, T, S, FirstPage, EndPage);
    CollectNoFatal(CategorySteps(env));
  }

  /**
   * One pass of the table loop, continuing the run `Run(books0, events0,
   * None)`: a table without a linked `href` raises; otherwise the book
   * behind the link is fetched, and kept when every request for it
   * succeeded.
   */
  method CrawlTable(env: Env, href: Option<string>, books0: seq<Book>, events0: seq<Event>)
    returns (books: seq<Book>, events: seq<Event>, fatal: Option<ParseError>)
    ensures Run(books, events, fatal) == Then(Run(books0, events0, None), TableStep(env, href))
  {
    if href.None? {
      return books0, events0, Some(MissingElement);
    }
    var trail, outcome := CrawlBook(env, BookLink(env, href.value), BookId(href.value), ParseBookPage);
    books, events, fatal := books0, events0 + trail, None;
    if outcome.Fatal? {
      fatal := Some(outcome.fault);
    } else if outcome.Record? {
      books := books + [outcome.book];
    }
  }

  /**
   * The table loop of a page, after the steps `prefix` whose run gathered
   * `books0` and `events0`: each table in turn, stopping at the first
   * escaped parse error. The run gathered is that of `prefix` followed by
   * every table's step, since nothing happens after an escaped error.
   */
  method CrawlTables(env: Env, hrefs: seq<Option<string>>, ghost prefix: seq<Step>, books0: seq<Book>, events0: seq<Event>)
    returns (books: seq<Book>, events: seq<Event>, fatal: Option<ParseError>)
    requires Collect(prefix) == Run(books0, events0, None)
    ensures Collect(prefix + Map(TableStepOf(env), hrefs)) == Run(books, events, fatal)
  {
    books, events, fatal := books0, events0, None;
    ghost var S := TableStepOf(env);
    StepsNone(S, hrefs, prefix);
    for j := 0 to |hrefs|
      invariant fatal.None?
      invariant Collect(prefix + Map(S, hrefs[..j])) == Run(books, events, None)
    {
      StepsNext(S, hrefs, prefix, j);
      assert S(hrefs[j]) == TableStep(env, hrefs[j]);
      books, events, fatal := CrawlTable(env, hrefs[j], books, events);
      if fatal.Some? {
        StepsStop(S, hrefs, prefix, j + 1);
        return;
      }
    }
    StepsAll(S, hrefs, prefix);
  }

  /**
   * One pass of the page loop, after the earlier pages' steps `done`: fetch
   * page `page`, then walk its tables.
   */
  method CrawlPage(env: Env, page: int, ghost done: seq<Step>, books0: seq<Book>, events0: seq<Event>)
    returns (books: seq<Book>, events: seq<Event>, fatal: Option<ParseError>)
    requires Collect(done) == Run(books0, events0, None)
    ensures Collect(done + ([PageStepOf(env)(page)] + Map(TableStepOf(env), TablesOf(env)(page)))) == Run(books, events, fatal)
  {
    books, events, fatal := books0, events0, None;
    ghost var ps, tables := PageStepOf(env)(page), TablesOf(env)(page);
    PageThen(TableStepOf(env), done, ps, tables);
    PageStepCases(env, page);
    var pageReq := Request(env.urljoin(env.urljoin(BaseUrl, CategoryPath), IntToStr(page)), []);
    events := events + [Fetched(CategoryPage, pageReq)];
    var response := GetChecked(env, pageReq, false);
    if response.Err? {
      if response.error == ConnectionError {
        events := events + [Slept];
      }
      return;
    }
    var hrefs := env.categoryTables(response.value.text);
    if hrefs.None? {
      fatal := Some(MissingElement);
      return;
    }
    books, events, fatal := CrawlTables(env, hrefs.value, done + [ps], books, events);
  }

  /**
   * The script's page loop, pages 1 to 4; the books collected, the effects
   * and the escaped exception are those of the reference run.
   */
  method CrawlCategory(env: Env) returns (books: seq<Book>, events: seq<Event>, fatal: Option<ParseError>)
    ensures Run(books, events, fatal) == CategoryRun(env)
  {
    books, events, fatal := [], [], None;
    ghost var P, T, S := PageStepOf(env), TablesOf(env), TableStepOf(env);
    for page := FirstPage to EndPage
      invariant fatal.None?
      invariant Collect(Pages(P, T, S, FirstPage, page)) == Run(books, events, None)
    {
      ghost var done := Pages(P, T, S, FirstPage, page);
      assert Pages(P, T, S, FirstPage, page + 1) == done + ([P(page)] + Map(S, T(page)));
      books, events, fatal := CrawlPage(env, page, done, books, events);
      if fatal.Some? {
        PagesStop(P, T, S, FirstPage, page + 1, EndPage);
        return;
      }
    }
  }
}
