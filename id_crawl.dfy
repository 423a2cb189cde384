/**
 * `main()` of the id crawler: for every id from `start_id` up to, not
 * including, `end_id`, fetch the book page `/b<id>/`, parse it, and
 * download its text and cover. Nothing is collected; a book whose text and
 * cover were both saved is only logged as downloaded.
 */
module IdCrawl {
  import opened Wrappers
  import opened PyStr
  import opened Tululu
  import opened Crawl
  import opened BookCrawl
  import CategoryCrawl

  /** The defaults of `--start_id` and `--end_id`. */
  const DefaultStartId: int := 1
  const DefaultEndId: int := 11

  /**
   * The book page of id `index`: the site's URL, which already ends in a
   * slash, followed by `/b<index>/`.
   */
  function BookPageUrl(index: int): string {
    BaseUrl + "/b" + IntToStr(index) + "/"
  }

  /**
   * `parse_book_page` of this script: the genres are the links of every
   * `span.d_book`, an empty list when there is none, so a page without
   * genres still parses.
   */
  function ParseIndexedBook(f: BookFields): Result<Book, ParseError> {
    BookFromFields(f, Some(AllGenres(f.genreSpans)))
  }

  /** One pass of the loop: the book of id `index`, saved under `"<index>. <title>"`. */
  function IndexStep(env: Env, index: int): Step {
    BookStep(env, BookPageUrl(index), IntToStr(index), ParseIndexedBook)
  }

  /** Reference: the book id `index` downloads, if every request for it succeeded. */
  function IndexBook(env: Env, index: int): seq<Book> {
    match BookRecord(env, BookPageUrl(index), IntToStr(index), ParseIndexedBook)
    case None => []
    case Some(book) => [book]
  }

  function IndexStepOf(env: Env): int -> Step {
    index => IndexStep(env, index)
  }

  function IndexBookOf(env: Env): int -> seq<Book> {
    index => IndexBook(env, index)
  }

  function BookPageRequestOf(): int -> Request {
    index => Request(BookPageUrl(index), [])
  }

  /** Everything the script does for `range(startId, endId)`, id after id. */
  function IdSteps(env: Env, startId: int, endId: int): seq<Step> {
    Map(IndexStepOf(env), Range(startId, endId))
  }

  /** The run of the whole script; its books are those logged as downloaded. */
  function IdRun(env: Env, startId: int, endId: int): Run {
    Collect(IdSteps(env, startId, endId))
  }

  /**
   * This parser accepts every page the category crawler's parser accepts,
   * with the same title, author, cover and comments, and with genres that
   * start with the first span's; with at most one genre span the books are
   * the same. It also accepts a page without any genre span, which the
   * other one rejects, and then gives no genres.
   */
  lemma ParsersAgree(f: BookFields)
    ensures var c, m := CategoryCrawl.ParseBookPage(f), ParseIndexedBook(f);
      && (c.Ok? ==> m.Ok? && m.value.genres == AllGenres(f.genreSpans) && c.value.genres <= m.value.genres
                    && m.value == c.value.(genres := m.value.genres))
      && (c.Ok? && |f.genreSpans| <= 1 ==> m == c)
      && (f.genreSpans == [] ==> c.Err? && (m.Ok? ==> m.value.genres == []))
      && (m.Err? ==> c.Err?)
  {
    var spans := f.genreSpans;
    BookFromFieldsSpec(f, if spans == [] then None else Some(spans[0]));
    BookFromFieldsSpec(f, Some(AllGenres(spans)));
    if spans != [] {
      assert AllGenres(spans) == spans[0] + AllGenres(spans[1..]);
      if |spans| == 1 {
        assert AllGenres(spans[1..]) == [];
        assert AllGenres(spans) == spans[0];
      }
    }
  }

  /** Different ids are fetched at different book pages. */
  lemma BookPageUrlInjective(i: int, j: int)
    requires BookPageUrl(i) == BookPageUrl(j)
    ensures i == j
  {
    var p := BaseUrl + "/b";
    var u := BookPageUrl(i);
    assert u == p + IntToStr(i) + "/" == p + IntToStr(j) + "/";
    assert IntToStr(i) == u[|p|..|u| - 1] == IntToStr(j);
    IntToStrInjective(i, j);
  }

  /** With the defaults, the ids walked are 1 to 10, ten of them. */
  lemma DefaultIds()
    ensures Range(DefaultStartId, DefaultEndId) == [1, 2, 3, 4, 5, 6, 7, 8, 9, 10]
  {
    var ids := Range(DefaultStartId, DefaultEndId);
    RangeAt(DefaultStartId, DefaultEndId);
    assert |ids| == 10;
  }

  /**
   * The collected list is the reference filter over the ids: a book counts
   * as downloaded iff its page, text and cover were all fetched, in id
   * order. An escaped parse error cuts the list short.
   */
  lemma IdRunKeepsReference(env: Env, startId: int, endId: int)
    ensures IdRun(env, startId, endId).books <= Flatten(IndexBookOf(env), Range(startId, endId))
    ensures IdRun(env, startId, endId).fatal.None? ==>
      IdRun(env, startId, endId).books == Flatten(IndexBookOf(env), Range(startId, endId))
  {
    var S := IndexStepOf(env);
    forall index
      ensures KeptBy(S(index)) == IndexBookOf(env)(index)
    {
      BookStepOutcome(env, BookPageUrl(index), IntToStr(index), ParseIndexedBook);
    }
    StepsKeep(S, IndexBookOf(env), Range(startId, endId));
    CollectIsPrefix(IdSteps(env, startId, endId));
    CollectNoFatal(IdSteps(env, startId, endId));
  }

  /**
   * The book pages requested are those of the ids in order, each once; an
   * escaped parse error stops the walk early. An empty range requests
   * nothing.
   */
  lemma IdPagesInOrder(env: Env, startId: int, endId: int)
    ensures Requests(IdRun(env, startId, endId).events, BookPage) <= Map(BookPageRequestOf(), Range(startId, endId))
    ensures IdRun(env, startId, endId).fatal.None? ==>
      Requests(IdRun(env, startId, endId).events, BookPage) == Map(BookPageRequestOf(), Range(startId, endId))
  {
    var S := IndexStepOf(env);
    forall index
      ensures Requests(S(index).events, BookPage) == [BookPageRequestOf()(index)]
    {
      BookStepRequests(env, BookPageUrl(index), IntToStr(index), ParseIndexedBook);
    }
    StepsRequests(S, Range(startId, endId), BookPage, BookPageRequestOf());
    CollectIsPrefix(IdSteps(env, startId, endId));
    CollectNoFatal(IdSteps(env, startId, endId));
    RequestsPrefix(IdRun(env, startId, endId).events, AllEvents(IdSteps(env, startId, endId)), BookPage);
  }

  /**
   * When the run completes, it slept once per book skipped after a
   * `ConnectionError`, and never after an `HTTPError`.
   */
  lemma IdSleeps(env: Env, startId: int, endId: int)
    ensures IdRun(env, startId, endId).fatal.None? ==>
      Sleeps(IdRun(env, startId, endId).events) == ConnectionSkips(IdSteps(env, startId, endId))
  {
    var S := IndexStepOf(env);
    forall index
      ensures PausesOnConnectionError(S(index))
    {
      BookStepPauses(env, BookPageUrl(index), IntToStr(index), ParseIndexedBook);
    }
    StepsSleeps(S, Range(startId, endId));
    CollectNoFatal(IdSteps(env, startId, endId));
  }

  /** The run of the script, as a run continued from no steps at all. */
  lemma IdRunFromEmpty(env: Env, startId: int, endId: int)
    ensures IdRun(env, startId, endId) == Collect([] + Map(IndexStepOf(env), Range(startId, endId)))
  {
    assert [] + Map(IndexStepOf(env), Range(startId, endId)) == IdSteps(env, startId, endId);
  }

  /**
   * One pass of the loop for id `index`, continuing the run `Run(books0,
   * events0, None)`: the book is fetched, and counted as downloaded when
   * every request for it succeeded.
   */
  method CrawlIndex(env: Env, index: int, books0: seq<Book>, events0: seq<Event>)
    returns (books: seq<Book>, events: seq<Event>, fatal: Option<ParseError>)
    ensures Run(books, events, fatal) == Then(Run(books0, events0, None), IndexStepOf(env)(index))
  {
    var trail, outcome := CrawlBook(env, BookPageUrl(index), IntToStr(index), ParseIndexedBook);
    books, events, fatal := books0, events0 + trail, None;
    if outcome.Fatal? {
      fatal := Some(outcome.fault);
    } else if outcome.Record? {
      books := books + [outcome.book];
    }
  }

  /**
   * The script's loop over `range(startId, endId)`; the books downloaded,
   * the effects and the escaped exception are those of the reference run.
   */
  method CrawlIds(env: Env, startId: int, endId: int) returns (books: seq<Book>, events: seq<Event>, fatal: Option<ParseError>)
    ensures Run(books, events, fatal) == IdRun(env, startId, endId)
  {
    var ids := Range(startId, endId);
    IdRunFromEmpty(env, startId, endId);
    books, events, fatal := CrawlIndices(env, ids);
  }

  /**
   * The loop body for each id of `ids` in turn, stopping at the first
   * escaped parse error.
   */
  method CrawlIndices(env: Env, ids: seq<int>) returns (books: seq<Book>, events: seq<Event>, fatal: Option<ParseError>)
    ensures Collect([] + Map(IndexStepOf(env), ids)) == Run(books, events, fatal)
  {
    books, events, fatal := [], [], None;
    ghost var S := IndexStepOf(env);
    StepsNone(S, ids, []);
    for j := 0 to |ids|
      invariant fatal.None?
      invariant Collect([] + Map(S, ids[..j])) == Run(books, events, None)
    {
      StepsNext(S, ids, [], j);
      books, events, fatal := CrawlIndex(env, ids[j], books, events);
      if fatal.Some? {
        StepsStop(S, ids, [], j + 1);
        return;
      }
    }
    StepsAll(S, ids, []);
  }
}
