/**
 * The body both crawl loops run for one book: fetch the book page (status
 * and redirect checked), parse it, download the text under
 * `"<id>. <title>"`, then the cover. A caught exception skips the book,
 * pausing after a `ConnectionError`; a parse error escapes.
 */
module BookCrawl {
  import opened Wrappers
  import opened Tululu
  import opened Crawl

  /** The cover's URL: the `src` of the cover image resolved against the book page's URL. */
  function CoverUrl(env: Env, link: string, book: Book): string {
    env.urljoin(link, book.linkImg)
  }

  /**
   * Reference: the book a loop keeps for the book page at `link`, when the
   * page request, its status and redirect checks, the parse, the text
   * download and the cover download all succeed.
   */
  function BookRecord(env: Env, link: string, bookId: string, parse: BookFields -> Result<Book, ParseError>): Option<Book> {
    var page := GetChecked(env, Request(link, []), true);
    if page.Err? then None
    else
      var parsed := parse(env.bookFields(page.value.text));
      if parsed.Err? then None
      else
        var book := parsed.value;
        if DownloadTxt(env, BaseUrl, bookId, TextFilename(bookId, book.title), TextFolder).Ok?
           && DownloadImg(env, CoverUrl(env, link, book), ImageFolder).Ok?
        then Some(book)
        else None
  }

  /** The book page at `link` was fetched, passed both checks, and did not parse. */
  predicate ParseFails(env: Env, link: string, parse: BookFields -> Result<Book, ParseError>) {
    var page := GetChecked(env, Request(link, []), true);
    page.Ok? && parse(env.bookFields(page.value.text)).Err?
  }

  /**
   * The body both loops run for one book: fetch the book page (status and
   * redirect checked), parse it, download the text under
   * `"<id>. <title>"`, then the cover. A caught exception skips the book,
   * pausing after a `ConnectionError`; a parse error escapes.
   */
  function BookStep(env: Env, link: string, bookId: string, parse: BookFields -> Result<Book, ParseError>): Step {
    var pageReq := Request(link, []);
    var fetched := [Fetched(BookPage, pageReq)];
    match GetChecked(env, pageReq, true)
    case Err(e) => Step(fetched + Pause(e), Skipped(e))
    case Ok(response) =>
      match parse(env.bookFields(response.text))
      case Err(fault) => Step(fetched, Fatal(fault))
      case Ok(book) =>
        var textReq := Fetched(BookText, TextRequest(BaseUrl, bookId));
        match DownloadTxt(env, BaseUrl, bookId, TextFilename(bookId, book.title), TextFolder)
        case Err(e) => Step(fetched + [textReq] + Pause(e), Skipped(e))
        case Ok(textPath) =>
          var imgUrl := CoverUrl(env, link, book);
          var saved := fetched + [textReq, Saved(BookText, textPath), Fetched(Cover, Request(imgUrl, []))];
          match DownloadImg(env, imgUrl, ImageFolder)
          case Err(e) => Step(saved + Pause(e), Skipped(e))
          case Ok(imgPath) => Step(saved + [Saved(Cover, imgPath)], Record(book))
  }

  /**
   * A book step starts with the request for its page; it keeps a book
   * exactly when the reference does, and the same book; it lets a parse
   * error escape exactly when the fetched page does not parse; and it never
   * ends without a verdict on its book.
   */
  lemma BookStepOutcome(env: Env, link: string, bookId: string, parse: BookFields -> Result<Book, ParseError>)
    ensures var s := BookStep(env, link, bookId, parse);
      && |s.events| >= 1 && s.events[0] == Fetched(BookPage, Request(link, []))
      && (s.outcome.Record? <==> BookRecord(env, link, bookId, parse).Some?)
      && (s.outcome.Record? ==> s.outcome.book == BookRecord(env, link, bookId, parse).value)
      && (s.outcome.Fatal? <==> ParseFails(env, link, parse))
      && !s.outcome.Done?
  {
  }

  /**
   * A kept book went through the whole body: its page, then its text,
   * saved as `"<id>. <title>"` (sanitized, with `.txt`) in `books/`, then
   * its cover, saved under its last path segment in `images/`.
   */
  lemma BookStepSavesFiles(env: Env, link: string, bookId: string, parse: BookFields -> Result<Book, ParseError>)
    ensures var s := BookStep(env, link, bookId, parse);
      s.outcome.Record? ==>
        var book := s.outcome.book;
        var coverUrl := CoverUrl(env, link, book);
        s.events == [Fetched(BookPage, Request(link, [])),
                     Fetched(BookText, TextRequest(BaseUrl, bookId)),
                     Saved(BookText, TextPath(env, TextFolder, bookId + ". " + book.title)),
                     Fetched(Cover, Request(coverUrl, [])),
                     Saved(Cover, ImagePath(env, coverUrl, ImageFolder))]
  {
  }

  /**
   * A book step sleeps exactly when it was skipped after a
   * `ConnectionError`, once, as its last effect; an `HTTPError` skip does
   * not sleep.
   */
  lemma BookStepPauses(env: Env, link: string, bookId: string, parse: BookFields -> Result<Book, ParseError>)
    ensures var s := BookStep(env, link, bookId, parse);
      && PausesOnConnectionError(s)
      && (Slept in s.events <==> s.outcome == Skipped(ConnectionError))
      && (Slept in s.events ==> s.events[|s.events| - 1] == Slept)
  {
  }

  /**
   * The cover is requested only right after the text was saved: a failed
   * text download means the cover is never attempted.
   */
  lemma BookStepCoverAfterText(env: Env, link: string, bookId: string, parse: BookFields -> Result<Book, ParseError>)
    ensures var s := BookStep(env, link, bookId, parse);
      forall k :: 0 <= k < |s.events| && s.events[k].Fetched? && s.events[k].what == Cover ==>
        1 <= k && s.events[k - 1].Saved? && s.events[k - 1].what == BookText
  {
    var s := BookStep(env, link, bookId, parse);
    var pageReq := Request(link, []);
    var page := GetChecked(env, pageReq, true);
    var ev := s.events;
    if page.Err? {
      assert ev == [Fetched(BookPage, pageReq)] + Pause(page.error);
    } else {
      var parsed := parse(env.bookFields(page.value.text));
      if parsed.Err? {
        assert ev == [Fetched(BookPage, pageReq)];
      } else {
        var book := parsed.value;
        var textReq := Fetched(BookText, TextRequest(BaseUrl, bookId));
        var text := DownloadTxt(env, BaseUrl, bookId, TextFilename(bookId, book.title), TextFolder);
        if text.Err? {
          assert ev == [Fetched(BookPage, pageReq), textReq] + Pause(text.error);
        } else {
          var imgUrl := CoverUrl(env, link, book);
          var saved := [Fetched(BookPage, pageReq), textReq, Saved(BookText, text.value), Fetched(Cover, Request(imgUrl, []))];
          var img := DownloadImg(env, imgUrl, ImageFolder);
          var tail := if img.Err? then Pause(img.error) else [Saved(Cover, img.value)];
          assert ev == saved + tail;
          assert forall k :: 0 <= k < |tail| ==> !tail[k].Fetched?;
          assert forall k :: 4 <= k < |ev| ==> ev[k] == tail[k - 4];
        }
      }
    }
  }

  /** After the book page, a book step only requests the text and the cover. */
  lemma BookStepLaterFetches(env: Env, link: string, bookId: string, parse: BookFields -> Result<Book, ParseError>)
    ensures var ev := BookStep(env, link, bookId, parse).events;
      forall k :: 1 <= k < |ev| && ev[k].Fetched? ==> ev[k].what == BookText || ev[k].what == Cover
  {
    var ev := BookStep(env, link, bookId, parse).events;
    var pageReq := Request(link, []);
    var page := GetChecked(env, pageReq, true);
    if page.Err? {
      assert ev == [Fetched(BookPage, pageReq)] + Pause(page.error);
    } else {
      var parsed := parse(env.bookFields(page.value.text));
      if parsed.Err? {
        assert ev == [Fetched(BookPage, pageReq)];
      } else {
        var book := parsed.value;
        var textReq := Fetched(BookText, TextRequest(BaseUrl, bookId));
        var text := DownloadTxt(env, BaseUrl, bookId, TextFilename(bookId, book.title), TextFolder);
        if text.Err? {
          assert ev == [Fetched(BookPage, pageReq), textReq] + Pause(text.error);
        } else {
          var imgUrl := CoverUrl(env, link, book);
          var saved := [Fetched(BookPage, pageReq), textReq, Saved(BookText, text.value), Fetched(Cover, Request(imgUrl, []))];
          var img := DownloadImg(env, imgUrl, ImageFolder);
          var tail := if img.Err? then Pause(img.error) else [Saved(Cover, img.value)];
          assert ev == saved + tail;
          assert forall k :: 4 <= k < |ev| ==> ev[k] == tail[k - 4];
        }
      }
    }
  }

  /** A book step issues exactly one book-page request, the one for its link, and no category-page request. */
  lemma BookStepRequests(env: Env, link: string, bookId: string, parse: BookFields -> Result<Book, ParseError>)
    ensures Requests(BookStep(env, link, bookId, parse).events, BookPage) == [Request(link, [])]
    ensures Requests(BookStep(env, link, bookId, parse).events, CategoryPage) == []
  {
    var ev := BookStep(env, link, bookId, parse).events;
    BookStepLaterFetches(env, link, bookId, parse);
    NoRequestsFrom(ev, 1, BookPage);
    NoRequestsFrom(ev, 1, CategoryPage);
    FirstRequest(ev, BookPage);
    FirstRequest(ev, CategoryPage);
  }

  /**
   * The loop body as the scripts run it: each request in turn, a `continue`
   * out of the matching `except` branch after a caught exception (sleeping
   * first after a `ConnectionError`), and the parse error left to escape.
   * `trail` is what the body did, `outcome` how it ended.
   */
  method CrawlBook(env: Env, link: string, bookId: string, parse: BookFields -> Result<Book, ParseError>)
    returns (trail: seq<Event>, outcome: Outcome)
    ensures Step(trail, outcome) == BookStep(env, link, bookId, parse)
  {
    var pageReq := Request(link, []);
    trail := [Fetched(BookPage, pageReq)];
    var page := GetChecked(env, pageReq, true);
    if page.Err? {
      if page.error == ConnectionError {
        trail := trail + [Slept];
      }
      return trail, Skipped(page.error);
    }
    var parsed := parse(env.bookFields(page.value.text));
    if parsed.Err? {
      return trail, Fatal(parsed.error);
    }
    var book := parsed.value;
    trail := trail + [Fetched(BookText, TextRequest(BaseUrl, bookId))];
    var text := DownloadTxt(env, BaseUrl, bookId, TextFilename(bookId, book.title), TextFolder);
    if text.Err? {
      if text.error == ConnectionError {
        trail := trail + [Slept];
      }
      return trail, Skipped(text.error);
    }
    trail := trail + [Saved(BookText, text.value)];
    var coverUrl := CoverUrl(env, link, book);
    trail := trail + [Fetched(Cover, Request(coverUrl, []))];
    var cover := DownloadImg(env, coverUrl, ImageFolder);
    if cover.Err? {
      if cover.error == ConnectionError {
        trail := trail + [Slept];
      }
      return trail, Skipped(cover.error);
    }
    trail := trail + [Saved(Cover, cover.value)];
    outcome := Record(book);
  }
}
