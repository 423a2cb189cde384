/**
 * The helpers that both crawl scripts carry as identical copies
 * (`check_for_redirect`, the header split in `parse_book_page`, the book-id
 * slice, and the file names built by `download_txt` and `download_img`),
 * together with a model of the `requests` calls they make.
 *
 * The network is a parameter: `Env.net` gives the outcome of each GET
 * request. `urljoin`, the path part of `urlsplit`, `sanitize_filename` and
 * the BeautifulSoup look-ups are parameters too, since their code is not
 * part of this model.
 */
module Tululu {
  import opened Wrappers
  import opened PyStr

  const BaseUrl: string := "https://tululu.org/"

  /** The separator between title and author in a book page's `<h1>`. */
  const Delimiter: string := "\U{a0} :: \U{a0}"

  const TextFolder: string := "books/"
  const ImageFolder: string := "images/"

  /** A GET request: the URL and the query parameters `requests` appends to it. */
  datatype Request = Request(url: string, params: seq<(string, string)>)

  /** A completed response: status code, decoded body and the redirects that led to it. */
  datatype Response = Response(status: int, text: string, history: seq<string>)

  /** What `requests.get` gives: a `ConnectionError`, or a response. */
  datatype Fetch = ConnErr | Got(response: Response)

  /** The two exceptions the scripts catch. */
  datatype NetError = ConnectionError | HTTPError

  /**
   * What BeautifulSoup finds on a book page, already extracted; `None` stands
   * for an element (or attribute) the look-up did not find.
   */
  datatype BookFields = BookFields(
    header: Option<string>,         // text of the `<h1>` in the content block
    imgSrc: Option<string>,         // `src` of the cover `<img>`
    comments: seq<Option<string>>,  // per comment block, the text of its `span.black`
    genreSpans: seq<seq<string>>    // per `span.d_book`, in page order, the texts of its links
  )

  /** The dict `parse_book_page` returns, as dumped to JSON. */
  datatype Book = Book(title: string, author: string, linkImg: string, comments: seq<string>, genres: seq<string>)

  /**
   * The exceptions `parse_book_page` can raise: a missing element
   * (`AttributeError`, `TypeError`, `KeyError`), or a header without the
   * delimiter (`IndexError`). Nothing in either script catches them.
   */
  datatype ParseError = MissingElement | MissingDelimiter

  /** Everything the crawl depends on that is outside this model. */
  datatype Env = Env(
    net: Request -> Fetch,
    urljoin: (string, string) -> string,
    urlPath: string -> string,
    sanitize: string -> string,
    bookFields: string -> BookFields,
    categoryTables: string -> Option<seq<Option<string>>>
  )

  /** `response.raise_for_status()`. */
  function RaiseForStatus(r: Response): (e: Option<NetError>)
    ensures e.Some? <==> 400 <= r.status < 600
    ensures e.Some? ==> e.value == HTTPError
  {
    if 400 <= r.status < 500 then Some(HTTPError)      // client error
    else if 500 <= r.status < 600 then Some(HTTPError) // server error
    else None
  }

  /** `check_for_redirect(response)`. */
  function CheckForRedirect(r: Response): (e: Option<NetError>)
    ensures e.Some? <==> r.history != []
    ensures e.Some? ==> e.value == HTTPError
  {
    if r.history != [] then Some(HTTPError) else None
  }

  /**
   * One `try` block: `requests.get`, then `raise_for_status()`, then (when
   * `redirectCheck`) `check_for_redirect`. The response comes back only when
   * none of them raised.
   */
  function GetChecked(env: Env, req: Request, redirectCheck: bool): Result<Response, NetError>
  {
    match env.net(req)
    case ConnErr => Err(ConnectionError)
    case Got(response) =>
      if RaiseForStatus(response).Some? then Err(HTTPError)
      else if redirectCheck && CheckForRedirect(response).Some? then Err(HTTPError)
      else Ok(response)
  }

  /**
   * A `ConnectionError` comes back exactly when the request could not be
   * made; the response comes back exactly when it was made, its status is
   * not an error status and, when checked, it was not redirected.
   */
  lemma GetCheckedSpec(env: Env, req: Request, redirectCheck: bool)
    ensures var r := GetChecked(env, req, redirectCheck);
      && (r == Err(ConnectionError) <==> env.net(req).ConnErr?)
      && (r.Ok? <==>
           && env.net(req).Got?
           && !(400 <= env.net(req).response.status < 600)
           && (redirectCheck ==> env.net(req).response.history == []))
      && (r.Ok? ==> r.value == env.net(req).response)
  {
  }

  /** The title: the header's text before the first delimiter, stripped. */
  function HeaderTitle(header: string): string {
    Strip(Split(header, Delimiter)[0])
  }

  /** The author: the header's text after the first delimiter up to the next one, stripped. */
  function HeaderAuthor(header: string): Result<string, ParseError> {
    var parts := Split(header, Delimiter);
    if |parts| < 2 then Err(MissingDelimiter) else Ok(Strip(parts[1]))
  }

  /** The title is the stripped text before the first delimiter, and an author exists. */
  lemma TitleBeforeDelimiter(header: string, i: nat)
    requires FirstAt(header, Delimiter, i)
    ensures HeaderTitle(header) == Strip(header[..i])
    ensures HeaderAuthor(header).Ok?
  {
    FindIsFirst(header, Delimiter, i);
  }

  /** With a second delimiter at offset `j` after the first, the author is the stripped text between them. */
  lemma AuthorBetweenDelimiters(header: string, i: nat, j: nat)
    requires FirstAt(header, Delimiter, i)
    requires FirstAt(header[i + |Delimiter|..], Delimiter, j)
    ensures HeaderAuthor(header) == Ok(Strip(header[i + |Delimiter|..][..j]))
  {
    FindIsFirst(header, Delimiter, i);
    SplitAtFirst(header, Delimiter, i);
    FindIsFirst(header[i + |Delimiter|..], Delimiter, j);
  }

  /** With only one delimiter, the author is the stripped rest of the header. */
  lemma AuthorAfterOnlyDelimiter(header: string, i: nat)
    requires FirstAt(header, Delimiter, i)
    requires Absent(header[i + |Delimiter|..], Delimiter)
    ensures HeaderAuthor(header) == Ok(Strip(header[i + |Delimiter|..]))
  {
    FindIsFirst(header, Delimiter, i);
    SplitAtFirst(header, Delimiter, i);
    FindAbsent(header[i + |Delimiter|..], Delimiter);
  }

  /** Without a delimiter the author look-up raises, and the title is the whole header, stripped. */
  lemma NoDelimiterNoAuthor(header: string)
    requires Absent(header, Delimiter)
    ensures HeaderAuthor(header) == Err(MissingDelimiter)
    ensures HeaderTitle(header) == Strip(header)
  {
    FindAbsent(header, Delimiter);
  }

  /**
   * A stripped title followed by the delimiter cannot hide an earlier
   * delimiter: the delimiter's only non-blank characters are the colons,
   * and after a colon comes a space, never the no-break space the appended
   * delimiter starts with.
   */
  lemma DelimiterAfterStrippedTitle(t: string, a: string)
    requires Stripped(t) && Absent(t, Delimiter)
    ensures FirstAt(t + Delimiter + a, Delimiter, |t|)
  {
    var s := t + Delimiter + a;
    var n := |Delimiter|;
    assert s[|t|..|t| + n] == Delimiter;
    forall j | 0 <= j < |t|
      ensures !OccursAt(s, Delimiter, j)
    {
      if j + n <= |t| {
        assert s[j..j + n] == t[j..j + n];
        assert !OccursAt(t, Delimiter, j);
      } else {
        var k := |t| - 1 - j;
        assert 0 <= k < n - 1;
        assert s[|t| - 1] == t[|t| - 1];
        assert s[|t|] == Delimiter[0];
        assert s[j..j + n][k] == s[|t| - 1] && s[j..j + n][k + 1] == s[|t|];
        assert Delimiter[k] != t[|t| - 1] || Delimiter[k + 1] != Delimiter[0];
      }
    }
  }

  /**
   * Round trip of the header split: a stripped title and author without the
   * delimiter, joined by it, are recovered exactly.
   */
  lemma HeaderRoundTrip(t: string, a: string)
    requires Stripped(t) && Absent(t, Delimiter)
    requires Stripped(a) && Absent(a, Delimiter)
    ensures HeaderTitle(t + Delimiter + a) == t
    ensures HeaderAuthor(t + Delimiter + a) == Ok(a)
  {
    var s := t + Delimiter + a;
    DelimiterAfterStrippedTitle(t, a);
    assert s[..|t|] == t;
    assert s[|t| + |Delimiter|..] == a;
    AuthorAfterOnlyDelimiter(s, |t|);
    TitleBeforeDelimiter(s, |t|);
    StrippedFixed(t);
    StrippedFixed(a);
  }

  /**
   * Conversely, a header whose split has exactly two pieces is title piece,
   * delimiter, author piece, and title and author are those pieces stripped.
   */
  lemma HeaderIsTitleDelimiterAuthor(header: string)
    requires |Split(header, Delimiter)| == 2
    ensures var parts := Split(header, Delimiter);
      && header == parts[0] + Delimiter + parts[1]
      && HeaderTitle(header) == Strip(parts[0])
      && HeaderAuthor(header) == Ok(Strip(parts[1]))
  {
    var parts := Split(header, Delimiter);
    JoinSplit(header, Delimiter);
    assert parts[1..] == [parts[1]];
  }

  /** `book_href[2:-1]`: the link `/b<id>/` without its first two and its last character. */
  function BookId(href: string): (id: string)
    ensures |href| >= 3 ==> id == href[2..|href| - 1]
    ensures |href| < 3 ==> id == []
  {
    Slice(href, 2, -1)
  }

  /** The slice undoes the `/b<id>/` link convention. */
  lemma BookIdOfLink(id: string)
    ensures BookId("/b" + id + "/") == id
  {
    var href := "/b" + id + "/";
    assert href[2..|href| - 1] == id;
  }

  /** `f"{book_id}. {title}"`, the name the text file is saved under. */
  function TextFilename(bookId: string, title: string): string {
    bookId + ". " + title
  }

  /** The text file's name is the id, a full stop and a space, then the title. */
  lemma TextFilenameParts(bookId: string, title: string)
    ensures var name := TextFilename(bookId, title);
      && |name| == |bookId| + 2 + |title|
      && name[..|bookId|] == bookId
      && name[|bookId|..|bookId| + 2] == ". "
      && name[|bookId| + 2..] == title
  {
  }

  /** `os.path.join(folder, name)` for POSIX paths. */
  function PathJoin(folder: string, name: string): string {
    if name != [] && name[0] == '/' then name
    else if folder == [] || folder[|folder| - 1] == '/' then folder + name
    else folder + "/" + name
  }

  /**
   * The joined path ends with `name`; an absolute `name` replaces the
   * folder; a folder that ends in `/` is simply prefixed.
   */
  lemma PathJoinEndsWithName(folder: string, name: string)
    ensures var path := PathJoin(folder, name);
      && |path| >= |name| && path[|path| - |name|..] == name
      && (name != [] && name[0] == '/' ==> path == name)
      && ((name == [] || name[0] != '/') && (folder == [] || folder[|folder| - 1] == '/') ==> path == folder + name)
  {
  }

  /** Where `download_txt` writes: `folder` joined with the sanitized name plus `.txt`. */
  function TextPath(env: Env, folder: string, filename: string): string {
    PathJoin(folder, env.sanitize(filename) + ".txt")
  }

  /** The text file's path ends with the sanitized file name and `.txt`. */
  lemma TextPathEndsInTxt(env: Env, folder: string, filename: string)
    ensures var path, name := TextPath(env, folder, filename), env.sanitize(filename) + ".txt";
      && |path| >= |name| && path[|path| - |name|..] == name
      && path[|path| - 4..] == ".txt"
  {
    var name := env.sanitize(filename) + ".txt";
    var path := TextPath(env, folder, filename);
    PathJoinEndsWithName(folder, name);
    assert path[|path| - 4..] == path[|path| - |name|..][|name| - 4..];
  }

  /** `urlsplit(url).path.split("/")[-1]`, the name the cover is saved under. */
  function ImageFilename(env: Env, url: string): string {
    var parts := Split(env.urlPath(url), "/");
    parts[|parts| - 1]
  }

  /**
   * The cover's file name is the last `/`-separated segment of the URL's
   * path: it holds no `/`, it ends the path, and a `/` precedes it unless
   * it is the whole path.
   */
  lemma ImageFilenameIsLastSegment(env: Env, url: string)
    ensures var name, path := ImageFilename(env, url), env.urlPath(url);
      && '/' !in name
      && |name| <= |path|
      && path[|path| - |name|..] == name
      && (|name| < |path| ==> path[|path| - |name| - 1] == '/')
  {
    var path := env.urlPath(url);
    var parts := Split(path, "/");
    var name := parts[|parts| - 1];
    assert ImageFilename(env, url) == name;
    SplitLastPiece(path, "/");
    AbsentChar(name, '/');
    if |name| < |path| {
      var n := |path| - |name|;
      assert path[n - 1..n] == "/";
      assert path[n - 1] == path[n - 1..n][0];
    }
  }

  /** Where `download_img` writes: `folder` joined with the URL's last path segment. */
  function ImagePath(env: Env, url: string, folder: string): string {
    PathJoin(folder, ImageFilename(env, url))
  }

  /** With a folder ending in `/`, as the default `images/` does, the cover lands directly in it. */
  lemma ImagePathInFolder(env: Env, url: string, folder: string)
    requires folder == [] || folder[|folder| - 1] == '/'
    ensures ImagePath(env, url, folder) == folder + ImageFilename(env, url)
  {
    ImageFilenameIsLastSegment(env, url);
  }

  /** The request `download_txt` makes: `txt.php` under the site, with the book id as `id` parameter. */
  function TextRequest(url: string, bookId: string): Request {
    Request(url + "txt.php", [("id", bookId)])
  }

  /**
   * `download_txt`: fetch the text, check the status and the redirect, then
   * write it; the result is the path written, or the exception raised.
   */
  function DownloadTxt(env: Env, url: string, bookId: string, filename: string, folder: string): Result<string, NetError>
  {
    match GetChecked(env, TextRequest(url, bookId), true)
    case Err(e) => Err(e)
    case Ok(_) => Ok(TextPath(env, folder, filename))
  }

  /**
   * The text is saved exactly when its request passes the status and
   * redirect checks; a connection failure is reported as such, a redirect
   * as an HTTP error; the file lands at the sanitized name under `folder`.
   */
  lemma DownloadTxtSpec(env: Env, url: string, bookId: string, filename: string, folder: string)
    ensures var r, req := DownloadTxt(env, url, bookId, filename, folder), TextRequest(url, bookId);
      && (r.Ok? <==> GetChecked(env, req, true).Ok?)
      && (r == Err(ConnectionError) <==> env.net(req).ConnErr?)
      && (env.net(req).Got? && env.net(req).response.history != [] ==> r == Err(HTTPError))
      && (r.Ok? ==> r.value == TextPath(env, folder, filename))
  {
    GetCheckedSpec(env, TextRequest(url, bookId), true);
  }

  /**
   * `download_img`: fetch the image and check the status, then write it;
   * a redirected response is accepted.
   */
  function DownloadImg(env: Env, url: string, folder: string): Result<string, NetError>
  {
    match GetChecked(env, Request(url, []), false)
    case Err(e) => Err(e)
    case Ok(_) => Ok(ImagePath(env, url, folder))
  }

  /**
   * The cover is saved exactly when its request passes the status check; a
   * redirect is accepted; the file lands under `folder` with the URL's last
   * path segment as its name.
   */
  lemma DownloadImgSpec(env: Env, url: string, folder: string)
    ensures var r, req := DownloadImg(env, url, folder), Request(url, []);
      && (r.Ok? <==> GetChecked(env, req, false).Ok?)
      && (r == Err(ConnectionError) <==> env.net(req).ConnErr?)
      && (env.net(req).Got? && !(400 <= env.net(req).response.status < 600) ==> r.Ok?)
      && (r.Ok? ==> r.value == ImagePath(env, url, folder))
  {
    GetCheckedSpec(env, Request(url, []), false);
  }

  /** The texts of the links of every genre span, span after span. */
  function AllGenres(spans: seq<seq<string>>): seq<string> {
    if spans == [] then [] else spans[0] + AllGenres(spans[1..])
  }

  /**
   * `[comment.find("span", class_="black").text for comment in comments_text]`:
   * every comment's text in page order, or a missing element if any comment
   * block lacks its span.
   */
  function CommentTexts(comments: seq<Option<string>>): Result<seq<string>, ParseError>
  {
    if comments == [] then Ok([])
    else if comments[0].None? then Err(MissingElement)
    else
      match CommentTexts(comments[1..])
      case Err(e) => Err(e)
      case Ok(rest) => Ok([comments[0].value] + rest)
  }

  /**
   * The comments come back exactly when every comment block has its span,
   * one text per block in page order; otherwise the look-up raises.
   */
  lemma {:induction false} CommentTextsSpec(comments: seq<Option<string>>)
    ensures var r := CommentTexts(comments);
      && (r.Ok? <==> forall k :: 0 <= k < |comments| ==> comments[k].Some?)
      && (r.Ok? ==> |r.value| == |comments| && forall k :: 0 <= k < |comments| ==> r.value[k] == comments[k].value)
      && (r.Err? ==> r.error == MissingElement)
  {
    if comments != [] && comments[0].Some? {
      var rest := comments[1..];
      CommentTextsSpec(rest);
      assert forall k :: 1 <= k < |comments| ==> comments[k] == rest[k - 1];
    }
  }

  /**
   * The dict literal of `parse_book_page`, its entries evaluated in order:
   * title and author from the header, the cover link, the comments, the
   * genres (as the calling script found them).
   */
  function BookFromFields(f: BookFields, genres: Option<seq<string>>): Result<Book, ParseError>
  {
    if f.header.None? then Err(MissingElement)
    else
      var header := f.header.value;
      var author := HeaderAuthor(header);
      if author.Err? then Err(author.error)
      else if f.imgSrc.None? then
        Err(MissingElement)
      else
        match CommentTexts(f.comments)
        case Err(e) => Err(e)
        case Ok(comments) =>
          if genres.None? then Err(MissingElement)
          else Ok(Book(HeaderTitle(header), author.value, f.imgSrc.value, comments, genres.value))
  }

  /**
   * A book comes back exactly when the header is there and holds the
   * delimiter, the cover is there, every comment has its text, and the
   * genres were found; its fields are then the header's stripped pieces,
   * the cover link, the comment texts and the genres. A missing header and
   * a header without the delimiter raise.
   */
  lemma BookFromFieldsSpec(f: BookFields, genres: Option<seq<string>>)
    ensures var r := BookFromFields(f, genres);
      && (r.Ok? <==>
           && f.header.Some? && |Split(f.header.value, Delimiter)| >= 2
           && f.imgSrc.Some?
           && (forall k :: 0 <= k < |f.comments| ==> f.comments[k].Some?)
           && genres.Some?)
      && (r.Ok? ==>
           && r.value.title == HeaderTitle(f.header.value)
           && HeaderAuthor(f.header.value) == Ok(r.value.author)
           && r.value.linkImg == f.imgSrc.value
           && |r.value.comments| == |f.comments|
           && (forall k :: 0 <= k < |f.comments| ==> r.value.comments[k] == f.comments[k].value)
           && r.value.genres == genres.value)
      && (f.header.None? ==> r == Err(MissingElement))
      && (f.header.Some? && Absent(f.header.value, Delimiter) ==> r == Err(MissingDelimiter))
  {
    CommentTextsSpec(f.comments);
    if f.header.Some? && Absent(f.header.value, Delimiter) {
      NoDelimiterNoAuthor(f.header.value);
    }
  }
}
