/** parse_tululu_category.py: walks the pages of one catalogue listing, visits every book card,
    downloads each book's text and cover, and collects the books' descriptions into one JSON
    manifest. A running counter numbers the text files; it and the list of descriptions are the
    module-level state the harvester class below holds. */
module Category {
  import opened Http
  import opened Strings
  import Paths
  import opened BookPage

  const ListingUrl := "https://tululu.org/l55/"
  const SiteUrl := "https://tululu.org/"
  const DefaultStartPage := 1
  const DefaultEndPage := 702
  const DefaultDestFolder := ""
  const DefaultJsonPath := "book_descriptions.json"

  /** One book's record in the manifest. bookPath and imgSrc hold the saved files' paths, or
      NotDownloaded when the operator skipped that kind of download. */
  datatype BookDescription = BookDescription(
    title: string, author: string, imgSrc: string, bookPath: string,
    comments: seq<string>, genres: seq<string>)

  /** The parsed command line. */
  datatype Options = Options(startPage: int, endPage: int, destFolder: string,
                             skipImgs: bool, skipTxt: bool, jsonPath: string)

  /** The harvest so far: the counter, the descriptions, and every request and file write. */
  datatype Harvest = Harvest(bookNumber: int, descriptions: seq<BookDescription>,
                             requests: seq<Request>, files: seq<string>)

  /** BOOK_NUMBER = 1 and BOOK_DESCRIPTIONS = [] at import; nothing requested or written yet. */
  const Initial := Harvest(1, [], [], [])

  datatype Step = Step(halt: Halt, state: Harvest)

  /** parse_book_page(book_url): fetch the detail page (status, then redirect check) and read
      its details. (The record's book_path starts out empty, but get_book always overwrites it.) */
  function ParseBookPage(site: Site, bookUrl: string): Effect<Details> {
    var requests := [Detail(bookUrl)];
    match Download(site.detail(bookUrl), true)
    case Raise(e) => Effect(Raise(e), requests, [])
    case Ok(page) => Effect(ReadDetails(site, bookUrl, page), requests, [])
  }

  /** Where a book's text goes: <dest>/books/<number>.<name>.txt. */
  function TextPath(destFolder: string, number: int, title: string): string {
    Paths.Join(Paths.Join(destFolder, "books"), CategoryTextFileName(number, title))
  }

  /** Where a cover goes: <dest>/images/<image name>. */
  function CoverPath(site: Site, destFolder: string, url: string): string {
    Paths.Join(Paths.Join(destFolder, "images"), ImageName(site, url))
  }

  /** save_book_text: download the text by id (status, then redirect check), then write it under
      a name numbered with the current counter. */
  function SaveBookText(site: Site, destFolder: string, bookId: string, title: string,
                        number: int): (r: Effect<string>)
    ensures r.requests == [BookText(bookId)]
    ensures r.result.Ok? <==> Download(site.text(bookId), true).Ok?
    ensures r.result.Ok? ==> r.result.value == TextPath(destFolder, number, title) &&
                             r.files == [r.result.value]
    ensures r.result.Raise? ==> r.files == [] && IsRequestsError(r.result.exc)
  {
    var requests := [BookText(bookId)];
    match Download(site.text(bookId), true)
    case Raise(e) => Effect(Raise(e), requests, [])
    case Ok(_) =>
      var path := TextPath(destFolder, number, title);
      Effect(Ok(path), requests, [path])
  }

  /** save_book_cover: download the image (status only, no redirect check) and write it. */
  function SaveBookCover(site: Site, destFolder: string, url: string): (r: Effect<string>)
    ensures r.requests == [Cover(url)]
    ensures r.result.Ok? <==> Download(site.image(url), false).Ok?
    ensures r.result.Ok? ==> r.result.value == CoverPath(site, destFolder, url) &&
                             r.files == [r.result.value]
    ensures r.result.Raise? ==> r.files == [] && IsRequestsError(r.result.exc)
  {
    var requests := [Cover(url)];
    match Download(site.image(url), false)
    case Raise(e) => Effect(Raise(e), requests, [])
    case Ok(_) =>
      var path := CoverPath(site, destFolder, url);
      Effect(Ok(path), requests, [path])
  }

  /** get_book: parse the page, then the text (or "Not downloaded"), then the cover (or
      "Not downloaded"), setting the description's two path fields. */
  function GetBook(site: Site, opts: Options, bookUrl: string, bookId: string,
                   number: int): Effect<BookDescription>
  {
    var parsed := ParseBookPage(site, bookUrl);
    if parsed.result.Raise? then Effect(Raise(parsed.result.exc), parsed.requests, [])
    else
      var d := parsed.result.value;
      var text := if opts.skipTxt then Effect(Ok(NotDownloaded), [], [])
                  else SaveBookText(site, opts.destFolder, bookId, d.title, number);
      if text.result.Raise? then
        Effect(Raise(text.result.exc), parsed.requests + text.requests, text.files)
      else
        var cover := if opts.skipImgs then Effect(Ok(NotDownloaded), [], [])
                     else SaveBookCover(site, opts.destFolder, d.imgUrl);
        var requests := parsed.requests + text.requests + cover.requests;
        var files := text.files + cover.files;
        if cover.result.Raise? then Effect(Raise(cover.result.exc), requests, files)
        else Effect(Ok(BookDescription(d.title, d.author, cover.result.value, text.result.value,
                                       d.comments, d.genres)), requests, files)
  }

  /** One pass of the loop in get_books_from_page for the card linking to href: a book that
      succeeds is appended and the counter moves on; one of the three requests exceptions skips
      the book and changes neither; any other exception stops the harvest. */
  function CardStep(site: Site, opts: Options, href: string, h: Harvest): Step {
    Record(GetBook(site, opts, site.urljoin(SiteUrl, href), BookIdFromHref(href), h.bookNumber), h)
  }

  /** What the loop body does with get_book's outcome. */
  function Record(got: Effect<BookDescription>, h: Harvest): Step {
    var h1 := h.(requests := h.requests + got.requests, files := h.files + got.files);
    match got.result
    case Ok(d) => Step(Continue, h1.(descriptions := h1.descriptions + [d],
                                     bookNumber := h1.bookNumber + 1))
    case Raise(e) => if IsRequestsError(e) then Step(Continue, h1) else Step(Raised(e), h1)
  }

  /** The loop over a page's cards from card i on, stopping at the first exception that
      escapes. */
  function CardsFold(site: Site, opts: Options, hrefs: seq<string>, i: nat, h: Harvest): Step
    decreases |hrefs| - i
  {
    if i >= |hrefs| then Step(Continue, h)
    else
      var s := CardStep(site, opts, hrefs[i], h);
      if s.halt.Raised? then s else CardsFold(site, opts, hrefs, i + 1, s.state)
  }

  /** The loop at card i: the card's outcome, recorded, then the cards after it. */
  lemma CardsFoldStep(site: Site, opts: Options, hrefs: seq<string>, i: nat, h: Harvest,
                      got: Effect<BookDescription>)
    requires i < |hrefs|
    requires got == GetBook(site, opts, site.urljoin(SiteUrl, hrefs[i]), BookIdFromHref(hrefs[i]),
                            h.bookNumber)
    ensures CardsFold(site, opts, hrefs, i, h) ==
      var s := Record(got, h);
      if s.halt.Raised? then s else CardsFold(site, opts, hrefs, i + 1, s.state)
  {
  }

  /** get_books_from_page(page): fetch the listing page (status only; a failure escapes), then
      visit its cards. */
  function PageStep(site: Site, opts: Options, page: string, h: Harvest): Step {
    var h1 := h.(requests := h.requests + [ListingPage(page)]);
    match Download(site.listing(site.urljoin(ListingUrl, page)), false)
    case Raise(e) => Step(Raised(e), h1)
    case Ok(hrefs) => CardsFold(site, opts, hrefs, 0, h1)
  }

  /** The loop over pages page, page + 1, ..., end - 1 in main, each passed as str(page). */
  function PagesFold(site: Site, opts: Options, page: int, end: int, h: Harvest): Step
    decreases end - page
  {
    if page >= end then Step(Continue, h)
    else
      var s := PageStep(site, opts, Decimal(page), h);
      if s.halt.Raised? then s else PagesFold(site, opts, page + 1, end, s.state)
  }

  /** save_book_description as written: os.makedirs(dest_folder) comes first, and it raises
      FileNotFoundError on the empty path that is the default dest_folder. */
  function SaveManifestAsWritten(destFolder: string, jsonPath: string): Result<string> {
    if destFolder == "" then Raise(FileNotFoundError) else Ok(Paths.Join(destFolder, jsonPath))
  }

  /** save_book_description as evidently intended: the manifest lands at dest_folder/json_path,
      in the current directory when dest_folder is empty. */
  function SaveManifest(destFolder: string, jsonPath: string): (r: Result<string>)
    ensures r.Ok?
    ensures destFolder == "" ==> r.value == jsonPath
  {
    Ok(Paths.Join(destFolder, jsonPath))
  }

  /** How main ends. */
  datatype RunResult =
    | RangeRejected                                    // start_page >= end_page
    | JsonPathRejected                                 // json_path's extension is not ".json"
    | Aborted(exc: Exception)                          // an exception escaped main
    | Saved(path: string, manifest: seq<BookDescription>)  // the manifest written

  datatype Outcome = Outcome(result: RunResult, state: Harvest)

  /** main, given how save_book_description turns out: both checks come before any request;
      then pages start_page .. end_page-1 in order, then the save of every description in the
      order appended. */
  function RunThen(site: Site, opts: Options, save: Result<string>): Outcome {
    if opts.startPage >= opts.endPage then Outcome(RangeRejected, Initial)
    else if Paths.Extension(opts.jsonPath) != ".json" then Outcome(JsonPathRejected, Initial)
    else
      var s := PagesFold(site, opts, opts.startPage, opts.endPage, Initial);
      if s.halt.Raised? then Outcome(Aborted(s.halt.exc), s.state)
      else
        match save
        case Raise(e) => Outcome(Aborted(e), s.state)
        case Ok(path) => Outcome(Saved(path, s.state.descriptions),
                             s.state.(files := s.state.files + [path]))
  }

  /** main as written: the manifest is saved by save_book_description as it stands. */
  function RunSpec(site: Site, opts: Options): Outcome {
    RunThen(site, opts, SaveManifestAsWritten(opts.destFolder, opts.jsonPath))
  }

  /** main as evidently intended: the manifest is saved by the corrected save. */
  function RunSpecIntended(site: Site, opts: Options): Outcome {
    RunThen(site, opts, SaveManifest(opts.destFolder, opts.jsonPath))
  }

  /** The module-level state of parse_tululu_category.py, BOOK_NUMBER and BOOK_DESCRIPTIONS,
      together with a record of the requests issued and the files written. */
  class Harvester {
    var bookNumber: int
    var descriptions: seq<BookDescription>
    ghost var requests: seq<Request>
    ghost var files: seq<string>

    ghost function State(): Harvest
      reads this
    {
      Harvest(bookNumber, descriptions, requests, files)
    }

    constructor ()
      ensures State() == Initial
    {
      bookNumber := 1;
      descriptions := [];
      requests := [];
      files := [];
    }

    /** get_books_from_page(page, ...) */
    method GetBooksFromPage(site: Site, opts: Options, page: string) returns (halt: Halt)
      modifies this
      ensures Step(halt, State()) == PageStep(site, opts, page, old(State()))
      ensures bookNumber - |descriptions| == old(bookNumber - |descriptions|)
    {
      ghost var before := State();
      requests := requests + [ListingPage(page)];
      var listing := Download(site.listing(site.urljoin(ListingUrl, page)), false);
      if listing.Raise? {
        return Raised(listing.exc);
      }
      var hrefs := listing.value;
      ghost var start := State();
      for i := 0 to |hrefs|
        invariant CardsFold(site, opts, hrefs, 0, start) == CardsFold(site, opts, hrefs, i, State())
        invariant bookNumber - |descriptions| == before.bookNumber - |before.descriptions|
      {
        var href := hrefs[i];
        ghost var current := State();
        var got := GetBook(site, opts, site.urljoin(SiteUrl, href), BookIdFromHref(href), bookNumber);
        CardsFoldStep(site, opts, hrefs, i, current, got);
        ghost var next := Record(got, current);
        requests := requests + got.requests;
        files := files + got.files;
        if got.result.Raise? {
          assert State() == next.state;
          if IsRequestsError(got.result.exc) {
            continue;
          }
          return Raised(got.result.exc);
        }
        descriptions := descriptions + [got.result.value];
        bookNumber := bookNumber + 1;
        assert State() == next.state;
      }
      halt := Continue;
    }
  }

  /** main() as written. */
  method Run(site: Site, opts: Options) returns (r: RunResult)
    ensures r == RunSpec(site, opts).result
  {
    if opts.startPage >= opts.endPage {
      return RangeRejected;
    }
    if Paths.Extension(opts.jsonPath) != ".json" {
      return JsonPathRejected;
    }
    var harvester := new Harvester();
    for page := opts.startPage to opts.endPage
      invariant PagesFold(site, opts, opts.startPage, opts.endPage, Initial) ==
                PagesFold(site, opts, page, opts.endPage, harvester.State())
    {
      var halt := harvester.GetBooksFromPage(site, opts, Decimal(page));
      if halt.Raised? {
        return Aborted(halt.exc);
      }
    }
    var saved := SaveManifestAsWritten(opts.destFolder, opts.jsonPath);
    if saved.Raise? {
      return Aborted(saved.exc);
    }
    r := Saved(saved.value, harvester.descriptions);
  }
}
