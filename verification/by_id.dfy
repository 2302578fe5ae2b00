/** tululu.py: downloads the books with ids start_id .. end_id (both included). For each id it
    asks txt.php for the text first; an id without a text (an error status or a redirect) is
    logged and skipped, while any other failure along the way stops the whole run. A book with a
    text has its detail page read, its text written under books/ and its cover under images/. */
module ById {
  import opened Http
  import opened Strings
  import Paths
  import opened BookPage

  const BookUrlPrefix := "https://tululu.org/b"
  const TextFolder := "books"
  const CoverFolder := "images"
  const DefaultStartId := 1
  const DefaultEndId := 10

  /** The detail page of a book: https://tululu.org/b<id>/ */
  function BookUrl(id: int): string {
    BookUrlPrefix + Decimal(id) + "/"
  }

  /** Whether every "texts" block has a "black" element. */
  predicate AllPresent(blocks: seq<Option<string>>) {
    forall i :: 0 <= i < |blocks| ==> blocks[i].Some?
  }

  /** The comment texts of blocks that all have one. */
  function Present(blocks: seq<Option<string>>): seq<string>
    requires AllPresent(blocks)
  {
    seq(|blocks|, i requires 0 <= i < |blocks| && blocks[i].Some? => blocks[i].value)
  }

  /** The markup part of parse_book_page(book_id): the heading and the cover as in both
      scripts, then one comment per "texts" block and the "d_book" span's links; a block
      without a "black" element or a page without the span raises AttributeError. */
  function ReadPageDetails(site: Site, url: string, page: DetailPage): Result<Details> {
    match ReadDetails(site, url, page)
    case Raise(e) => Raise(e)
    case Ok(d) =>
      if !AllPresent(page.textBlocks) || page.genreSpan.None? then Raise(MissingElement)
      else Ok(d.(comments := Present(page.textBlocks), genres := page.genreSpan.value))
  }

  /** The details are read exactly when both scripts' common reading succeeds and every
      "texts" block and the "d_book" span are there; each comment is its block's text, and the
      genres are the span's links. The heading's failures come first. */
  lemma ReadPageDetailsOutcome(site: Site, url: string, page: DetailPage)
    ensures var r := ReadPageDetails(site, url, page);
      var common := ReadDetails(site, url, page);
      (r.Ok? <==> common.Ok? && AllPresent(page.textBlocks) && page.genreSpan.Some?) &&
      (common.Raise? ==> r == common) &&
      (common.Ok? && (!AllPresent(page.textBlocks) || page.genreSpan.None?) ==>
         r == Raise(MissingElement)) &&
      (r.Ok? ==> r.value.title == common.value.title && r.value.author == common.value.author &&
                 r.value.imgUrl == common.value.imgUrl &&
                 |r.value.comments| == |page.textBlocks| &&
                 (forall i :: 0 <= i < |page.textBlocks| ==>
                    page.textBlocks[i] == Some(r.value.comments[i])) &&
                 r.value.genres == page.genreSpan.value)
  {
  }

  /** parse_book_page(book_id): fetch the detail page and check its status only (a redirect is
      not checked here), then read its details. Every failure escapes. */
  function ParseBookPage(site: Site, id: int): (r: Effect<Details>)
    ensures r.requests == [Detail(BookUrl(id))] && r.files == []
    ensures Download(site.detail(BookUrl(id)), false).Raise? ==>
              r.result == Raise(Download(site.detail(BookUrl(id)), false).exc)
    ensures Download(site.detail(BookUrl(id)), false).Ok? ==>
              r.result == ReadPageDetails(site, BookUrl(id), Download(site.detail(BookUrl(id)), false).value)
  {
    var url := BookUrl(id);
    match Download(site.detail(url), false)
    case Raise(e) => Effect(Raise(e), [Detail(url)], [])
    case Ok(page) => Effect(ReadPageDetails(site, url, page), [Detail(url)], [])
  }

  /** save_book_text: the text goes to books/<id>. <name>.txt; writing cannot fail here. */
  function TextPath(id: int, title: string): string {
    Paths.Join(TextFolder, IdTextFileName(id, title))
  }

  /** Where save_book_cover puts the image: images/<image name>. */
  function CoverPath(site: Site, url: string): string {
    Paths.Join(CoverFolder, ImageName(site, url))
  }

  /** save_book_cover: download_image (status only; every failure escapes), then the write. */
  function SaveBookCover(site: Site, url: string): (r: Effect<string>)
    ensures r.requests == [Cover(url)]
    ensures r.result.Ok? <==> Download(site.image(url), false).Ok?
    ensures r.result.Ok? ==> r.result.value == CoverPath(site, url) && r.files == [r.result.value]
    ensures r.result.Raise? ==> r.files == [] && IsRequestsError(r.result.exc)
  {
    match Download(site.image(url), false)
    case Raise(e) => Effect(Raise(e), [Cover(url)], [])
    case Ok(_) =>
      var path := CoverPath(site, url);
      Effect(Ok(path), [Cover(url)], [path])
  }

  /** What became of one id that did not stop the run. */
  datatype Fate = Skipped | Saved(textPath: string, coverPath: string)

  /** The body of the loop in get_books for one id. requests.get of txt.php sits outside the
      try, so a transport failure there escapes; raise_for_status and check_for_redirect inside
      it skip the id. The rest of the body is outside the try. */
  function VisitId(site: Site, id: int): Effect<Fate> {
    var key := Decimal(id);
    var asked := [BookText(key)];
    match Get(site.text(key))
    case Raise(e) => Effect(Raise(e), asked, [])
    case Ok(resp) =>
      if RaiseForStatus(resp).Raise? || CheckForRedirect(resp).Raise? then
        Effect(Ok(Skipped), asked, [])
      else
        var parsed := ParseBookPage(site, id);
        if parsed.result.Raise? then Effect(Raise(parsed.result.exc), asked + parsed.requests, [])
        else
          var d := parsed.result.value;
          var text := TextPath(id, d.title);
          var cover := SaveBookCover(site, d.imgUrl);
          var requests := asked + parsed.requests + cover.requests;
          var files := [text] + cover.files;
          if cover.result.Raise? then Effect(Raise(cover.result.exc), requests, files)
          else Effect(Ok(Saved(text, cover.result.value)), requests, files)
  }

  /** The GET requests issued and the files written so far, in order. */
  datatype Trace = Trace(requests: seq<Request>, files: seq<string>)

  datatype Step = Step(halt: Halt, trace: Trace)

  /** Adds one id's requests and files to the trace; an exception stops the run. */
  function Record(got: Effect<Fate>, t: Trace): Step {
    var t1 := Trace(t.requests + got.requests, t.files + got.files);
    if got.result.Raise? then Step(Raised(got.result.exc), t1) else Step(Continue, t1)
  }

  /** The loop in get_books from id on: ids id, id + 1, ..., end. */
  function IdsFold(site: Site, id: int, end: int, t: Trace): Step
    decreases end + 1 - id
  {
    if id > end then Step(Continue, t)
    else
      var s := Record(VisitId(site, id), t);
      if s.halt.Raised? then s else IdsFold(site, id + 1, end, s.trace)
  }

  /** The loop at id: that id's outcome, recorded, then the ids after it. */
  lemma IdsFoldStep(site: Site, id: int, end: int, t: Trace, got: Effect<Fate>)
    requires id <= end && got == VisitId(site, id)
    ensures IdsFold(site, id, end, t) ==
      var s := Record(got, t);
      if s.halt.Raised? then s else IdsFold(site, id + 1, end, s.trace)
  {
  }

  /** get_books(start_id, end_id): the requests it issues and the files it writes, and whether
      an exception escaped. */
  method GetBooks(site: Site, startId: int, endId: int) returns (halt: Halt, trace: Trace)
    ensures Step(halt, trace) == IdsFold(site, startId, endId, Trace([], []))
  {
    trace := Trace([], []);
    var id := startId;
    while id <= endId
      invariant IdsFold(site, startId, endId, Trace([], [])) == IdsFold(site, id, endId, trace)
      decreases endId + 1 - id
    {
      var got := VisitId(site, id);
      IdsFoldStep(site, id, endId, trace, got);
      trace := Trace(trace.requests + got.requests, trace.files + got.files);
      if got.result.Raise? {
        return Raised(got.result.exc), trace;
      }
      id := id + 1;
    }
    halt := Continue;
  }

  /** main(): a start_id above end_id is refused before any request (equal ids are one book);
      otherwise get_books runs. */
  method Run(site: Site, startId: int, endId: int) returns (refused: bool, halt: Halt, trace: Trace)
    ensures refused <==> startId > endId
    ensures refused ==> halt == Continue && trace == Trace([], [])
    ensures !refused ==> Step(halt, trace) == IdsFold(site, startId, endId, Trace([], []))
  {
    if startId > endId {
      return true, Continue, Trace([], []);
    }
    refused := false;
    halt, trace := GetBooks(site, startId, endId);
  }
}
