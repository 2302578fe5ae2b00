/** What parse_tululu_category.py guarantees about one book, one card, one page and one run. */
module CategoryProofs {
  import opened Http
  import opened Strings
  import Paths
  import opened BookPage
  import opened Category

  /** A saved text path is never the "Not downloaded" marker: it ends in ".txt". Its file name
      starts with the counter it was made with. */
  lemma TextPathIsNotMarker(destFolder: string, number: int, title: string)
    ensures TextPath(destFolder, number, title) != NotDownloaded
    ensures LeadingNumber(Paths.BaseName(TextPath(destFolder, number, title))) == number
  {
    var name := CategoryTextFileName(number, title);
    CategoryTextFileNameShape(number, title);
    Paths.BaseNameOfJoin(Paths.Join(destFolder, "books"), name);
    var p := TextPath(destFolder, number, title);
    assert p[|p| - 1] == 't';
  }

  /** A saved cover path is never the "Not downloaded" marker: it has a '/' after "images". */
  lemma CoverPathIsNotMarker(site: Site, destFolder: string, url: string)
    ensures CoverPath(site, destFolder, url) != NotDownloaded
  {
    var folder := Paths.Join(destFolder, "images");
    var name := ImageName(site, url);
    Paths.BaseNameHasNoSlash(site.urlPath(url));
    assert folder[|folder| - 1] == 's';
    if name != [] {
      assert name[0] in name;
    }
    var p := CoverPath(site, destFolder, url);
    assert p == folder + "/" + name;
    assert p[|folder|] == '/';
    MarkerHasNoSlash();
  }

  lemma MarkerHasNoSlash()
    ensures '/' !in NotDownloaded
  {
    var m := NotDownloaded;
    forall i | 0 <= i < |m| ensures m[i] != '/' {
    }
  }

  /** A book whose detail page fails to download (an error status, a redirect, or a transport
      failure) yields no description and no file: get_book raises that requests exception after
      the one detail-page request. */
  lemma GetBookDetailFailure(site: Site, opts: Options, bookUrl: string, bookId: string, number: int)
    requires Download(site.detail(bookUrl), true).Raise?
    ensures var got := GetBook(site, opts, bookUrl, bookId, number);
      got.result == Raise(Download(site.detail(bookUrl), true).exc) &&
      IsRequestsError(got.result.exc) && got.requests == [Detail(bookUrl)] && got.files == []
  {
  }

  /** A book whose text download is redirected raises HTTPError before any file is written; the
      cover is not requested. */
  lemma GetBookTextRedirected(site: Site, opts: Options, bookUrl: string, bookId: string, number: int)
    requires ParseBookPage(site, bookUrl).result.Ok?
    requires !opts.skipTxt
    requires site.text(bookId).Received? && site.text(bookId).response.history != []
    ensures var got := GetBook(site, opts, bookUrl, bookId, number);
      got.result == Raise(HTTPError) && got.files == [] &&
      got.requests == [Detail(bookUrl), BookText(bookId)]
  {
    var p := ParseBookPage(site, bookUrl).result.value;
    var text := SaveBookText(site, opts.destFolder, bookId, p.title, number);
    assert text.result == Raise(HTTPError);
  }

  /** The exceptions get_book lets out are the three requests exceptions, or ValueError and the
      missing-element errors that only come from a downloaded detail page's markup. */
  lemma GetBookExceptions(site: Site, opts: Options, bookUrl: string, bookId: string, number: int)
    requires GetBook(site, opts, bookUrl, bookId, number).result.Raise?
    ensures var e := GetBook(site, opts, bookUrl, bookId, number).result.exc;
      IsRequestsError(e) ||
      (Download(site.detail(bookUrl), true).Ok? &&
       ReadDetails(site, bookUrl, Download(site.detail(bookUrl), true).value) == Raise(e) &&
       (e == ValueError || e == MissingElement))
  {
    var page := Download(site.detail(bookUrl), true);
    var parsed := ParseBookPage(site, bookUrl);
    var got := GetBook(site, opts, bookUrl, bookId, number);
    if page.Ok? {
      var described := ReadDetails(site, bookUrl, page.value);
      assert parsed.result == described;
      if described.Raise? {
        assert got.result == Raise(described.exc);
        var heading := page.value.heading;
        if heading.Some? && SplitHeading(heading.value).Raise? {
          assert described.exc == ValueError;
        }
      } else {
        var p := described.value;
        var text := if opts.skipTxt then Effect(Ok(NotDownloaded), [], [])
                    else SaveBookText(site, opts.destFolder, bookId, p.title, number);
        if text.result.Raise? {
          assert got.result.exc == text.result.exc;
        } else {
          var cover := if opts.skipImgs then Effect(Ok(NotDownloaded), [], [])
                       else SaveBookCover(site, opts.destFolder, p.imgUrl);
          assert cover.result.Raise?;
          assert got.result.exc == cover.result.exc;
        }
      }
    }
  }

  /** get_book on success: the fields parse_book_page produced are kept; book_path is
      "Not downloaded" exactly when the text was skipped and otherwise the numbered text path;
      img_src is "Not downloaded" exactly when covers were skipped and otherwise the cover path;
      the requests go detail page, text, cover, and the files written are the text and then the
      cover. */
  lemma GetBookSuccess(site: Site, opts: Options, bookUrl: string, bookId: string, number: int)
    requires GetBook(site, opts, bookUrl, bookId, number).result.Ok?
    ensures ParseBookPage(site, bookUrl).result.Ok?
    ensures var got := GetBook(site, opts, bookUrl, bookId, number);
      var parsed := ParseBookPage(site, bookUrl).result.value;
      var d := got.result.value;
      d.title == parsed.title && d.author == parsed.author &&
      d.comments == parsed.comments && d.genres == parsed.genres &&
      d.bookPath == (if opts.skipTxt then NotDownloaded else TextPath(opts.destFolder, number, d.title)) &&
      d.imgSrc == (if opts.skipImgs then NotDownloaded else CoverPath(site, opts.destFolder, parsed.imgUrl)) &&
      got.requests == [Detail(bookUrl)] + (if opts.skipTxt then [] else [BookText(bookId)]) +
                      (if opts.skipImgs then [] else [Cover(parsed.imgUrl)]) &&
      got.files == (if opts.skipTxt then [] else [d.bookPath]) +
                   (if opts.skipImgs then [] else [d.imgSrc])
  {
    var parsed := ParseBookPage(site, bookUrl);
    var p := parsed.result.value;
    var text := if opts.skipTxt then Effect(Ok(NotDownloaded), [], [])
                else SaveBookText(site, opts.destFolder, bookId, p.title, number);
    assert text.result.Ok?;
    var cover := if opts.skipImgs then Effect(Ok(NotDownloaded), [], [])
                 else SaveBookCover(site, opts.destFolder, p.imgUrl);
    assert cover.result.Ok?;
    var got := GetBook(site, opts, bookUrl, bookId, number);
    assert got.requests == parsed.requests + text.requests + cover.requests;
    assert got.files == text.files + cover.files;
    assert got.result.value == BookDescription(p.title, p.author, cover.result.value, text.result.value,
                                               p.comments, p.genres);
  }

  /** The two path fields hold the marker exactly when that download was skipped. */
  lemma GetBookMarkers(site: Site, opts: Options, bookUrl: string, bookId: string, number: int)
    requires GetBook(site, opts, bookUrl, bookId, number).result.Ok?
    ensures var d := GetBook(site, opts, bookUrl, bookId, number).result.value;
      (d.bookPath == NotDownloaded <==> opts.skipTxt) &&
      (d.imgSrc == NotDownloaded <==> opts.skipImgs)
  {
    GetBookSuccess(site, opts, bookUrl, bookId, number);
    var parsed := ParseBookPage(site, bookUrl).result.value;
    TextPathIsNotMarker(opts.destFolder, number, parsed.title);
    CoverPathIsNotMarker(site, opts.destFolder, parsed.imgUrl);
  }

  /** get_book asks for at most three things, in this order: the detail page, then the text
      unless skipped, then the cover unless skipped. */
  lemma GetBookRequests(site: Site, opts: Options, bookUrl: string, bookId: string, number: int)
    ensures var rs := GetBook(site, opts, bookUrl, bookId, number).requests;
      1 <= |rs| <= 3 && rs[0] == Detail(bookUrl) &&
      (|rs| > 1 ==> (!opts.skipTxt && rs[1] == BookText(bookId)) || rs[1].Cover?) &&
      (|rs| > 2 ==> rs[2].Cover?)
  {
    var parsed := ParseBookPage(site, bookUrl);
    var got := GetBook(site, opts, bookUrl, bookId, number);
    if parsed.result.Ok? {
      var p := parsed.result.value;
      var text := if opts.skipTxt then Effect(Ok(NotDownloaded), [], [])
                  else SaveBookText(site, opts.destFolder, bookId, p.title, number);
      if text.result.Raise? {
        assert got.requests == parsed.requests + text.requests;
      } else {
        var cover := if opts.skipImgs then Effect(Ok(NotDownloaded), [], [])
                     else SaveBookCover(site, opts.destFolder, p.imgUrl);
        assert got.requests == parsed.requests + text.requests + cover.requests;
      }
    } else {
      assert got.requests == parsed.requests;
    }
  }

  /** get_book never asks for a listing page. */
  lemma GetBookAsksNoListing(site: Site, opts: Options, bookUrl: string, bookId: string, number: int)
    ensures ListingPages(GetBook(site, opts, bookUrl, bookId, number).requests) == []
  {
    GetBookRequests(site, opts, bookUrl, bookId, number);
    BookRequestsNoListing(GetBook(site, opts, bookUrl, bookId, number).requests);
  }

  lemma BookRequestsNoListing(rs: seq<Request>)
    requires |rs| <= 3 && (|rs| > 0 ==> rs[0].Detail?)
    requires |rs| > 1 ==> rs[1].BookText? || rs[1].Cover?
    requires |rs| > 2 ==> rs[2].Cover?
    ensures ListingPages(rs) == []
  {
    NoListingPages(rs);
  }

  /** A card whose book raises one of the three requests exceptions is skipped: the harvest
      goes on with the counter and the descriptions as they were. */
  lemma CardStepSkips(site: Site, opts: Options, href: string, h: Harvest)
    requires var got := GetBook(site, opts, site.urljoin(SiteUrl, href), BookIdFromHref(href), h.bookNumber);
      got.result.Raise? && IsRequestsError(got.result.exc)
    ensures var s := CardStep(site, opts, href, h);
      s.halt == Continue && s.state.bookNumber == h.bookNumber &&
      s.state.descriptions == h.descriptions
  {
  }

  /** Any other exception stops the harvest, and is the one that escapes. */
  lemma CardStepEscapes(site: Site, opts: Options, href: string, h: Harvest)
    requires var got := GetBook(site, opts, site.urljoin(SiteUrl, href), BookIdFromHref(href), h.bookNumber);
      got.result.Raise? && !IsRequestsError(got.result.exc)
    ensures CardStep(site, opts, href, h).halt ==
            Raised(GetBook(site, opts, site.urljoin(SiteUrl, href), BookIdFromHref(href), h.bookNumber).result.exc)
  {
  }

  /** A heading without "::" is not skipped like a missing book: its ValueError stops the
      harvest. */
  lemma CardStepMalformedHeading(site: Site, opts: Options, href: string, h: Harvest)
    requires var url := site.urljoin(SiteUrl, href);
      var page := Download(site.detail(url), true);
      page.Ok? && page.value.heading.Some? && NoSep(page.value.heading.value)
    ensures CardStep(site, opts, href, h).halt == Raised(ValueError)
  {
    var url := site.urljoin(SiteUrl, href);
    SplitHeadingWithoutSeparator(Download(site.detail(url), true).value.heading.value);
  }

  /** A card whose detail page is redirected never reaches the descriptions and writes nothing. */
  lemma CardStepRedirected(site: Site, opts: Options, href: string, h: Harvest)
    requires var f := site.detail(site.urljoin(SiteUrl, href));
      f.Received? && f.response.history != []
    ensures var s := CardStep(site, opts, href, h);
      s.halt == Continue && s.state.descriptions == h.descriptions &&
      s.state.bookNumber == h.bookNumber && s.state.files == h.files
  {
    var url := site.urljoin(SiteUrl, href);
    GetBookDetailFailure(site, opts, url, BookIdFromHref(href), h.bookNumber);
  }

  /** A book whose text was saved but whose cover then fails to download is skipped, yet its
      text file stays written under the counter's current value, which the next saved book
      uses again. */
  lemma CardStepCoverFailureLeavesText(site: Site, opts: Options, href: string, h: Harvest)
    requires !opts.skipTxt && !opts.skipImgs
    requires ParseBookPage(site, site.urljoin(SiteUrl, href)).result.Ok?
    requires Download(site.text(BookIdFromHref(href)), true).Ok?
    requires var p := ParseBookPage(site, site.urljoin(SiteUrl, href)).result.value;
      Download(site.image(p.imgUrl), false).Raise?
    ensures var p := ParseBookPage(site, site.urljoin(SiteUrl, href)).result.value;
      var s := CardStep(site, opts, href, h);
      s.halt == Continue && s.state.bookNumber == h.bookNumber &&
      s.state.descriptions == h.descriptions &&
      s.state.files == h.files + [TextPath(opts.destFolder, h.bookNumber, p.title)]
  {
    var url := site.urljoin(SiteUrl, href);
    var id := BookIdFromHref(href);
    var p := ParseBookPage(site, url).result.value;
    var text := SaveBookText(site, opts.destFolder, id, p.title, h.bookNumber);
    var cover := SaveBookCover(site, opts.destFolder, p.imgUrl);
    var got := GetBook(site, opts, url, id, h.bookNumber);
    assert got.result == Raise(cover.result.exc) && got.files == text.files + cover.files;
  }

  /** The description at index k carries the text path numbered k + 1, or the marker. */
  predicate WellNumbered(opts: Options, k: nat, d: BookDescription) {
    if opts.skipTxt then d.bookPath == NotDownloaded
    else d.bookPath == TextPath(opts.destFolder, k + 1, d.title)
  }

  /** BOOK_NUMBER == 1 + len(BOOK_DESCRIPTIONS), and every description's text file is numbered
      by its place in the list. */
  predicate Numbered(opts: Options, h: Harvest) {
    h.bookNumber == 1 + |h.descriptions| &&
    forall k :: 0 <= k < |h.descriptions| ==> WellNumbered(opts, k, h.descriptions[k])
  }

  lemma CardStepNumbered(site: Site, opts: Options, href: string, h: Harvest)
    requires Numbered(opts, h)
    ensures Numbered(opts, CardStep(site, opts, href, h).state)
    ensures h.descriptions <= CardStep(site, opts, href, h).state.descriptions
  {
    var url := site.urljoin(SiteUrl, href);
    var got := GetBook(site, opts, url, BookIdFromHref(href), h.bookNumber);
    if got.result.Ok? {
      GetBookSuccess(site, opts, url, BookIdFromHref(href), h.bookNumber);
      var s := CardStep(site, opts, href, h).state;
      assert s.descriptions == h.descriptions + [got.result.value];
      assert WellNumbered(opts, |h.descriptions|, got.result.value);
    }
  }

  lemma {:induction false} CardsFoldNumbered(site: Site, opts: Options, hrefs: seq<string>, i: nat,
                                             h: Harvest)
    requires Numbered(opts, h)
    ensures Numbered(opts, CardsFold(site, opts, hrefs, i, h).state)
    ensures h.descriptions <= CardsFold(site, opts, hrefs, i, h).state.descriptions
    decreases |hrefs| - i
  {
    if i < |hrefs| {
      var s := CardStep(site, opts, hrefs[i], h);
      CardStepNumbered(site, opts, hrefs[i], h);
      if !s.halt.Raised? {
        CardsFoldNumbered(site, opts, hrefs, i + 1, s.state);
      }
    }
  }

  lemma PageStepNumbered(site: Site, opts: Options, page: string, h: Harvest)
    requires Numbered(opts, h)
    ensures Numbered(opts, PageStep(site, opts, page, h).state)
    ensures h.descriptions <= PageStep(site, opts, page, h).state.descriptions
  {
    var h1 := h.(requests := h.requests + [ListingPage(page)]);
    var listing := Download(site.listing(site.urljoin(ListingUrl, page)), false);
    if listing.Ok? {
      CardsFoldNumbered(site, opts, listing.value, 0, h1);
    }
  }

  lemma {:induction false} PagesFoldNumbered(site: Site, opts: Options, page: int, end: int,
                                             h: Harvest)
    requires Numbered(opts, h)
    ensures Numbered(opts, PagesFold(site, opts, page, end, h).state)
    ensures h.descriptions <= PagesFold(site, opts, page, end, h).state.descriptions
    decreases end - page
  {
    if page < end {
      var s := PageStep(site, opts, Decimal(page), h);
      PageStepNumbered(site, opts, Decimal(page), h);
      if !s.halt.Raised? {
        PagesFoldNumbered(site, opts, page + 1, end, s.state);
      }
    }
  }

  /** In a saved manifest the text file of the k-th description (from 0) is named with the
      number k + 1 — the counter's value when it was written — and the counter ends one past
      the number of descriptions. This holds however the save is done. */
  lemma RunNumbered(site: Site, opts: Options, save: Result<string>)
    requires RunThen(site, opts, save).result.Saved?
    ensures var run := RunThen(site, opts, save);
      run.result.manifest == run.state.descriptions &&
      run.state.bookNumber == 1 + |run.result.manifest| &&
      forall k :: 0 <= k < |run.result.manifest| ==> WellNumbered(opts, k, run.result.manifest[k])
  {
    var s := PagesFold(site, opts, opts.startPage, opts.endPage, Initial);
    PagesFoldNumbered(site, opts, opts.startPage, opts.endPage, Initial);
    var run := RunThen(site, opts, save);
    assert run.result.manifest == s.state.descriptions == run.state.descriptions;
    assert run.state.bookNumber == s.state.bookNumber;
  }

  /** Read back from a saved manifest, each text file's name starts with its place in the list,
      counting from 1. */
  lemma RunFileNumbers(site: Site, opts: Options, save: Result<string>)
    requires RunThen(site, opts, save).result.Saved?
    requires !opts.skipTxt
    ensures var m := RunThen(site, opts, save).result.manifest;
      forall k :: 0 <= k < |m| ==> LeadingNumber(Paths.BaseName(m[k].bookPath)) == k + 1
  {
    RunNumbered(site, opts, save);
    var m := RunThen(site, opts, save).result.manifest;
    forall k | 0 <= k < |m| ensures LeadingNumber(Paths.BaseName(m[k].bookPath)) == k + 1 {
      assert WellNumbered(opts, k, m[k]);
      TextPathIsNotMarker(opts.destFolder, k + 1, m[k].title);
    }
  }

  /** The page numbers requested, in order, as passed to get_books_from_page. */
  function ListingPages(requests: seq<Request>): seq<string> {
    if requests == [] then []
    else (if requests[0].ListingPage? then [requests[0].page] else []) + ListingPages(requests[1..])
  }

  lemma {:induction false} ListingPagesAppend(a: seq<Request>, b: seq<Request>)
    ensures ListingPages(a + b) == ListingPages(a) + ListingPages(b)
  {
    if a != [] {
      assert (a + b)[0] == a[0] && (a + b)[1..] == a[1..] + b;
      ListingPagesAppend(a[1..], b);
    } else {
      assert a + b == b;
    }
  }

  lemma {:induction false} NoListingPages(requests: seq<Request>)
    requires forall k :: 0 <= k < |requests| ==> !requests[k].ListingPage?
    ensures ListingPages(requests) == []
  {
    if requests != [] {
      NoListingPages(requests[1..]);
    }
  }

  lemma {:induction false} CardsFoldListings(site: Site, opts: Options, hrefs: seq<string>, i: nat,
                                             h: Harvest)
    ensures ListingPages(CardsFold(site, opts, hrefs, i, h).state.requests) == ListingPages(h.requests)
    decreases |hrefs| - i
  {
    if i < |hrefs| {
      var url := site.urljoin(SiteUrl, hrefs[i]);
      var got := GetBook(site, opts, url, BookIdFromHref(hrefs[i]), h.bookNumber);
      GetBookAsksNoListing(site, opts, url, BookIdFromHref(hrefs[i]), h.bookNumber);
      ListingPagesAppend(h.requests, got.requests);
      var s := CardStep(site, opts, hrefs[i], h);
      assert s.state.requests == h.requests + got.requests;
      if !s.halt.Raised? {
        CardsFoldListings(site, opts, hrefs, i + 1, s.state);
      }
    }
  }

  /** The listing page's requests.get and raise_for_status sit outside any try in
      get_books_from_page: a listing page that fails to load ends the harvest with its own
      exception, after that one request, with no book added and nothing written. */
  lemma PageStepListingFailure(site: Site, opts: Options, page: string, h: Harvest)
    requires Download(site.listing(site.urljoin(ListingUrl, page)), false).Raise?
    ensures var s := PageStep(site, opts, page, h);
      s.halt == Raised(Download(site.listing(site.urljoin(ListingUrl, page)), false).exc) &&
      s.state == h.(requests := h.requests + [ListingPage(page)])
  {
  }

  /** Each page adds exactly its own number to the listing requests. */
  lemma PageStepListings(site: Site, opts: Options, page: string, h: Harvest)
    ensures ListingPages(PageStep(site, opts, page, h).state.requests) == ListingPages(h.requests) + [page]
  {
    var h1 := h.(requests := h.requests + [ListingPage(page)]);
    ListingPagesAppend(h.requests, [ListingPage(page)]);
    assert ListingPages([ListingPage(page)]) == [page];
    var listing := Download(site.listing(site.urljoin(ListingUrl, page)), false);
    if listing.Ok? {
      CardsFoldListings(site, opts, listing.value, 0, h1);
    }
  }

  /** The pages are visited in the order given, each once, and the walk stops at the page an
      escaping exception came from: what is requested is a non-empty prefix of the pages, all
      of them when nothing escaped. */
  lemma {:induction false} PagesFoldListings(site: Site, opts: Options, page: int, end: int,
                                             h: Harvest)
    ensures var s := PagesFold(site, opts, page, end, h);
      var before := ListingPages(h.requests);
      var after := ListingPages(s.state.requests);
      after <= before + Decimals(page, end) &&
      (s.halt == Continue ==> after == before + Decimals(page, end)) &&
      (page < end ==> |after| > |before|)
    decreases end - page
  {
    if page < end {
      var before := ListingPages(h.requests);
      var s := PageStep(site, opts, Decimal(page), h);
      PageStepListings(site, opts, Decimal(page), h);
      var first := [Decimal(page)];
      var rest := Decimals(page + 1, end);
      assert ListingPages(s.state.requests) == before + first;
      assert Decimals(page, end) == first + rest;
      assert before + (first + rest) == (before + first) + rest;
      if !s.halt.Raised? {
        PagesFoldListings(site, opts, page + 1, end, s.state);
      }
    }
  }

  /** main asks for no page at all when start_page >= end_page (equal included) or the
      manifest path's extension is not ".json". */
  lemma RunValidates(site: Site, opts: Options, save: Result<string>)
    ensures var run := RunThen(site, opts, save);
      (opts.startPage >= opts.endPage ==> run.result == RangeRejected) &&
      (opts.startPage < opts.endPage && Paths.Extension(opts.jsonPath) != ".json" ==>
         run.result == JsonPathRejected) &&
      (run.result == RangeRejected || run.result == JsonPathRejected ==>
         run.state.requests == [] && run.state.files == [])
  {
  }

  /** Otherwise main asks for pages start_page, start_page + 1, ..., end_page - 1 in that order
      when it saves the manifest, and for a leading run of them when an exception escapes. */
  lemma RunPages(site: Site, opts: Options, save: Result<string>)
    ensures var run := RunThen(site, opts, save);
      var pages := ListingPages(run.state.requests);
      var all := Decimals(opts.startPage, opts.endPage);
      (run.result.Saved? ==> pages == all && |pages| == opts.endPage - opts.startPage) &&
      (run.result.Aborted? ==> pages <= all && 0 < |pages|)
  {
    if opts.startPage < opts.endPage && Paths.Extension(opts.jsonPath) == ".json" {
      PagesFoldListings(site, opts, opts.startPage, opts.endPage, Initial);
      assert ListingPages(Initial.requests) == [];
      RunFolds(site, opts, save);
    }
  }

  /** Past validation, main's requests are those of the page loop, and it saves exactly when
      nothing escaped the loop and the save itself succeeded; the exception that escapes is
      the loop's, or else the save's. */
  lemma RunFolds(site: Site, opts: Options, save: Result<string>)
    requires opts.startPage < opts.endPage && Paths.Extension(opts.jsonPath) == ".json"
    ensures var s := PagesFold(site, opts, opts.startPage, opts.endPage, Initial);
      var run := RunThen(site, opts, save);
      run.state.requests == s.state.requests &&
      (run.result.Saved? <==> s.halt == Continue && save.Ok?) &&
      (run.result.Aborted? <==> s.halt.Raised? || save.Raise?) &&
      (s.halt.Raised? ==> run.result == Aborted(s.halt.exc)) &&
      (s.halt == Continue && save.Raise? ==> run.result == Aborted(save.exc))
  {
  }

  /** The default manifest name passes the extension check. */
  lemma DefaultJsonPathAccepted()
    ensures Paths.Extension(DefaultJsonPath) == ".json"
  {
    var stem := "book_descriptions";
    assert stem[0] != '.';
    assert "" + stem + ".json" == DefaultJsonPath;
    Paths.JsonExtensionAccepted("", stem);
  }

  /** With every option at its default, both checks pass, and a run that saves its manifest
      asked for the listing pages 1 through 701, in order. */
  lemma DefaultPages(site: Site, save: Result<string>)
    ensures var opts := Options(DefaultStartPage, DefaultEndPage, DefaultDestFolder, false, false,
                                DefaultJsonPath);
      var run := RunThen(site, opts, save);
      !run.result.RangeRejected? && !run.result.JsonPathRejected? &&
      (run.result.Saved? ==>
         var pages := ListingPages(run.state.requests);
         |pages| == 701 && pages[0] == Decimal(1) && pages[700] == Decimal(701))
  {
    var opts := Options(DefaultStartPage, DefaultEndPage, DefaultDestFolder, false, false,
                        DefaultJsonPath);
    DefaultJsonPathAccepted();
    RunPages(site, opts, save);
  }

  /** The intended save keeps json_path as the end of the manifest's path. */
  lemma ManifestPathEndsWithJsonPath(destFolder: string, jsonPath: string)
    ensures var r := SaveManifest(destFolder, jsonPath).value;
      |r| >= |jsonPath| && r[|r| - |jsonPath|..] == jsonPath
  {
    Paths.JoinEnds(destFolder, jsonPath);
  }

  /** As written, saving the manifest with the default (empty) dest_folder raises
      FileNotFoundError from os.makedirs(''), after the whole harvest; the intended save puts
      the manifest at json_path in the current directory. */
  lemma DefaultFolderLosesManifest(jsonPath: string)
    ensures SaveManifestAsWritten(DefaultDestFolder, jsonPath) == Raise(FileNotFoundError)
    ensures SaveManifest(DefaultDestFolder, jsonPath) == Ok(jsonPath)
  {
  }

  /** main as written and main as intended differ only in the save: with a dest_folder the two
      runs are the same, and with the default empty one a harvest that nothing escaped ends,
      as written, in FileNotFoundError with every request made and every book file written,
      where the intended run saves the manifest at json_path. */
  lemma DefaultFolderAbortsRun(site: Site, opts: Options)
    ensures opts.destFolder != "" ==> RunSpec(site, opts) == RunSpecIntended(site, opts)
    ensures var s := PagesFold(site, opts, opts.startPage, opts.endPage, Initial);
      opts.destFolder == "" && opts.startPage < opts.endPage &&
      Paths.Extension(opts.jsonPath) == ".json" && s.halt == Continue ==>
        RunSpec(site, opts) == Outcome(Aborted(FileNotFoundError), s.state) &&
        RunSpecIntended(site, opts).result == Saved(opts.jsonPath, s.state.descriptions)
  {
  }
}
