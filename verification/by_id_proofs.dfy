/** What tululu.py guarantees about one id and about a whole run. */
module ByIdProofs {
  import opened Http
  import opened Strings
  import Paths
  import opened BookPage
  import opened ById

  /** The ids whose text was requested, in order. */
  function TextIds(requests: seq<Request>): seq<string> {
    if requests == [] then []
    else (if requests[0].BookText? then [requests[0].id] else []) + TextIds(requests[1..])
  }

  lemma {:induction false} TextIdsAppend(a: seq<Request>, b: seq<Request>)
    ensures TextIds(a + b) == TextIds(a) + TextIds(b)
  {
    if a != [] {
      assert (a + b)[0] == a[0] && (a + b)[1..] == a[1..] + b;
      TextIdsAppend(a[1..], b);
    } else {
      assert a + b == b;
    }
  }

  lemma {:induction false} NoTextIds(requests: seq<Request>)
    requires forall k :: 0 <= k < |requests| ==> !requests[k].BookText?
    ensures TextIds(requests) == []
  {
    if requests != [] {
      NoTextIds(requests[1..]);
    }
  }

  /** A failure to reach txt.php at all (no connection, a refused URL) is not caught: the run
      stops at that id having asked for nothing else and written nothing. */
  lemma VisitIdTransportFailure(site: Site, id: int)
    requires !site.text(Decimal(id)).Received?
    ensures var got := VisitId(site, id);
      got.result == Raise(Get(site.text(Decimal(id))).exc) &&
      (got.result.exc == ConnectionError || got.result.exc == InvalidURL) &&
      got.requests == [BookText(Decimal(id))] && got.files == []
  {
  }

  /** An id is skipped exactly when txt.php answered with an error status or a redirect; a
      skipped id asks for nothing more and writes nothing. */
  lemma VisitIdSkips(site: Site, id: int)
    ensures var got := VisitId(site, id);
      var f := site.text(Decimal(id));
      (got.result == Ok(Skipped) <==>
         f.Received? && (IsErrorStatus(f.response.status) || f.response.history != [])) &&
      (got.result == Ok(Skipped) ==> got.requests == [BookText(Decimal(id))] && got.files == [])
  {
    var f := site.text(Decimal(id));
    var got := VisitId(site, id);
    if f.Received? && !IsErrorStatus(f.response.status) && f.response.history == [] {
      var parsed := ById.ParseBookPage(site, id);
      if parsed.result.Ok? {
        var cover := ById.SaveBookCover(site, parsed.result.value.imgUrl);
        assert got.result.Raise? || got.result == Ok(Saved(TextPath(id, parsed.result.value.title),
                                                             cover.result.value));
      }
    }
  }

  /** A saved id asked for its text, its detail page and its cover, in that order, and wrote the
      text file, named after the id and the page's title, and then the cover. */
  lemma VisitIdSaved(site: Site, id: int)
    requires VisitId(site, id).result.Ok? && VisitId(site, id).result.value.Saved?
    ensures var f := site.text(Decimal(id));
      f.Received? && !IsErrorStatus(f.response.status) && f.response.history == []
    ensures ById.ParseBookPage(site, id).result.Ok?
    ensures var got := VisitId(site, id);
      var d := ById.ParseBookPage(site, id).result.value;
      var fate := got.result.value;
      fate.textPath == Paths.Join(TextFolder, IdTextFileName(id, d.title)) &&
      fate.coverPath == Paths.Join(CoverFolder, ImageName(site, d.imgUrl)) &&
      got.requests == [BookText(Decimal(id)), Detail(BookUrl(id)), Cover(d.imgUrl)] &&
      got.files == [fate.textPath, fate.coverPath]
  {
    var f := site.text(Decimal(id));
    var got := VisitId(site, id);
    var parsed := ById.ParseBookPage(site, id);
    assert f.Received?;
    assert parsed.result.Ok?;
    var d := parsed.result.value;
    var cover := ById.SaveBookCover(site, d.imgUrl);
    assert cover.result.Ok?;
    assert got.requests == [BookText(Decimal(id))] + parsed.requests + cover.requests;
    assert got.result.value == Saved(TextPath(id, d.title), cover.result.value);
  }

  /** The cover is downloaded after the text file is written and outside the try: a cover
      that fails to download ends the run with its requests exception, and the text file stays
      on disk. */
  lemma VisitIdCoverFailure(site: Site, id: int)
    requires var f := site.text(Decimal(id));
      f.Received? && !IsErrorStatus(f.response.status) && f.response.history == []
    requires ById.ParseBookPage(site, id).result.Ok?
    requires Download(site.image(ById.ParseBookPage(site, id).result.value.imgUrl), false).Raise?
    ensures var got := VisitId(site, id);
      var d := ById.ParseBookPage(site, id).result.value;
      got.result == Raise(Download(site.image(d.imgUrl), false).exc) &&
      IsRequestsError(got.result.exc) &&
      got.requests == [BookText(Decimal(id)), Detail(BookUrl(id)), Cover(d.imgUrl)] &&
      got.files == [TextPath(id, d.title)]
  {
  }

  /** The text file's name starts with the id it was downloaded under. */
  lemma TextPathNumber(id: int, title: string)
    ensures LeadingNumber(Paths.BaseName(TextPath(id, title))) == id
  {
    IdTextFileNameShape(id, title);
    Paths.BaseNameOfJoin(TextFolder, IdTextFileName(id, title));
  }

  /** Unlike a missing text, a detail page that fails to download stops the run: with the text
      in hand, the detail page's exception is the one that escapes, and nothing is written. */
  lemma VisitIdDetailFailure(site: Site, id: int)
    requires var f := site.text(Decimal(id));
      f.Received? && !IsErrorStatus(f.response.status) && f.response.history == []
    requires Download(site.detail(BookUrl(id)), false).Raise?
    ensures var got := VisitId(site, id);
      got.result == Raise(Download(site.detail(BookUrl(id)), false).exc) && got.files == [] &&
      got.requests == [BookText(Decimal(id)), Detail(BookUrl(id))]
  {
  }

  /** The detail page's redirect history is not looked at: a redirected page with a good status
      is read like any other. */
  lemma DetailRedirectNotChecked(site: Site, id: int)
    requires var f := site.detail(BookUrl(id));
      f.Received? && !IsErrorStatus(f.response.status)
    ensures ById.ParseBookPage(site, id).result ==
            ReadPageDetails(site, BookUrl(id), site.detail(BookUrl(id)).response.body)
  {
  }

  /** A heading that does not split in two stops the run with ValueError once the text is there;
      the text file is not written. */
  lemma VisitIdMalformedHeading(site: Site, id: int)
    requires var f := site.text(Decimal(id));
      f.Received? && !IsErrorStatus(f.response.status) && f.response.history == []
    requires var page := Download(site.detail(BookUrl(id)), false);
      page.Ok? && page.value.heading.Some? && NoSep(page.value.heading.value)
    ensures VisitId(site, id).result == Raise(ValueError) && VisitId(site, id).files == []
  {
    var page := Download(site.detail(BookUrl(id)), false);
    SplitHeadingWithoutSeparator(page.value.heading.value);
  }

  /** A "texts" block without a "black" element stops the run once the text is there, even
      though the heading and the cover are fine; the text file is not written. */
  lemma VisitIdCommentWithoutBlack(site: Site, id: int, i: nat)
    requires var f := site.text(Decimal(id));
      f.Received? && !IsErrorStatus(f.response.status) && f.response.history == []
    requires var page := Download(site.detail(BookUrl(id)), false);
      page.Ok? && ReadDetails(site, BookUrl(id), page.value).Ok? &&
      i < |page.value.textBlocks| && page.value.textBlocks[i].None?
    ensures VisitId(site, id).result == Raise(MissingElement) && VisitId(site, id).files == []
  {
    var page := Download(site.detail(BookUrl(id)), false).value;
    assert !AllPresent(page.textBlocks);
  }

  /** Each id asks for at most three things, in this order: its text, its detail page, and a
      cover. */
  lemma VisitIdRequests(site: Site, id: int)
    ensures var rs := VisitId(site, id).requests;
      1 <= |rs| <= 3 && rs[0] == BookText(Decimal(id)) &&
      (|rs| > 1 ==> rs[1] == Detail(BookUrl(id))) && (|rs| > 2 ==> rs[2].Cover?)
  {
    var key := Decimal(id);
    var f := site.text(key);
    var got := VisitId(site, id);
    if f.Received? && !IsErrorStatus(f.response.status) && f.response.history == [] {
      var parsed := ById.ParseBookPage(site, id);
      if parsed.result.Ok? {
        var cover := ById.SaveBookCover(site, parsed.result.value.imgUrl);
        assert got.requests == [BookText(key)] + parsed.requests + cover.requests;
      } else {
        assert got.requests == [BookText(key)] + parsed.requests;
      }
    } else {
      assert got.requests == [BookText(key)];
    }
  }

  /** Each id asks for its own text once, and for no other text. */
  lemma VisitIdTextIds(site: Site, id: int)
    ensures TextIds(VisitId(site, id).requests) == [Decimal(id)]
  {
    VisitIdRequests(site, id);
    OneTextFirst(VisitId(site, id).requests, Decimal(id));
  }

  lemma OneTextFirst(rs: seq<Request>, key: string)
    requires 1 <= |rs| && rs[0] == BookText(key)
    requires forall k :: 1 <= k < |rs| ==> !rs[k].BookText?
    ensures TextIds(rs) == [key]
  {
    var rest := rs[1..];
    assert rs == [rs[0]] + rest;
    NoTextIds(rest);
    TextIdsAppend([rs[0]], rest);
  }

  /** The texts are asked for id by id in increasing order, each once: all of start .. end when
      nothing escaped, and otherwise a leading run ending at the id whose exception escaped. */
  lemma {:induction false} IdsFoldTextIds(site: Site, id: int, end: int, t: Trace)
    ensures var s := IdsFold(site, id, end, t);
      var before := TextIds(t.requests);
      var after := TextIds(s.trace.requests);
      after <= before + Decimals(id, end + 1) &&
      (s.halt == Continue ==> after == before + Decimals(id, end + 1)) &&
      (id <= end ==> |after| > |before|)
    decreases end + 1 - id
  {
    if id <= end {
      var got := VisitId(site, id);
      var s := Record(got, t);
      VisitIdTextIds(site, id);
      RecordTextIds(got, t, id, end);
      if !s.halt.Raised? {
        IdsFoldTextIds(site, id + 1, end, s.trace);
      }
    }
  }

  /** Recording an id that asked for its own text extends the ids asked for by that id, the
      first of the ids still to come. */
  lemma RecordTextIds(got: Effect<Fate>, t: Trace, id: int, end: int)
    requires id <= end && TextIds(got.requests) == [Decimal(id)]
    ensures var before := TextIds(t.requests);
      var after := TextIds(Record(got, t).trace.requests);
      after == before + [Decimal(id)] &&
      before + Decimals(id, end + 1) == after + Decimals(id + 1, end + 1)
  {
    TextIdsAppend(t.requests, got.requests);
    var before := TextIds(t.requests);
    var first := [Decimal(id)];
    var rest := Decimals(id + 1, end + 1);
    assert Decimals(id, end + 1) == first + rest;
    assert before + (first + rest) == (before + first) + rest;
  }

  /** Over a whole run: a refused range asks for nothing; otherwise the ids asked for are
      start_id .. end_id, or a non-empty leading run of them when an exception escaped. With
      start_id == end_id exactly one id is asked for. */
  lemma RunTextIds(site: Site, startId: int, endId: int, halt: Halt, trace: Trace)
    requires startId <= endId
    requires Step(halt, trace) == IdsFold(site, startId, endId, Trace([], []))
    ensures halt == Continue ==> TextIds(trace.requests) == Decimals(startId, endId + 1)
    ensures halt.Raised? ==> 0 < |TextIds(trace.requests)| && TextIds(trace.requests) <= Decimals(startId, endId + 1)
    ensures startId == endId ==> TextIds(trace.requests) == [Decimal(startId)]
  {
    IdsFoldTextIds(site, startId, endId, Trace([], []));
    assert TextIds([]) == [];
  }

  /** The default range asks for ten ids, 1 through 10. */
  lemma DefaultRange()
    ensures var ids := Decimals(DefaultStartId, DefaultEndId + 1);
      |ids| == 10 && ids[0] == Decimal(1) && ids[9] == Decimal(10)
  {
  }
}
