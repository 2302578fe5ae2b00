/** What both scripts share: the site as seen through GET requests, the selections taken from a
    book's detail page, the "Title :: Author" heading split, the book id taken from a card link,
    the sanitised text-file names and the cover file name. */
module BookPage {
  import opened Http
  import opened Strings
  import Paths

  datatype Option<T> = None | Some(value: T)

  /** The selections the scripts make on a detail page, already extracted from the markup: the
      heading text and the cover's src attribute (None when the element is absent); the
      comment texts and genre link texts parse_tululu_category.py selects, in document order;
      and what tululu.py reads instead: for each "texts" block the text of its first "black"
      element (None when it has none), and the link texts of the first "d_book" span (None
      when the page has no such span). */
  datatype DetailPage = DetailPage(heading: Option<string>, imgSrc: Option<string>,
                                   comments: seq<string>, genres: seq<string>,
                                   textBlocks: seq<Option<string>>,
                                   genreSpan: Option<seq<string>>)

  /** The catalogue site and the URL library, as the scripts use them: what a GET of each kind
      of URL yields (a listing page as the hrefs of its book cards), urljoin, and the path of a
      percent-decoded URL (urlparse(unquote(url)).path). */
  datatype Site = Site(
    listing: string -> Fetch<seq<string>>,
    detail: string -> Fetch<DetailPage>,
    text: string -> Fetch<string>,
    image: string -> Fetch<seq<bv8>>,
    urljoin: (string, string) -> string,
    urlPath: string -> string)

  /** A step's result together with the GET requests it issued and the files it wrote, in order. */
  datatype Effect<T> = Effect(result: Result<T>, requests: seq<Request>, files: seq<string>)

  /** Whether a loop over books goes on, or stops with an exception nothing catches. */
  datatype Halt = Continue | Raised(exc: Exception)

  /** str(n) for n in range(lo, hi), in order: the page numbers and book ids as they are
      requested. */
  function Decimals(lo: int, hi: int): (names: seq<string>)
    ensures |names| == if lo < hi then hi - lo else 0
    ensures forall i :: 0 <= i < |names| ==> names[i] == Decimal(lo + i)
    decreases hi - lo
  {
    if lo >= hi then [] else [Decimal(lo)] + Decimals(lo + 1, hi)
  }

  /** The value written in place of a path the operator chose not to download. */
  const NotDownloaded := "Not downloaded"

  /** title, author = heading.split('::'), each then stripped; unpacking anything other than two
      parts raises ValueError. */
  function SplitHeading(heading: string): Result<(string, string)> {
    var parts := Split(heading);
    if |parts| == 2 then Ok((Strip(parts[0]), Strip(parts[1]))) else Raise(ValueError)
  }

  /** What both scripts read off a detail page. */
  datatype Details = Details(title: string, author: string, imgUrl: string,
                             comments: seq<string>, genres: seq<string>)

  /** The markup part of both parse_book_page functions: the heading is split first (a missing
      heading or a bad split raises before the cover is looked at), then the cover's src is
      resolved against the page URL and stripped. */
  function ReadDetails(site: Site, pageUrl: string, page: DetailPage): Result<Details> {
    match page.heading
    case None => Raise(MissingElement)
    case Some(heading) =>
      match SplitHeading(heading)
      case Raise(e) => Raise(e)
      case Ok((title, author)) =>
        match page.imgSrc
        case None => Raise(MissingElement)
        case Some(src) =>
          Ok(Details(title, author, Strip(site.urljoin(pageUrl, src)), page.comments, page.genres))
  }

  /** The details are read exactly when the heading is there and splits in two and the cover is
      there; the only failures are the split's ValueError and a missing element. */
  lemma ReadDetailsOutcome(site: Site, pageUrl: string, page: DetailPage)
    ensures var r := ReadDetails(site, pageUrl, page);
      (r.Ok? <==> page.heading.Some? && SplitHeading(page.heading.value).Ok? && page.imgSrc.Some?) &&
      (r.Raise? ==> r.exc == ValueError || r.exc == MissingElement) &&
      (page.heading.None? ==> r == Raise(MissingElement)) &&
      (r.Ok? ==> (r.value.title, r.value.author) == SplitHeading(page.heading.value).value &&
                 r.value.imgUrl == Strip(site.urljoin(pageUrl, page.imgSrc.value)) &&
                 r.value.comments == page.comments && r.value.genres == page.genres)
  {
    if page.heading.Some? && SplitHeading(page.heading.value).Raise? {
      assert SplitHeading(page.heading.value).exc == ValueError;
    }
  }

  /** A heading built from a title and an author without "::" splits back into them, stripped. */
  lemma SplitHeadingOfTitleAuthor(title: string, author: string)
    requires NoSep(title) && NoSep(author)
    requires title == [] || title[|title| - 1] != ':'
    ensures SplitHeading(title + "::" + author) == Ok((Strip(title), Strip(author)))
  {
    SplitTwo(title, author);
  }

  /** A heading without "::" is a single part and raises. */
  lemma SplitHeadingWithoutSeparator(heading: string)
    requires NoSep(heading)
    ensures SplitHeading(heading) == Raise(ValueError)
  {
    assert FindSep(heading) == |heading|;
  }

  /** A second "::" gives three or more parts and raises. */
  lemma SplitHeadingExtraSeparator(title: string, rest: string)
    requires NoSep(title) && !NoSep(rest)
    requires title == [] || title[|title| - 1] != ':'
    ensures SplitHeading(title + "::" + rest) == Raise(ValueError)
  {
    SplitMore(title, rest);
  }

  /** An accepted heading is two parts without "::" around one "::", and the title and author
      are those parts stripped. */
  lemma SplitHeadingSound(heading: string)
    requires SplitHeading(heading).Ok?
    ensures var (title, author) := SplitHeading(heading).value;
      exists p, q :: heading == p + "::" + q && NoSep(p) && NoSep(q) && title == Strip(p) &&
                     author == Strip(q)
  {
    var parts := Split(heading);
    SplitSound(heading);
    assert parts[1..] == [parts[1]];
    assert heading == parts[0] + "::" + parts[1];
  }

  /** Writing a title and an author as "Title :: Author" and splitting the heading gives them
      back, when neither contains "::" nor has surrounding whitespace. */
  lemma SplitHeadingRoundTrip(title: string, author: string)
    requires NoSep(title) && NoSep(author)
    requires Strip(title) == title && Strip(author) == author
    ensures SplitHeading(title + " :: " + author) == Ok((title, author))
  {
    SpacedParts(title, author);
    SplitHeadingOfTitleAuthor(title + " ", " " + author);
    StripSpaced(title);
    StripSpaced(author);
  }

  lemma SpacedParts(title: string, author: string)
    requires NoSep(title) && NoSep(author)
    ensures title + " :: " + author == (title + " ") + "::" + (" " + author)
    ensures NoSep(title + " ") && NoSep(" " + author)
  {
    assert NoSep(" ");
    NoSepConcat(title, " ");
    NoSepConcat(" ", author);
  }

  /** book_card['href'].replace('/', '').replace('b', ''): the id keeps every other character. */
  function BookIdFromHref(href: string): string {
    RemoveChar(RemoveChar(href, '/'), 'b')
  }

  /** The id has neither '/' nor 'b' left. */
  lemma BookIdHasNoSeparators(href: string)
    ensures '/' !in BookIdFromHref(href) && 'b' !in BookIdFromHref(href)
  {
    RemoveCharRemoves(href, '/');
    RemoveCharRemoves(RemoveChar(href, '/'), 'b');
  }

  /** The id of a card linking to "/b<n>/" is the decimal n, the id tululu.py requests by. */
  lemma BookIdOfLink(n: int)
    ensures BookIdFromHref("/b" + Decimal(n) + "/") == Decimal(n)
  {
    var d := Decimal(n);
    ParseDecimal(n);
    RemoveCharAround("/b", d, "/", '/');
    assert RemoveChar("/b", '/') == "b" && RemoveChar("/", '/') == "";
    assert "b" + d + "" == "b" + d;
    RemoveCharAround("b", d, "", 'b');
    assert RemoveChar("b", 'b') == "" && RemoveChar("", 'b') == "";
    assert "" + d + "" == d;
  }

  lemma BookIdExample()
    ensures BookIdFromHref("/b239/") == "239"
  {
    var d := Decimal(239);
    assert NatDigits(23) == NatDigits(2) + [DigitChar(3)];
    assert d == NatDigits(23) + [DigitChar(9)];
    assert d == "239";
    BookIdOfLink(239);
    assert "/b" + d + "/" == "/b239/";
  }

  /** Only '/' and 'b' are removed: an id that has neither is its own id. */
  lemma BookIdIdempotent(href: string)
    ensures BookIdFromHref(BookIdFromHref(href)) == BookIdFromHref(href)
  {
    var id := BookIdFromHref(href);
    BookIdHasNoSeparators(href);
    RemoveCharAbsent(id, '/');
    RemoveCharAbsent(id, 'b');
  }

  /** title.replace(r'\\', '').replace('/', ''): the raw string r'\\' is two backslashes, so a
      lone backslash stays; no '/' is left. */
  function SanitizeTitle(title: string): string {
    RemoveChar(RemovePairs(title, '\\'), '/')
  }

  /** No '/' is left, so the name stays inside its folder. */
  lemma SanitizeHasNoSlash(title: string)
    ensures '/' !in SanitizeTitle(title)
  {
    RemoveCharRemoves(RemovePairs(title, '\\'), '/');
  }

  /** Sanitising drops nothing but '/' and backslashes. */
  lemma SanitizeDropsOnlySeparators(title: string)
    ensures RemoveChar(RemoveChar(SanitizeTitle(title), '\\'), '/') ==
            RemoveChar(RemoveChar(title, '\\'), '/')
  {
    var p := RemovePairs(title, '\\');
    RemovePairsDropsOnlyC(title, '\\');
    RemoveCharCommutes(p, '/', '\\');
    var q := RemoveChar(RemoveChar(p, '\\'), '/');
    RemoveCharRemoves(RemoveChar(p, '\\'), '/');
    RemoveCharAbsent(q, '/');
  }

  /** A title with neither '/' nor two backslashes in a row is kept as it is. */
  lemma SanitizeKeepsPlainTitle(title: string)
    requires '/' !in title && NoPair(title, '\\')
    ensures SanitizeTitle(title) == title
  {
    RemovePairsKeepsSingles(title, '\\');
    RemoveCharAbsent(title, '/');
  }

  /** "a/b\c": the slash goes, the lone backslash stays. */
  lemma SanitizeLoneBackslash()
    ensures SanitizeTitle("a/b\\c") == "ab\\c"
  {
    var t := "a/b\\c";
    NoBackslashPair(t);
    RemovePairsKeepsSingles(t, '\\');
    RemoveCharSplitsAtSlash(t, "a", "b\\c");
  }

  lemma NoBackslashPair(t: string)
    requires t == "a/b\\c"
    ensures NoPair(t, '\\')
  {
    forall i | 0 <= i < |t| - 1 ensures !PairAt(t, i, '\\') {
      assert t[i] != '\\' || t[i + 1] != '\\';
    }
  }

  /** Removing the one '/' of x + "/" + y, where x and y have none, joins them. */
  lemma RemoveCharSplitsAtSlash(t: string, x: string, y: string)
    requires t == x + "/" + y && '/' !in x && '/' !in y
    ensures RemoveChar(t, '/') == x + y
  {
    var slash := "/";
    assert slash[0] == '/' && slash[1..] == [];
    assert RemoveChar(slash, '/') == [];
    RemoveCharAppend(x, slash, '/');
    RemoveCharAbsent(x, '/');
    assert RemoveChar(x + slash, '/') == x;
    RemoveCharAppend(x + slash, y, '/');
    RemoveCharAbsent(y, '/');
  }

  /** "\/\": dropping the slash after the pairs are gone leaves two backslashes side by side. */
  lemma SanitizeLeavesBackslashPair()
    ensures SanitizeTitle("\\/\\") == "\\\\"
  {
  }

  /** The name of a book's text file in parse_tululu_category.py: "<number>.<name>.txt". */
  function CategoryTextFileName(number: int, title: string): string {
    Decimal(number) + "." + SanitizeTitle(title) + ".txt"
  }

  /** The name of a book's text file in tululu.py: "<id>. <name>.txt". */
  function IdTextFileName(id: int, title: string): string {
    Decimal(id) + ". " + SanitizeTitle(title) + ".txt"
  }

  /** The text before the first '.'. */
  function UpToDot(s: string): (r: string)
    ensures '.' !in r
  {
    if s == [] || s[0] == '.' then [] else [s[0]] + UpToDot(s[1..])
  }

  lemma {:induction false} UpToDotOf(x: string, y: string)
    requires '.' !in x
    ensures UpToDot(x + y) == x || (y != [] && y[0] != '.')
    ensures y != [] && y[0] == '.' ==> UpToDot(x + y) == x
  {
    if x != [] {
      assert (x + y)[0] == x[0] && (x + y)[1..] == x[1..] + y;
      UpToDotOf(x[1..], y);
    } else {
      assert x + y == y;
    }
  }

  /** The number a text file name starts with: what precedes its first '.'. */
  function LeadingNumber(name: string): int {
    ParseInt(UpToDot(name))
  }

  /** A category text file name has no '/', ends in ".txt", and its leading number is the
      counter it was made with. */
  lemma CategoryTextFileNameShape(number: int, title: string)
    ensures var f := CategoryTextFileName(number, title);
      '/' !in f && |f| >= 4 && f[|f| - 4..] == ".txt" && LeadingNumber(f) == number
  {
    var d := Decimal(number);
    var rest := "." + SanitizeTitle(title) + ".txt";
    ParseDecimal(number);
    assert CategoryTextFileName(number, title) == d + rest;
    UpToDotOf(d, rest);
    SanitizeHasNoSlash(title);
    NoSlashIn(d, SanitizeTitle(title), ".");
  }

  /** An id text file name has no '/', ends in ".txt", and its leading number is the id. */
  lemma IdTextFileNameShape(id: int, title: string)
    ensures var f := IdTextFileName(id, title);
      '/' !in f && |f| >= 4 && f[|f| - 4..] == ".txt" && LeadingNumber(f) == id
  {
    var d := Decimal(id);
    var rest := ". " + SanitizeTitle(title) + ".txt";
    ParseDecimal(id);
    assert IdTextFileName(id, title) == d + rest;
    UpToDotOf(d, rest);
    SanitizeHasNoSlash(title);
    NoSlashIn(d, SanitizeTitle(title), ". ");
  }

  lemma NoSlashIn(d: string, name: string, sep: string)
    requires '/' !in d && '/' !in name && '/' !in sep
    ensures '/' !in d + sep + name + ".txt"
  {
    var f := d + sep + name + ".txt";
    forall i | 0 <= i < |f| ensures f[i] != '/' {
      if i < |d| { assert f[i] == d[i]; }
      else if i < |d| + |sep| { assert f[i] == sep[i - |d|]; }
      else if i < |d| + |sep| + |name| { assert f[i] == name[i - |d| - |sep|]; }
      else { assert f[i] == ".txt"[i - |d| - |sep| - |name|]; }
    }
  }

  /** get_image_name(url): the last component of the decoded URL's path. */
  function ImageName(site: Site, url: string): string {
    Paths.BaseName(site.urlPath(url))
  }

  /** A cover at ".../files/my book.jpg" is saved as "my book.jpg". */
  lemma ImageNameExample(site: Site, url: string)
    requires site.urlPath(url) == "/files/my book.jpg"
    ensures ImageName(site, url) == "my book.jpg"
  {
    assert "/files/my book.jpg" == "/files/" + "my book.jpg";
    Paths.BaseNameAfterFolder("/files/", "my book.jpg");
  }
}
