# library-parser: a Dafny model of the tululu.org scrapers

library-parser downloads books from the online library tululu.org. It has two scrapers, and this project models both.

- **`parse_tululu_category.py`** walks the listing pages of one catalogue category, from `start_page` up to but not including `end_page`. It visits every book card on each page.
  - For each book it:
    - reads the book's detail page (title and author from the "Title :: Author" heading, the cover URL, the comments and the genres);
    - downloads the text from `txt.php?id=<id>` into `<dest>/books/<N>.<title>.txt`, where `N` is the running counter `BOOK_NUMBER`;
    - downloads the cover into `<dest>/images/<name>`.
  - It appends each book's description to `BOOK_DESCRIPTIONS` and finally writes every description to a JSON manifest.
  - A book that raises one of the three `requests` exceptions (`ConnectionError`, `InvalidURL`, `HTTPError`) is skipped. `check_for_redirect` turns a redirect into `HTTPError`, because the site answers a missing book with a redirect.
  - Every other exception ends the run. This includes a listing page that fails to load and a heading that does not split into two parts.
- **`tululu.py`** visits the ids `start_id .. end_id`, both included, and asks `txt.php` for each id's text first.
  - An id whose text answers with an error status or a redirect is skipped.
  - Every other failure ends the run. That covers a transport failure of that request, any failure of the detail page, a malformed page and a failed cover download.
  - A book with a text has its details read. Its text is written to `books/<id>. <title>.txt` and its cover to `images/<name>`.

## Structure of the model

- **Network.** Each scraper is a function of a `Site` value. A `Site` says what each GET yields: a response with a status, a redirect history and a parsed body, or a transport failure. It also carries `urljoin` and the URL-path decoding the scripts use.
- **Results.** Every step returns an `Effect`: its result or exception, the GET requests it issued and the files it wrote, both in order.
- **Category module state.** `BOOK_NUMBER` and `BOOK_DESCRIPTIONS` are module-level state updated in place. They become the fields of the class `Category.Harvester`.
  - `Category.Harvester.GetBooksFromPage` is proved against the specification function `Category.PageStep`, a fold over the page's cards.
  - `Category.Run` is proved against `Category.RunSpec`, which is `main` as written. `Category.RunSpecIntended` is the same run with the corrected manifest save (see Findings), and the run-level lemmas hold for both.
- **Id loop.** The id loop of `tululu.py` is the method `ById.GetBooks`, proved against the fold `ById.IdsFold`.
- **Lemmas.** The lemmas in `CategoryProofs` and `ByIdProofs` state what these folds guarantee:
  - which failures skip a book and which end the run;
  - that the counter numbering the text files stays equal to one more than the number of descriptions;
  - that pages and ids are requested in order, each once;
  - what each file is named.
- **Shared string handling.** `Strings`, `Paths` and `BookPage` model the string operations both scripts rely on: `split('::')`, `strip()`, the `replace` calls, `os.path.join`, `os.path.split` and `os.path.splitext`.

Two behaviours of the code are easy to miss, and the model makes both explicit:
- In `parse_tululu_category.py` the text file is written before the cover is downloaded. A cover failure therefore skips the book but leaves its text on disk, and the next book reuses the same counter value (`CategoryProofs.CardStepCoverFailureLeavesText`).
- `title.replace(r'\\', '')` removes only pairs of backslashes, because the raw string holds two of them. A lone backslash survives (`BookPage.SanitizeLoneBackslash`).

## Model

| member | source | states |
|---|---|---|
| Http.IsRequestsError | parse_tululu_category.py:66 | the except tuple `(ConnectionError, InvalidURL, HTTPError)`, also at tululu.py:105; used by `Category.Record` and stated by `CategoryProofs.CardStepSkips` and `CategoryProofs.CardStepEscapes` |
| Strings.Decimal | parse_tululu_category.py:221 | `str(n)` for an integer, as also used for the counter at line 184 and for ids in tululu.py; stated by `Strings.ParseDecimal` and `Strings.DecimalInjective` |
| Http.Get | parse_tululu_category.py:51 | `requests.get`: the response, or ConnectionError or InvalidURL; its properties are stated by `Http.Download` |
| Http.RaiseForStatus | parse_tululu_category.py:52 | `raise_for_status`: HTTPError for a status from 400 to 599; stated by `Http.Download` |
| Http.CheckForRedirect | parse_tululu_category.py:192-194 | HTTPError exactly when the redirect history is non-empty; stated by `Http.Download` |
| Strings.Strip | parse_tululu_category.py:124-125 | `str.strip()`; stated by `Strings.StripIsClean`, `Strings.StripLeftSplits`, `Strings.StripRightSplits` and `Strings.StripPadded` |
| Strings.RemoveChar | parse_tululu_category.py:59 | `replace(c, '')`; stated by `Strings.RemoveCharRemoves`, `Strings.RemoveCharAbsent` and `Strings.RemoveCharAppend` |
| Strings.RemovePairs | parse_tululu_category.py:183 | `replace(r'\\', '')`, which removes adjacent backslash pairs left to right; stated by the four `Strings.RemovePairs` lemmas |
| Strings.Split | parse_tululu_category.py:112 | `split('::')`; stated by `Strings.SplitSound`, `Strings.FindSepFirst`, `Strings.SplitTwo` and `Strings.SplitMore` |
| Paths.Join | parse_tululu_category.py:137 | `os.path.join` of two components; stated by `Paths.JoinEnds` and `Paths.BaseNameOfJoin` |
| Paths.BaseName | parse_tululu_category.py:144 | the tail of `os.path.split`; stated by `Paths.BaseNameIsTail` and `Paths.BaseNameUnique` |
| Paths.Extension | parse_tululu_category.py:214 | `os.path.splitext(p)[-1]`; stated by `Paths.JsonExtensionAccepted`, `Paths.JsonExtensionShape` and `Paths.DotJsonAloneRejected` |
| BookPage.SplitHeading | parse_tululu_category.py:111-112 | `title, author = heading.split('::')`, both stripped, ValueError unless two parts; stated by the `BookPage.SplitHeading` lemmas |
| BookPage.ReadDetails | parse_tululu_category.py:111-132 | the heading split, then the cover src joined and stripped, comments and genres as selected; stated by `BookPage.ReadDetailsOutcome` |
| BookPage.BookIdFromHref | parse_tululu_category.py:59 | the id of a card link; stated by `BookPage.BookIdHasNoSeparators`, `BookPage.BookIdOfLink` and `BookPage.BookIdIdempotent` |
| BookPage.SanitizeTitle | parse_tululu_category.py:183 | the title with backslash pairs and then '/' removed; stated by the `BookPage.Sanitize` lemmas |
| BookPage.CategoryTextFileName | parse_tululu_category.py:184 | `f'{BOOK_NUMBER}.{book_name}.txt'`; stated by `BookPage.CategoryTextFileNameShape` |
| BookPage.IdTextFileName | tululu.py:83 | `f'{book_id}. {book_name}.txt'`; stated by `BookPage.IdTextFileNameShape` |
| BookPage.ImageName | parse_tululu_category.py:142-145 | `get_image_name`: the tail of the decoded URL path; stated by `Paths.BaseNameIsTail` and `BookPage.ImageNameExample` |
| Category.ParseBookPage | parse_tululu_category.py:99-132 | one detail request, status then redirect checked, then the details read; stated by `CategoryProofs.GetBookDetailFailure` and `CategoryProofs.GetBookSuccess` |
| Category.GetBook | parse_tululu_category.py:80-96 | the page, then the text unless skipped, then the cover unless skipped; stated by the `CategoryProofs.GetBook` lemmas |
| Category.TextPath | parse_tululu_category.py:179-185 | `os.path.join(os.path.join(dest_folder, 'books'), f'{BOOK_NUMBER}.{book_name}.txt')`; stated by `CategoryProofs.TextPathIsNotMarker` |
| Category.CoverPath | parse_tululu_category.py:155-159 | `os.path.join(os.path.join(dest_folder, 'images'), get_image_name(url))`; stated by `CategoryProofs.CoverPathIsNotMarker` |
| Category.CardsFold | parse_tululu_category.py:55-70 | the `for book_card in book_cards` loop from a given card on, stopping at the first exception that escapes; stated by `Category.Harvester.GetBooksFromPage`, `CategoryProofs.CardsFoldNumbered` and `CategoryProofs.CardsFoldListings` |
| Category.CardStep | parse_tululu_category.py:55-70 | one card of the loop; stated by the `CategoryProofs.CardStep` lemmas |
| Category.Record | parse_tululu_category.py:60-70 | a success appends the description and advances the counter, a requests exception skips, anything else escapes; stated by `CategoryProofs.CardStepSkips` and `CategoryProofs.CardStepEscapes` |
| Category.PageStep | parse_tululu_category.py:47-70 | `get_books_from_page`; stated by `CategoryProofs.PageStepNumbered`, `CategoryProofs.PageStepListings`, `CategoryProofs.PageStepListingFailure` and `Category.Harvester.GetBooksFromPage` |
| Category.PagesFold | parse_tululu_category.py:220-221 | the page loop; stated by `CategoryProofs.PagesFoldNumbered` and `CategoryProofs.PagesFoldListings` |
| Category.SaveManifestAsWritten | parse_tululu_category.py:135-139 | `save_book_description` as written; stated by `CategoryProofs.DefaultFolderLosesManifest` |
| Category.RunThen | parse_tululu_category.py:197-222 | `main` given the outcome of the save; stated by the `CategoryProofs.Run` lemmas |
| Category.RunSpec | parse_tululu_category.py:197-222 | `main` as written; stated by `Category.Run` and `CategoryProofs.DefaultFolderAbortsRun` |
| Category.RunSpecIntended | parse_tululu_category.py:197-222 | `main` with the corrected save; stated by `CategoryProofs.DefaultFolderAbortsRun` |
| ById.ReadPageDetails | tululu.py:32-52 | the markup part of tululu.py's `parse_book_page`; stated by `ById.ReadPageDetailsOutcome` |
| ById.BookUrl | tululu.py:26 | `f'https://tululu.org/b{book_id}/'`; used by `ById.ParseBookPage` and stated by `ByIdProofs.VisitIdRequests` |
| ById.TextPath | tululu.py:80-84 | `os.path.join('books', f'{book_id}. {book_name}.txt')`; stated by `ByIdProofs.TextPathNumber` and `ByIdProofs.VisitIdSaved` |
| ById.CoverPath | tululu.py:69-73 | `os.path.join('images', get_image_name(url))`; stated by `ById.SaveBookCover` and `ByIdProofs.VisitIdSaved` |
| ById.Record | tululu.py:96-116 | one id's requests and files appended to the trace; an escaping exception ends the run, a skip or a save goes on; stated by `ById.GetBooks` and `ByIdProofs.IdsFoldTextIds` |
| ById.VisitId | tululu.py:96-116 | one id of the loop in `get_books`; stated by the `ByIdProofs.VisitId` lemmas, including `ByIdProofs.VisitIdCoverFailure` for a cover that fails after the text is written |
| ById.IdsFold | tululu.py:95-116 | the loop over ids; stated by `ById.GetBooks` and `ByIdProofs.IdsFoldTextIds` |
| Http.Download | parse_tululu_category.py:167-175 | the body is delivered exactly when a response arrived, its status is below 400 or at least 600 and, when checked, it has no redirect history; every failure is one of the three requests exceptions, an error status gives HTTPError, and so does a checked redirect |
| Strings.StripLeftSplits | parse_tululu_category.py:124-125 | `lstrip` drops a run of leading whitespace and keeps the rest unchanged |
| Strings.StripRightSplits | parse_tululu_category.py:124-125 | `rstrip` drops a run of trailing whitespace and keeps the rest unchanged |
| Strings.StripIsClean | parse_tululu_category.py:124-125 | a stripped string neither starts nor ends with whitespace |
| Strings.StripPadded | parse_tululu_category.py:124-125 | whitespace padding on either side does not change what a string strips to |
| Strings.StripSpaced | parse_tululu_category.py:124-125 | a clean string with one space before or after strips back to itself |
| Strings.RemoveCharRemoves | parse_tululu_category.py:59 | after `replace(c, '')` no `c` is left, and every character left was in the input |
| Strings.RemoveCharAbsent | parse_tululu_category.py:59 | `replace(c, '')` leaves a string without `c` unchanged |
| Strings.RemoveCharAppend | parse_tululu_category.py:59 | removing a character distributes over concatenation |
| Strings.RemoveCharCommutes | parse_tululu_category.py:183 | removing two characters gives the same result in either order |
| Strings.RemovePairsLeavesNoPair | parse_tululu_category.py:183 | after `replace(cc, '')` no two adjacent `c` remain, and a first character that does not start a pair is kept |
| Strings.RemovePairsDropsOnlyC | parse_tululu_category.py:183 | removing the pairs drops only `c` characters: with all `c` removed the result equals the input with all `c` removed |
| Strings.RemovePairsDropsEvenly | parse_tululu_category.py:183 | removing the pairs drops an even number of characters |
| Strings.RemovePairsKeepsSingles | parse_tululu_category.py:183 | a string without two adjacent `c` is kept unchanged |
| Strings.FindSepFirst | parse_tululu_category.py:112 | the scan for `::` finds the first occurrence: none starts before it |
| Strings.FindSepBefore | parse_tululu_category.py:112 | the text before the found `::` contains none, and a failed scan means there is none |
| Strings.SplitSound | parse_tululu_category.py:112 | `split('::')` gives parts without `::` that join back, with `::` between them, into the input |
| Strings.SplitTwo | parse_tululu_category.py:112 | `a + '::' + b` with no `::` in a or b (and a not ending in `:`) splits into exactly [a, b] |
| Strings.SplitMore | parse_tululu_category.py:112 | a second `::` gives more than two parts |
| Strings.NatDigitsShape | parse_tululu_category.py:184 | `str(n)` of a natural number is all digits with no leading zero |
| Strings.ParseNatDigits | parse_tululu_category.py:184 | reading back the digits of `str(n)` gives n |
| Strings.ParseDecimal | parse_tululu_category.py:221 | `int(str(n)) == n` for every integer; `str(n)` holds only digits and '-', and no '.', '/', ' ' or 'b' |
| Strings.DecimalInjective | parse_tululu_category.py:221 | distinct page numbers and ids have distinct decimal names |
| Paths.JoinEnds | parse_tululu_category.py:137 | `os.path.join(a, b)` ends with b and, unless b is absolute, starts with a |
| Paths.BaseNameIsTail | parse_tululu_category.py:144 | the tail of `os.path.split` has no '/', is a suffix of the path, and is preceded by '/' unless it is the whole path |
| Paths.BaseNameUnique | parse_tululu_category.py:144 | any suffix with those properties is the tail |
| Paths.BaseNameOfJoin | parse_tululu_category.py:144 | splitting off the tail undoes joining a '/'-free name onto a folder |
| Paths.BaseNameAfterFolder | parse_tululu_category.py:144 | the tail of folder + name, with the folder ending in '/', is the name |
| Paths.JsonExtensionAccepted | parse_tululu_category.py:214 | a name with some non-dot character followed by `.json` passes the extension check in any folder |
| Paths.JsonExtensionShape | parse_tululu_category.py:214 | every path that passes the check ends in `.json` with something before it |
| Paths.DotJsonAloneRejected | parse_tululu_category.py:214 | a bare `.json` is a hidden file's name and fails the check |
| BookPage.Decimals | parse_tululu_category.py:220-221 | `str(n) for n in range(lo, hi)`: the right count, the i-th being `str(lo + i)` |
| BookPage.ReadDetailsOutcome | parse_tululu_category.py:111-132 | the details are read exactly when the heading exists and splits into two and the cover exists; the failures are ValueError and a missing element only; title and author are the split parts stripped, the cover URL is the joined src stripped, comments and genres are kept |
| BookPage.SplitHeadingOfTitleAuthor | parse_tululu_category.py:111-112 | a heading `title::author`, where neither part contains `::` and the title does not end in `:`, splits back into the stripped title and author |
| BookPage.SplitHeadingWithoutSeparator | parse_tululu_category.py:112 | a heading without `::` raises ValueError |
| BookPage.SplitHeadingExtraSeparator | parse_tululu_category.py:112 | a heading with two `::` raises ValueError |
| BookPage.SplitHeadingSound | parse_tululu_category.py:111-125 | an accepted heading is two `::`-free parts around one `::`, and the title and author are those parts stripped |
| BookPage.SplitHeadingRoundTrip | parse_tululu_category.py:111-125 | formatting a clean title and author as `Title :: Author` and parsing gives them back |
| BookPage.BookIdHasNoSeparators | parse_tululu_category.py:59 | the id taken from a card link has no '/' and no 'b' |
| BookPage.BookIdOfLink | parse_tululu_category.py:56-59 | the card link `/b<n>/` gives the id `str(n)` |
| BookPage.BookIdExample | parse_tululu_category.py:59 | `/b239/` gives `239` |
| BookPage.BookIdIdempotent | parse_tululu_category.py:59 | taking the id of an id changes nothing |
| BookPage.SanitizeHasNoSlash | parse_tululu_category.py:183 | a sanitised title has no '/', so the text file stays in its folder |
| BookPage.SanitizeDropsOnlySeparators | parse_tululu_category.py:183 | sanitising drops only '/' and backslashes |
| BookPage.SanitizeKeepsPlainTitle | parse_tululu_category.py:183 | a title with no '/' and no two adjacent backslashes is kept unchanged |
| BookPage.SanitizeLoneBackslash | parse_tululu_category.py:183 | `a/b\c` becomes `ab\c`: the lone backslash survives |
| BookPage.SanitizeLeavesBackslashPair | parse_tululu_category.py:183 | `\/\` becomes two adjacent backslashes once the slash is gone |
| BookPage.CategoryTextFileNameShape | parse_tululu_category.py:183-185 | the name `<N>.<title>.txt` has no '/', ends in `.txt`, and the number before its first '.' is N |
| BookPage.IdTextFileNameShape | tululu.py:82-84 | the name `<id>. <title>.txt` has no '/', ends in `.txt`, and the number before its first '.' is the id |
| BookPage.ImageNameExample | parse_tululu_category.py:142-145 | a cover at `/files/my book.jpg` is saved as `my book.jpg` |
| Category.SaveBookText | parse_tululu_category.py:178-189 | requests exactly the text by id; succeeds exactly when the checked download does, writing one file at `<dest>/books/<N>.<title>.txt` and returning its path; a failure writes nothing and is a requests exception |
| Category.SaveBookCover | parse_tululu_category.py:154-164 | requests exactly the cover; succeeds exactly when the unchecked download does, writing one file at `<dest>/images/<name>`; a failure writes nothing and is a requests exception |
| Category.SaveManifest | parse_tululu_category.py:135-139 | the intended save always succeeds and puts the manifest at json_path itself when dest_folder is empty |
| Category.Harvester.constructor | parse_tululu_category.py:12-13 | the counter starts at 1 with no descriptions, requests or files |
| Category.Harvester.GetBooksFromPage | parse_tululu_category.py:47-70 | the loop over a page's cards leaves exactly the state of the card fold and returns its halt; the counter and the list of descriptions grow together |
| Category.Run | parse_tululu_category.py:197-222 | main's result is that of `main` as written: both checks, the page loop, then `save_book_description` as it stands, which aborts with FileNotFoundError for an empty dest_folder |
| CategoryProofs.TextPathIsNotMarker | parse_tululu_category.py:178-189 | a saved text path is never `Not downloaded`, and its file name starts with the counter it was made with |
| CategoryProofs.CoverPathIsNotMarker | parse_tululu_category.py:154-164 | a saved cover path is never `Not downloaded` |
| CategoryProofs.GetBookDetailFailure | parse_tululu_category.py:99-102 | a detail page that fails to download (status, redirect or transport) raises a requests exception after that one request, writing nothing |
| CategoryProofs.GetBookTextRedirected | parse_tululu_category.py:167-175 | a redirected text raises HTTPError, writes nothing and never asks for the cover |
| CategoryProofs.GetBookExceptions | parse_tululu_category.py:80-96 | get_book raises only the requests exceptions, or ValueError and a missing element from a downloaded detail page |
| CategoryProofs.GetBookSuccess | parse_tululu_category.py:80-96 | on success the parsed fields are kept; book_path is the saved text path or the marker, img_src the saved cover path or the marker; the files are those two in order |
| CategoryProofs.GetBookMarkers | parse_tululu_category.py:82-94 | each path field holds `Not downloaded` exactly when that download was skipped |
| CategoryProofs.GetBookRequests | parse_tululu_category.py:80-96 | get_book asks first for the detail page, then for the text unless skipped, then for a cover, at most three requests |
| CategoryProofs.GetBookAsksNoListing | parse_tululu_category.py:80-96 | get_book never asks for a listing page |
| CategoryProofs.CardStepSkips | parse_tululu_category.py:60-68 | a requests exception skips the card: the harvest goes on with the counter and descriptions unchanged |
| CategoryProofs.CardStepEscapes | parse_tululu_category.py:60-68 | any other exception stops the harvest and is the one that escapes |
| CategoryProofs.CardStepMalformedHeading | parse_tululu_category.py:111-112 | a heading without `::` stops the harvest with ValueError instead of skipping the book |
| CategoryProofs.CardStepRedirected | parse_tululu_category.py:99-102 | a redirected detail page adds no description and writes no file |
| CategoryProofs.CardStepCoverFailureLeavesText | parse_tululu_category.py:60-70 | when the text is saved and the cover fails, the book is skipped with the counter unchanged, yet its text file stays written |
| CategoryProofs.CardStepNumbered | parse_tululu_category.py:69-70 | one card keeps the numbering invariant (counter is one more than the number of descriptions, and the k-th description's text is numbered k + 1) and only appends descriptions |
| CategoryProofs.CardsFoldNumbered | parse_tululu_category.py:55-70 | the card loop keeps the numbering invariant and only appends |
| CategoryProofs.PageStepNumbered | parse_tululu_category.py:47-70 | one page keeps the numbering invariant and only appends |
| CategoryProofs.PageStepListingFailure | parse_tululu_category.py:50-52 | a listing page that fails to load ends the harvest with its own exception, after only its own request, with no description added and nothing written |
| CategoryProofs.PagesFoldNumbered | parse_tululu_category.py:220-221 | the page loop keeps the numbering invariant and only appends |
| CategoryProofs.RunNumbered | parse_tululu_category.py:184 | whichever save is used, in a saved manifest the k-th description's text is numbered k + 1 (or is the marker), and the counter ends at one more than the number of descriptions |
| CategoryProofs.RunFileNumbers | parse_tululu_category.py:184 | with texts downloaded, each manifest entry's file name starts with its place in the list, counting from 1 |
| CategoryProofs.CardsFoldListings | parse_tululu_category.py:55-70 | the card loop asks for no listing page |
| CategoryProofs.PageStepListings | parse_tululu_category.py:50-52 | one page adds exactly its own number to the listing requests |
| CategoryProofs.PagesFoldListings | parse_tululu_category.py:220-221 | the pages are asked for in order, each once: all of them when nothing escaped, otherwise a non-empty leading run |
| CategoryProofs.RunValidates | parse_tululu_category.py:208-218 | start_page >= end_page, or an extension other than `.json`, rejects the run before any request |
| CategoryProofs.RunPages | parse_tululu_category.py:220-221 | a saved run asked for pages start_page .. end_page - 1 in order; an aborted one for a leading run of them |
| CategoryProofs.RunFolds | parse_tululu_category.py:220-222 | past validation, main's requests are those of the page loop; it saves exactly when nothing escaped the loop and the save succeeded, and otherwise aborts with the loop's exception or else the save's |
| CategoryProofs.DefaultJsonPathAccepted | parse_tululu_category.py:40-43 | the default manifest name passes the extension check |
| CategoryProofs.DefaultPages | parse_tululu_category.py:19-43 | with every option at its default both checks pass, and a saved run asked for the listing pages 1 through 701 in order |
| CategoryProofs.ManifestPathEndsWithJsonPath | parse_tululu_category.py:137 | the intended manifest path ends with json_path |
| CategoryProofs.DefaultFolderLosesManifest | parse_tululu_category.py:136 | as written, the default empty dest_folder makes the save raise FileNotFoundError, while the intended save writes json_path |
| CategoryProofs.DefaultFolderAbortsRun | parse_tululu_category.py:220-222 | with a dest_folder, main as written and as intended are the same run; with the empty one, a harvest nothing escaped ends as written in FileNotFoundError with all its requests and files, where the intended run saves at json_path |
| ById.ReadPageDetailsOutcome | tululu.py:32-44 | the details are read exactly when the heading splits in two, the cover is there, every `texts` block has a `black` element and the `d_book` span exists; each comment is its block's text and the genres are the span's links; the heading's failure comes first |
| ById.ParseBookPage | tululu.py:25-54 | requests only the detail page and writes nothing; a failed (status-only) download raises its exception; otherwise the details are read from the page |
| ById.SaveBookCover | tululu.py:69-77 | requests exactly the cover; succeeds exactly when the status-checked download does, writing `images/<name>`; a failure writes nothing and is a requests exception |
| ById.GetBooks | tululu.py:95-116 | the loop's halt, requests and files are those of the fold over ids start_id .. end_id |
| ById.Run | tululu.py:119-130 | refused exactly when start_id > end_id, asking for nothing; otherwise get_books runs |
| ByIdProofs.VisitIdTransportFailure | tululu.py:101 | a transport failure of the text request escapes, after that one request and with no file |
| ByIdProofs.VisitIdSkips | tululu.py:102-107 | an id is skipped exactly when its text answered with an error status or a redirect; a skipped id asks for nothing more and writes nothing |
| ByIdProofs.VisitIdSaved | tululu.py:109-116 | a saved id asked for its text, page and cover in order and wrote `books/<id>. <title>.txt` and then `images/<name>` |
| ByIdProofs.TextPathNumber | tululu.py:80-87 | the text file's name starts with its id |
| ByIdProofs.VisitIdCoverFailure | tululu.py:109-116 | with the text and the page in hand, a failed cover download ends the run with its requests exception after all three requests, and the text file stays written |
| ByIdProofs.VisitIdDetailFailure | tululu.py:25-28 | with the text in hand, a failed detail page escapes with nothing written |
| ByIdProofs.DetailRedirectNotChecked | tululu.py:25-28 | a redirected detail page with a good status is read like any other |
| ByIdProofs.VisitIdMalformedHeading | tululu.py:32-33 | a heading without `::` stops the run with ValueError before the text is written |
| ByIdProofs.VisitIdCommentWithoutBlack | tululu.py:38-41 | a `texts` block without a `black` element stops the run with a missing-element error before the text is written |
| ByIdProofs.VisitIdRequests | tululu.py:95-116 | each id asks for its text, then its detail page, then a cover, at most three requests |
| ByIdProofs.VisitIdTextIds | tululu.py:96-101 | each id asks for its own text exactly once and for no other |
| ByIdProofs.IdsFoldTextIds | tululu.py:96-101 | the texts are asked for in increasing id order, each once: all remaining ids when nothing escaped, and at least one more whenever an id is left |
| ByIdProofs.RunTextIds | tululu.py:119-130 | a run asks for the texts of start_id .. end_id in order, or for a non-empty leading run when an exception escaped; equal bounds ask for one id |
| ByIdProofs.DefaultRange | tululu.py:14-21 | the default range covers the ten ids 1 through 10 |

## Left out

- **HTML parsing.**
  - BeautifulSoup and the CSS selectors are not modelled. A detail page is given already selected as a `BookPage.DetailPage`: the heading, the cover's src, the comments and the genres.
  - A listing page is given as the hrefs of its cards, so `get_book_cards` is not modelled.
  - A missing node raises `MissingElement`, which stands for the AttributeError, TypeError or KeyError that Python raises. In both scripts the model covers a missing heading and a missing cover. In `tululu.py` it also covers a `texts` block without a `black` element and a page without the `d_book` span (`ById.ReadPageDetails`). In `parse_tululu_category.py` the comments and genres come from `select`, which cannot fail.
- BookPage.DetailPage: the two scripts find the heading and the cover with different selectors. The model gives both scripts the same heading and the same cover src.
- Http.Download: a GET request has three outcomes here: a response, ConnectionError, or InvalidURL. `requests.get` can also raise TooManyRedirects, MissingSchema, InvalidSchema, ChunkedEncodingError and others. Those are not modelled. No book loop catches them, so in the source such a book ends the run. The statement that every download failure is one of the three caught exceptions holds only for the modelled outcomes.
- CategoryProofs.GetBookExceptions: it lists the exceptions of the modelled outcomes only, for the reason given under `Http.Download`.
- BookPage.Site: every fetch is a function of its URL or id, so a request repeated in one run gets the same outcome. Examples are a card listed on two pages, or two books sharing a cover URL. The network does not guarantee this, and the model treats it as deterministic.
- **URL handling.** `urljoin` and `urlparse(unquote(url)).path` are opaque functions of the `Site`. `get_image_name` is modelled from the decoded path on.
- **Network and files.**
  - Response bodies and file contents are not tracked. Files are recorded only by path, in write order.
  - The `params` of the `txt.php` request are folded into the `BookText(id)` request.
  - `os.makedirs(..., exist_ok=True)` for the books and images folders, and the writes themselves, are assumed to succeed.
  - The JSON formatting of `json.dump` is not modelled.
- **Command line and output.**
  - `argparse` is reduced to the `Options` value and the constants of its defaults. With `type=bool`, any non-empty `--skip_imgs` or `--skip_txt` string counts as true, and that is not modelled.
  - Logging and the `print` calls in `tululu.py` are left out.
- **Other files.** render_website.py and parser.py are not part of this model.
- **Category.Harvester.** The requests issued and the files written are ghost fields, because the script holds no such record.
- **Category.ParseBookPage.** The description's initial `book_path: ''` is not kept, because `get_book` always overwrites it.
- **Category.SaveManifest.** Its contract states the intended behaviour, which `Category.RunSpecIntended` uses. `Category.Run` and `Category.RunSpec` model `main` with the save as written, `Category.SaveManifestAsWritten` (see Findings).
- **Behaviours of the code that the model keeps as they are.** These are easy to take for mistakes:
  - `end_page` is exclusive, and `start_page == end_page` is rejected;
  - a listing page that fails to load ends the whole run instead of being skipped;
  - a heading that does not split in two raises ValueError, and that ends the run instead of skipping the book;
  - the category script numbers text files with its running counter, and `tululu.py` uses the id;
  - a cover download has no redirect check;
  - a lone backslash survives sanitising;
  - in `tululu.py`, a transport failure of the text request sits outside the `try` and escapes, and its `ConnectionError` and `InvalidURL` handlers can never fire.

## Findings

| source | as written | input that shows it | evidently intended | confidence | as-written member | corrected member |
|---|---|---|---|---|---|---|
| parse_tululu_category.py:136 | `save_book_description` first calls `os.makedirs(dest_folder, exist_ok=True)`, and `os.makedirs('')` raises FileNotFoundError | the default `dest_folder` of `''`: after the whole harvest the manifest is not written and the run ends with FileNotFoundError | the manifest is written to `json_path` in the current directory, just as the books go to `books/` there | not executed | Category.SaveManifestAsWritten, Category.Run, CategoryProofs.DefaultFolderLosesManifest, CategoryProofs.DefaultFolderAbortsRun | Category.SaveManifest, Category.RunSpecIntended, CategoryProofs.ManifestPathEndsWithJsonPath |
