/** What the scraper sees of the network: the outcome of one GET request, the exceptions the
    requests library and the page handling raise, and the two checks applied to a response. */
module Http {

  /** Exceptions that can leave a book, a page or a run. */
  datatype Exception =
    | ConnectionError    // requests.exceptions.ConnectionError: no response arrived
    | InvalidURL         // requests.exceptions.InvalidURL: the URL was refused before sending
    | HTTPError          // requests.exceptions.HTTPError: raise_for_status or check_for_redirect
    | ValueError         // a heading that does not unpack into exactly two parts
    | MissingElement     // AttributeError/TypeError/KeyError: a page lacks a node the code selects
    | FileNotFoundError  // os.makedirs on an empty path

  /** The three requests exception types that the book loops catch. */
  predicate IsRequestsError(e: Exception) {
    e == ConnectionError || e == InvalidURL || e == HTTPError
  }

  /** A value, or the exception raised instead of producing it. */
  datatype Result<T> = Ok(value: T) | Raise(exc: Exception)

  /** A completed response: its status code, the status codes of the redirects that led to it
      (response.history), and its parsed body. */
  datatype Response<T> = Response(status: int, history: seq<int>, body: T)

  /** What one requests.get call yields. */
  datatype Fetch<T> = Received(response: Response<T>) | ConnectionFailed | UrlRejected

  /** One GET request the scraper issues, in the order issued. */
  datatype Request =
    | ListingPage(page: string)  // a page of the catalogue listing, by page number as text
    | Detail(url: string)        // a book's detail page
    | BookText(id: string)       // txt.php?id=<id>
    | Cover(url: string)         // a cover image

  /** requests.get: the response, or the exception raised when none arrives. */
  function Get<T>(f: Fetch<T>): Result<Response<T>> {
    match f
    case Received(resp) => Ok(resp)
    case ConnectionFailed => Raise(ConnectionError)
    case UrlRejected => Raise(InvalidURL)
  }

  /** The status codes response.raise_for_status() rejects: client and server errors. */
  predicate IsErrorStatus(status: int) {
    400 <= status < 600
  }

  /** response.raise_for_status() */
  function RaiseForStatus<T>(resp: Response<T>): Result<Response<T>> {
    if IsErrorStatus(resp.status) then Raise(HTTPError) else Ok(resp)
  }

  /** check_for_redirect(response): the site answers a missing book with a redirect, so any
      redirect history counts as "not found". */
  function CheckForRedirect<T>(resp: Response<T>): Result<Response<T>> {
    if resp.history != [] then Raise(HTTPError) else Ok(resp)
  }

  /** requests.get, then raise_for_status, then (when checkRedirect) check_for_redirect, giving
      the body. The body is delivered exactly when a response arrived, its status is not an
      error and, if checked, it was not redirected; every failure is one of the three requests
      exceptions. */
  function Download<T>(f: Fetch<T>, checkRedirect: bool): (r: Result<T>)
    ensures r.Ok? <==> f.Received? && !IsErrorStatus(f.response.status) &&
                       (checkRedirect ==> f.response.history == [])
    ensures r.Ok? ==> r.value == f.response.body
    ensures r.Raise? ==> IsRequestsError(r.exc)
    ensures f.Received? && IsErrorStatus(f.response.status) ==> r == Raise(HTTPError)
    ensures checkRedirect && f.Received? && f.response.history != [] ==> r == Raise(HTTPError)
  {
    match Get(f)
    case Raise(e) => Raise(e)
    case Ok(resp) =>
      match RaiseForStatus(resp)
      case Raise(e) => Raise(e)
      case Ok(_) =>
        if !checkRedirect then Ok(resp.body)
        else
          match CheckForRedirect(resp)
          case Raise(e) => Raise(e)
          case Ok(_) => Ok(resp.body)
  }
}
