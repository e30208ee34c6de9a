/**
  Values of the media download path (src/download.rs): failures, requests, what a CDN
  host answers, and the trace of calls a retry loop issues.
 */
module DownloadTypes {
  import opened Common

  /** A sink's `std::io::Error`, identified by its OS code. */
  datatype IoError = IoError(code: int)

  /** The error value a failure carries (`anyhow::Error`). */
  datatype Cause =
    | HttpStatus(status: nat)
    | SinkIo(io: IoError)
    | Foreign(id: nat)            // transport, crypto or session error of another crate
    | AllHostsFailed              // the fixed message of a route without hosts
    | Wrapped(error: RequestError)

  datatype RequestError =
    | Auth(cause: Cause)
    | NotFound(cause: Cause)
    | Other(cause: Cause)
    | WriterIo(cause: Cause)
    | Prepare(cause: Cause)
    | NoHosts
    | NoHostsAfterRefresh(cause: Cause)
    | Session(forceRefresh: bool, cause: Cause)
    | Cleanup(failure: RequestError, cleanup: IoError)

  const HTTP_STATUS_REDIRECTION_START: nat := 300
  const HTTP_STATUS_UNAUTHORIZED: nat := 401
  const HTTP_STATUS_FORBIDDEN: nat := 403
  const HTTP_STATUS_NOT_FOUND: nat := 404
  const HTTP_STATUS_GONE: nat := 410

  /** `is_auth() || is_not_found()`: the failures that trigger a refresh. */
  predicate IsRejection(e: RequestError) {
    e.Auth? || e.NotFound?
  }

  function NoHostsError(previousRejection: Option<Cause>): RequestError {
    match previousRejection
    case Some(cause) => NoHostsAfterRefresh(cause)
    case None => NoHosts
  }

  /** A failure with one cause is reduced to it; nothing of the others is lost. */
  function IntoCause(e: RequestError): (cause: Cause)
    ensures !e.NoHosts? && !e.NoHostsAfterRefresh? && !e.Cleanup? ==> cause == e.cause
    ensures e.NoHostsAfterRefresh? || e.Cleanup? ==> cause == Wrapped(e)
  {
    match e
    case Auth(c) => c
    case NotFound(c) => c
    case Other(c) => c
    case WriterIo(c) => c
    case Prepare(c) => c
    case NoHosts => AllHostsFailed
    case Session(_, c) => c
    case NoHostsAfterRefresh(_) => Wrapped(e)
    case Cleanup(_, _) => Wrapped(e)
  }

  /** 401 and 403 need fresh auth, 404 and 410 a fresh URL; nothing else is a rejection. */
  function ValidateStatus(status: nat): (r: Result<(), RequestError>)
    ensures r.Success? <==> status < 300
    ensures r.Failure? ==> IntoCause(r.error) == HttpStatus(status) && !r.error.WriterIo?
    ensures r.Failure? && r.error.Auth? <==> status in {401, 403}
    ensures r.Failure? && r.error.NotFound? <==> status in {404, 410}
  {
    if status < HTTP_STATUS_REDIRECTION_START then Success(())
    else if status == HTTP_STATUS_UNAUTHORIZED || status == HTTP_STATUS_FORBIDDEN then
      Failure(Auth(HttpStatus(status)))
    else if status == HTTP_STATUS_NOT_FOUND || status == HTTP_STATUS_GONE then
      Failure(NotFound(HttpStatus(status)))
    else Failure(Other(HttpStatus(status)))
  }

  type Request = nat

  /**
    What executing a request meets. `Answer` carries the plaintext chunks decryption hands
    to the writer before its verdict: with verdict `None` they are the verified media, with
    `Some` they are unauthenticated bytes of a body that failed.
   */
  datatype Response =
    | Lost(cause: Cause)          // the executor failed without handing the writer back
    | Unreachable(cause: Cause)   // no HTTP exchange completed
    | Answer(status: nat, chunks: seq<Bytes>, verdict: Option<Cause>)

  /** The media arrived and authenticated. */
  predicate Verified(r: Response) {
    r.Answer? && r.status < 300 && r.verdict == None
  }

  /** The CDN wants fresh auth or a fresh URL. */
  predicate Rejected(r: Response) {
    r.Answer? && r.status in {401, 403, 404, 410}
  }

  /** The failure a response stands for. */
  predicate FailsWith(r: Response, e: RequestError) {
    match r
    case Lost(c) => e == Other(c)
    case Unreachable(c) => e == Other(c)
    case Answer(status, _, verdict) =>
      if status in {401, 403} then e == Auth(HttpStatus(status))
      else if status in {404, 410} then e == NotFound(HttpStatus(status))
      else if status >= 300 then e == Other(HttpStatus(status))
      else verdict.Some? && e == Other(verdict.value)
  }

  /** What one response means for a download into memory. */
  function Delivered(r: Response): Result<Bytes, RequestError> {
    match r
    case Lost(c) => Failure(Other(c))
    case Unreachable(c) => Failure(Other(c))
    case Answer(status, chunks, verdict) =>
      match ValidateStatus(status)
      case Failure(e) => Failure(e)
      case Success(_) =>
        match verdict
        case Some(c) => Failure(Other(c))
        case None => Success(Concat(chunks))
  }

  /** A response delivers its chunks end to end exactly if it is verified, and fails with its own failure otherwise. */
  lemma DeliveredExactly(r: Response)
    ensures Delivered(r).Success? <==> Verified(r)
    ensures Delivered(r).Success? ==> EndToEnd(r.chunks, Delivered(r).value)
    ensures Delivered(r).Failure? ==> FailsWith(r, Delivered(r).error)
    ensures Delivered(r).Failure? ==> (IsRejection(Delivered(r).error) <==> Rejected(r))
  {
    if r.Answer? {
      ConcatEndToEnd(r.chunks);
    }
  }

  type Route = Result<seq<Request>, PrepareError>

  /** The two ways building the request list fails. */
  datatype PrepareError = BadReference(cause: Cause) | NoSession(cause: Cause)

  function PrepareFailure(e: PrepareError, force: bool): RequestError {
    match e
    case BadReference(c) => Prepare(c)
    case NoSession(c) => Session(force, c)
  }

  /** One call a retry loop issued, with the answer it got. */
  datatype Event =
    | Prepared(force: bool, route: Route)
    | Executed(request: Request, response: Response)
    | Invalidated

  type Trace = seq<Event>

  /** The outside world: its answers may depend on everything asked before. */
  datatype Oracle = Oracle(prepare: (Trace, bool) -> Route, respond: (Trace, Request) -> Response)

  datatype Outcome = Outcome(result: Result<Bytes, RequestError>, trace: Trace)
}
