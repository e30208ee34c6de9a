/**
  The two media retry loops (src/download.rs): an outer loop over refresh attempts and an
  inner loop over the hosts of a route, once returning bytes and once threading a sink.
 */
module MediaRetry {
  import opened Common
  import opened DownloadTypes
  import opened MediaSink

  const NO_MEDIA_CONN_REFRESH: nat := 0
  const MEDIA_AUTH_REFRESH_RETRY_ATTEMPTS: nat := 1

  function ClientRefreshBudget(hasStaticUrl: bool): nat {
    if hasStaticUrl then NO_MEDIA_CONN_REFRESH else MEDIA_AUTH_REFRESH_RETRY_ATTEMPTS
  }

  function FinalError(lastErr: Option<Cause>): RequestError {
    match lastErr
    case Some(c) => Other(c)
    case None => NoHosts
  }

  /** The rest of a download from the start of refresh attempt `attempt`. */
  function Attempts(o: Oracle, budget: nat, attempt: nat, lastErr: Option<Cause>,
                    lastRejection: Option<Cause>, trace: Trace): Outcome
    requires attempt <= budget
    decreases budget - attempt, 1, 0
  {
    var force := attempt > 0;
    var route := o.prepare(trace, force);
    var prepared := trace + [Prepared(force, route)];
    match route
    case Failure(e) => Outcome(Failure(PrepareFailure(e, force)), prepared)
    case Success(requests) =>
      if requests == [] then Outcome(Failure(NoHostsError(lastRejection)), prepared)
      else Hosts(o, budget, attempt, requests, lastErr, lastRejection, prepared)
  }

  /** The rest of a download with `requests` still to try in this attempt. */
  function Hosts(o: Oracle, budget: nat, attempt: nat, requests: seq<Request>, lastErr: Option<Cause>,
                 lastRejection: Option<Cause>, trace: Trace): Outcome
    requires attempt <= budget
    decreases budget - attempt, 0, |requests|
  {
    if requests == [] then Outcome(Failure(FinalError(lastErr)), trace)
    else
      var response := o.respond(trace, requests[0]);
      var executed := trace + [Executed(requests[0], response)];
      match Delivered(response)
      case Success(data) => Outcome(Success(data), executed)
      case Failure(e) =>
        if IsRejection(e) then
          if attempt < budget then
            Attempts(o, budget, attempt + 1, lastErr, Some(IntoCause(e)), executed + [Invalidated])
          else Outcome(Failure(e), executed)
        else Hosts(o, budget, attempt, requests[1..], Some(IntoCause(e)), lastRejection, executed)
  }

  /** A whole download. */
  function Download(o: Oracle, budget: nat): Outcome {
    Attempts(o, budget, 0, None, None, [])
  }

  // ------------------------------------------------------------------
  // The loops
  // ------------------------------------------------------------------

  method DownloadMediaWithRetry(o: Oracle, budget: nat, streaming: bool) returns (r: Result<Bytes, RequestError>, trace: Trace)
    ensures Outcome(r, trace) == Download(o, budget)
  {
    trace := [];
    var forceRefresh := false;
    var lastErr: Option<Cause> := None;
    var lastRejection: Option<Cause> := None;

    var attempt := 0;
    while attempt <= budget
      invariant attempt <= budget
      invariant forceRefresh == (attempt > 0)
      invariant Attempts(o, budget, attempt, lastErr, lastRejection, trace) == Download(o, budget)
      decreases budget - attempt
    {
      var route := o.prepare(trace, forceRefresh);
      trace := trace + [Prepared(forceRefresh, route)];
      if route.Failure? {
        return Failure(PrepareFailure(route.error, forceRefresh)), trace;
      }
      var requests := route.value;
      if requests == [] {
        return Failure(NoHostsError(lastRejection)), trace;
      }
      var retryWithFreshAuth := false;

      var i := 0;
      while i < |requests|
        invariant i <= |requests|
        invariant i == |requests| ==> lastErr.Some?
        invariant Hosts(o, budget, attempt, requests[i..], lastErr, lastRejection, trace) == Download(o, budget)
      {
        var response := o.respond(trace, requests[i]);
        trace := trace + [Executed(requests[i], response)];
        var result := ExecuteIntoMemory(response, streaming);
        if result.Success? {
          return result, trace;
        }
        var err := result.error;
        if err.WriterIo? {
          return Failure(err), trace;
        } else if IsRejection(err) && attempt < budget {
          lastRejection := Some(IntoCause(err));
          trace := trace + [Invalidated];
          forceRefresh := true;
          retryWithFreshAuth := true;
          break;
        } else if IsRejection(err) {
          return Failure(err), trace;
        }
        lastErr := Some(IntoCause(err));
        assert requests[i..][1..] == requests[i + 1..];
        i := i + 1;
      }
      if !retryWithFreshAuth {
        break;
      }
      attempt := attempt + 1;
    }
    assert lastErr.Some?;
    r := Failure(FinalError(lastErr));
  }

  lemma {:induction false} AttemptsExtend(o: Oracle, budget: nat, attempt: nat, lastErr: Option<Cause>,
                                          lastRejection: Option<Cause>, trace: Trace)
    requires attempt <= budget
    ensures trace + [Prepared(attempt > 0, o.prepare(trace, attempt > 0))]
         <= Attempts(o, budget, attempt, lastErr, lastRejection, trace).trace
    decreases budget - attempt, 1, 0
  {
    var route := o.prepare(trace, attempt > 0);
    if route.Success? && route.value != [] {
      HostsExtend(o, budget, attempt, route.value, lastErr, lastRejection, trace + [Prepared(attempt > 0, route)]);
    }
  }

  /** A loop only ever appends to its trace, and the next host asked is the first one left. */
  lemma {:induction false} HostsExtend(o: Oracle, budget: nat, attempt: nat, requests: seq<Request>,
                                       lastErr: Option<Cause>, lastRejection: Option<Cause>, trace: Trace)
    requires attempt <= budget
    ensures trace <= Hosts(o, budget, attempt, requests, lastErr, lastRejection, trace).trace
    ensures requests != [] ==>
              (trace + [Executed(requests[0], o.respond(trace, requests[0]))]
               <= Hosts(o, budget, attempt, requests, lastErr, lastRejection, trace).trace)
    decreases budget - attempt, 0, |requests|
  {
    if requests != [] {
      var response := o.respond(trace, requests[0]);
      var executed := trace + [Executed(requests[0], response)];
      var d := Delivered(response);
      if d.Failure? {
        if !IsRejection(d.error) {
          HostsExtend(o, budget, attempt, requests[1..], Some(IntoCause(d.error)), lastRejection, executed);
        } else if attempt < budget {
          AttemptsExtend(o, budget, attempt + 1, lastErr, Some(IntoCause(d.error)), executed + [Invalidated]);
        }
      }
    }
  }

  /**
    How a download into a sink ends, against the download into memory with the same oracle.

    Success leaves exactly the bytes the memory download returns, at position 0, after the
    same calls. A failure that still owns the sink is the memory download's own failure after
    the same calls, or a failure of the sink itself after a prefix of them; it comes back
    unchanged with the sink empty, or inside `Cleanup`. Without a sink fault it is never either.
    An executor that loses the writer ends the download there.
   */
  ghost predicate Bisimilar(o: Oracle, budget: nat, sink: Sink, from: nat, r: Result<(), RequestError>,
                            owned: bool, failure: RequestError, trace: Trace)
    reads sink
  {
    var memory := Download(o, budget);
    && sink.ops >= from
    && (r.Success? ==>
          owned && memory == Outcome(Success(sink.contents), trace) && sink.position == 0)
    && (r.Failure? && owned ==>
          && (r.error == failure ==> sink.contents == [] && sink.position == 0)
          && (r.error == failure || (r.error.Cleanup? && r.error.failure == failure && sink.Blames(from, r.error.cleanup)))
          && (memory == Outcome(Failure(failure), trace)
              || (failure.WriterIo? && failure.cause.SinkIo? && sink.Blames(from, failure.cause.io)
                  && trace <= memory.trace)))
    && (r.Failure? && !owned ==>
          && trace != [] && trace[|trace| - 1].Executed? && trace[|trace| - 1].response.Lost?
          && r.error == Other(trace[|trace| - 1].response.cause) && trace <= memory.trace)
  }

  method DownloadToWriterWithRetry(o: Oracle, budget: nat, streaming: bool, sink: Sink)
    returns (r: Result<(), RequestError>, owned: bool, trace: Trace, ghost failure: RequestError)
    modifies sink
    ensures Bisimilar(o, budget, sink, old(sink.ops), r, owned, failure, trace)
  {
    trace := [];
    owned := true;
    failure := NoHosts;
    ghost var from := sink.ops;
    var forceRefresh := false;
    var lastErr: Option<Cause> := None;
    var lastRejection: Option<Cause> := None;

    var attempt := 0;
    while attempt <= budget
      invariant attempt <= budget && owned && sink.ops >= from
      invariant forceRefresh == (attempt > 0)
      invariant Attempts(o, budget, attempt, lastErr, lastRejection, trace) == Download(o, budget)
      decreases budget - attempt
    {
      var route := o.prepare(trace, forceRefresh);
      trace := trace + [Prepared(forceRefresh, route)];
      if route.Failure? {
        failure := PrepareFailure(route.error, forceRefresh);
        var e := DiscardFailedWrite(sink, PrepareFailure(route.error, forceRefresh));
        return Failure(e), owned, trace, failure;
      }
      var requests := route.value;
      if requests == [] {
        failure := NoHostsError(lastRejection);
        var e := DiscardFailedWrite(sink, NoHostsError(lastRejection));
        return Failure(e), owned, trace, failure;
      }
      var retryWithFreshAuth := false;

      var i := 0;
      while i < |requests|
        invariant i <= |requests| && owned && sink.ops >= from
        invariant i == |requests| ==> lastErr.Some?
        invariant Hosts(o, budget, attempt, requests[i..], lastErr, lastRejection, trace) == Download(o, budget)
      {
        HostsExtend(o, budget, attempt, requests[i..], lastErr, lastRejection, trace);
        var response := o.respond(trace, requests[i]);
        trace := trace + [Executed(requests[i], response)];
        if response.Lost? {
          owned := false;
          return Failure(Other(response.cause)), owned, trace, failure;
        }
        var result := ExecuteToWriter(sink, response, streaming);
        if result.Success? {
          return result, owned, trace, failure;
        }
        var err := result.error;
        if err.WriterIo? {
          failure := err;
          var e := DiscardFailedWrite(sink, err);
          return Failure(e), owned, trace, failure;
        } else if IsRejection(err) && attempt < budget {
          lastRejection := Some(IntoCause(err));
          trace := trace + [Invalidated];
          forceRefresh := true;
          retryWithFreshAuth := true;
          break;
        } else if IsRejection(err) {
          failure := err;
          var e := DiscardFailedWrite(sink, err);
          return Failure(e), owned, trace, failure;
        }
        lastErr := Some(IntoCause(err));
        assert requests[i..][1..] == requests[i + 1..];
        i := i + 1;
      }
      if !retryWithFreshAuth {
        break;
      }
      attempt := attempt + 1;
    }
    assert lastErr.Some?;
    failure := FinalError(lastErr);
    var e := DiscardFailedWrite(sink, FinalError(lastErr));
    r := Failure(e);
  }
}
