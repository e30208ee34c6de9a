/**
  What a media download's calls and its final error mean, for any refresh budget
  (src/download.rs). Everything here is said of the trace alone.
 */
module MediaAccounting {
  import opened Common
  import opened DownloadTypes
  import opened MediaRetry

  /** What may come right after event `i`: the grammar of a retry loop's calls. */
  predicate Follows(t: Trace, i: nat)
    requires i + 1 < |t|
  {
    match t[i]
    case Prepared(_, route) => t[i + 1].Executed? && route.Success?
    case Executed(_, r) => !Verified(r) && (if Rejected(r) then t[i + 1].Invalidated? else t[i + 1].Executed?)
    case Invalidated => t[i + 1].Prepared?
  }

  /** Event `i` executes host number `i - p - 1` of the route prepared at `p`, after all hosts before it. */
  predicate Serves(t: Trace, p: nat, i: nat) {
    && p < i < |t|
    && t[p].Prepared? && t[p].route.Success? && t[i].Executed?
    && i - p - 1 < |t[p].route.value| && t[i].request == t[p].route.value[i - p - 1]
    && forall k :: p < k < i ==> t[k].Executed?
  }

  ghost predicate InOrder(t: Trace, i: nat) {
    exists p: nat :: Serves(t, p, i)
  }

  /** Event `i` records the oracle's answer to everything asked before it. */
  ghost predicate Genuine(o: Oracle, t: Trace, i: nat)
    requires i < |t|
  {
    match t[i]
    case Prepared(force, route) => route == o.prepare(t[..i], force)
    case Executed(request, response) => response == o.respond(t[..i], request)
    case Invalidated => true
  }

  /** Event `i` is well placed: only the first prepare is unforced, and hosts go in order. */
  ghost predicate Placed(o: Oracle, t: Trace, i: nat)
    requires i < |t|
  {
    && Genuine(o, t, i)
    && (i == 0 ==> t[i].Prepared?)
    && (t[i].Prepared? ==> (t[i].force <==> i > 0))
    && (t[i].Executed? ==> InOrder(t, i))
  }

  ghost predicate Disciplined(o: Oracle, t: Trace) {
    && (forall i: nat :: i < |t| ==> Placed(o, t, i))
    && (forall i: nat :: i + 1 < |t| ==> Follows(t, i))
  }

  /** Forced prepares, and invalidations, in a trace. */
  function Refreshes(t: Trace): nat {
    if t == [] then 0
    else var n := |t| - 1; Refreshes(t[..n]) + (if t[n].Prepared? && t[n].force then 1 else 0)
  }

  function Invalidations(t: Trace): nat {
    if t == [] then 0
    else var n := |t| - 1; Invalidations(t[..n]) + (if t[n].Invalidated? then 1 else 0)
  }

  lemma CountsSnoc(t: Trace, e: Event)
    ensures Refreshes(t + [e]) == Refreshes(t) + (if e.Prepared? && e.force then 1 else 0)
    ensures Invalidations(t + [e]) == Invalidations(t) + (if e.Invalidated? then 1 else 0)
  {
    assert (t + [e])[..|t|] == t;
  }

  lemma PlacedSnoc(o: Oracle, t: Trace, e: Event, i: nat)
    requires i < |t| && Placed(o, t, i)
    ensures Placed(o, t + [e], i)
  {
    assert (t + [e])[..i] == t[..i];
    if t[i].Executed? {
      var p: nat :| Serves(t, p, i);
      assert Serves(t + [e], p, i);
    }
  }

  lemma Snoc(o: Oracle, t: Trace, e: Event)
    requires Disciplined(o, t) && Placed(o, t + [e], |t|)
    requires t != [] ==> Follows(t + [e], |t| - 1)
    ensures Disciplined(o, t + [e])
  {
    var u := t + [e];
    forall i: nat | i < |u| ensures Placed(o, u, i) {
      if i < |t| {
        PlacedSnoc(o, t, e, i);
      }
    }
    forall i: nat | i + 1 < |u| ensures Follows(u, i) {
      if i + 1 < |t| {
        assert Follows(t, i);
      }
    }
  }

  /** The rejection that led to the latest refresh: the call two before the prepare after it. */
  predicate RejectedBefore(t: Trace, k: nat, cause: Cause) {
    && 2 <= k <= |t|
    && t[k - 1].Invalidated? && t[k - 2].Executed? && Rejected(t[k - 2].response)
    && cause == HttpStatus(t[k - 2].response.status)
  }

  /** What a result says about the trace that led to it. */
  ghost predicate Means(result: Result<Bytes, RequestError>, t: Trace, budget: nat) {
    t != [] &&
    var n := |t| - 1;
    match t[n]
    case Executed(_, response) =>
      && (result.Success? <==> Verified(response))
      && (result.Success? ==> EndToEnd(response.chunks, result.value))
      && (result.Failure? ==> FailsWith(response, result.error))
      && (Rejected(response) ==> Refreshes(t) == budget)
      && (result.Failure? && !Rejected(response) ==>
            exists p: nat :: Serves(t, p, n) && |t[p].route.value| == n - p)
    case Prepared(_, Failure(BadReference(c))) => result == Failure(Prepare(c))
    case Prepared(force, Failure(NoSession(c))) => result == Failure(Session(force, c))
    case Prepared(false, Success(requests)) => n == 0 && requests == [] && result == Failure(NoHosts)
    case Prepared(true, Success(requests)) =>
      && requests == [] && result.Failure? && result.error.NoHostsAfterRefresh?
      && RejectedBefore(t, n, result.error.cause)
    case Invalidated => false
  }

  ghost predicate Accounted(o: Oracle, budget: nat, out: Outcome) {
    && Disciplined(o, out.trace)
    && Refreshes(out.trace) == Invalidations(out.trace) <= budget
    && Means(out.result, out.trace, budget)
  }

  /** Attempt `attempt` is part-way through the route prepared at `p`: `requests` are the hosts left. */
  ghost predicate MidRoute(o: Oracle, attempt: nat, requests: seq<Request>, lastErr: Option<Cause>, t: Trace, p: nat) {
    && Disciplined(o, t) && Refreshes(t) == Invalidations(t) == attempt
    && p < |t| && t[p].Prepared? && t[p].route.Success? && t[p].route.value != []
    && |t| - p - 1 <= |t[p].route.value| && requests == t[p].route.value[|t| - p - 1..]
    && (forall k :: p < k < |t| ==> t[k].Executed?)
    && (p < |t| - 1 ==>
          && Serves(t, p, |t| - 1)
          && !Verified(t[|t| - 1].response) && !Rejected(t[|t| - 1].response)
          && lastErr.Some? && FailsWith(t[|t| - 1].response, Other(lastErr.value)))
  }

  /** Running out of hosts reports the last host's own failure. */
  lemma RouteExhausted(o: Oracle, budget: nat, attempt: nat, lastErr: Option<Cause>, t: Trace, p: nat)
    requires attempt <= budget && MidRoute(o, attempt, [], lastErr, t, p)
    ensures Accounted(o, budget, Outcome(Failure(FinalError(lastErr)), t))
  {
    assert Serves(t, p, |t| - 1) && |t[p].route.value| == |t| - 1 - p;
  }

  lemma NextHost(o: Oracle, attempt: nat, requests: seq<Request>, lastErr: Option<Cause>, t: Trace, p: nat, e: Event)
    requires MidRoute(o, attempt, requests, lastErr, t, p) && requests != []
    requires e == Executed(requests[0], o.respond(t, requests[0]))
    ensures Disciplined(o, t + [e]) && Refreshes(t + [e]) == Invalidations(t + [e]) == attempt
    ensures Serves(t + [e], p, |t|)
  {
    var u := t + [e];
    assert u[..|t|] == t;
    assert Serves(u, p, |t|);
    Snoc(o, t, e);
    CountsSnoc(t, e);
  }

  lemma HostFailed(o: Oracle, attempt: nat, requests: seq<Request>, lastErr: Option<Cause>, t: Trace, p: nat, e: Event)
    requires MidRoute(o, attempt, requests, lastErr, t, p) && requests != []
    requires e == Executed(requests[0], o.respond(t, requests[0]))
    requires Delivered(e.response).Failure? && !Rejected(e.response)
    ensures MidRoute(o, attempt, requests[1..], Some(IntoCause(Delivered(e.response).error)), t + [e], p)
  {
    DeliveredExactly(e.response);
    NextHost(o, attempt, requests, lastErr, t, p, e);
  }

  lemma RejectionIff(r: Response)
    ensures Delivered(r).Failure? ==> (IsRejection(Delivered(r).error) <==> Rejected(r))
    ensures Delivered(r).Failure? && Rejected(r) ==> IntoCause(Delivered(r).error) == HttpStatus(r.status)
  {
    DeliveredExactly(r);
  }

  /** A verified answer ends the download, and so does a rejection with the budget used up. */
  lemma EndsAtHost(o: Oracle, budget: nat, requests: seq<Request>, lastErr: Option<Cause>, attempt: nat,
                   t: Trace, p: nat, e: Event)
    requires attempt <= budget && MidRoute(o, attempt, requests, lastErr, t, p) && requests != []
    requires e == Executed(requests[0], o.respond(t, requests[0]))
    requires Delivered(e.response).Success? || (Rejected(e.response) && attempt == budget)
    ensures Accounted(o, budget, Outcome(Delivered(e.response), t + [e]))
  {
    NextHost(o, attempt, requests, lastErr, t, p, e);
    DeliveredExactly(e.response);
  }

  lemma AfterRejection(o: Oracle, t: Trace)
    requires Disciplined(o, t) && t != [] && t[|t| - 1].Executed? && Rejected(t[|t| - 1].response)
    ensures var u := t + [Invalidated];
            && Disciplined(o, u) && Refreshes(u) == Refreshes(t) && Invalidations(u) == Invalidations(t) + 1
            && RejectedBefore(u, |u|, HttpStatus(t[|t| - 1].response.status))
  {
    Snoc(o, t, Invalidated);
    CountsSnoc(t, Invalidated);
  }

  lemma {:induction false} AttemptsAccounted(o: Oracle, budget: nat, attempt: nat, lastErr: Option<Cause>,
                                             lastRejection: Option<Cause>, t: Trace)
    requires attempt <= budget && Disciplined(o, t) && Invalidations(t) == attempt
    requires if attempt == 0 then t == [] && lastRejection == None && Refreshes(t) == 0
             else lastRejection.Some? && RejectedBefore(t, |t|, lastRejection.value) && Refreshes(t) == attempt - 1
    ensures Accounted(o, budget, Attempts(o, budget, attempt, lastErr, lastRejection, t))
    decreases budget - attempt, 1, 0
  {
    var force := attempt > 0;
    var route := o.prepare(t, force);
    var e := Prepared(force, route);
    var u := t + [e];
    assert u[..|t|] == t;
    Snoc(o, t, e);
    CountsSnoc(t, e);
    if route.Success? && route.value != [] {
      HostsAccounted(o, budget, attempt, route.value, lastErr, lastRejection, u, |t|);
    }
  }

  lemma {:induction false} HostsAccounted(o: Oracle, budget: nat, attempt: nat, requests: seq<Request>,
                                          lastErr: Option<Cause>, lastRejection: Option<Cause>, t: Trace, p: nat)
    requires attempt <= budget && MidRoute(o, attempt, requests, lastErr, t, p)
    ensures Accounted(o, budget, Hosts(o, budget, attempt, requests, lastErr, lastRejection, t))
    decreases budget - attempt, 0, |requests|
  {
    if requests == [] {
      RouteExhausted(o, budget, attempt, lastErr, t, p);
      return;
    }
    var e := Executed(requests[0], o.respond(t, requests[0]));
    var d := Delivered(e.response);
    RejectionIff(e.response);
    if d.Success? || (IsRejection(d.error) && attempt == budget) {
      EndsAtHost(o, budget, requests, lastErr, attempt, t, p, e);
    } else if !IsRejection(d.error) {
      HostFailed(o, attempt, requests, lastErr, t, p, e);
      HostsAccounted(o, budget, attempt, requests[1..], Some(IntoCause(d.error)), lastRejection, t + [e], p);
    } else {
      NextHost(o, attempt, requests, lastErr, t, p, e);
      AfterRejection(o, t + [e]);
      AttemptsAccounted(o, budget, attempt + 1, lastErr, Some(IntoCause(d.error)), t + [e] + [Invalidated]);
    }
  }

  /**
    Every download's calls follow the retry grammar with genuine answers: the first prepare
    is unforced and all later ones forced, each attempt executes an in-order prefix of its
    route, refreshes match invalidations and stay within the budget, and the result means
    what its last call says.
   */
  lemma RetryAccounting(o: Oracle, budget: nat)
    ensures Accounted(o, budget, Download(o, budget))
  {
    AttemptsAccounted(o, budget, 0, None, None, []);
  }

  /** `NoHosts` is returned exactly when the first route is empty. */
  lemma NoHostsExactly(o: Oracle, budget: nat)
    ensures Download(o, budget).result == Failure(NoHosts) <==> o.prepare([], false) == Success([])
  {
    RetryAccounting(o, budget);
    var out := Download(o, budget);
    assert Placed(o, out.trace, 0);
    assert out.trace[..0] == [];
  }

  /** An empty refreshed route keeps the rejection that triggered the refresh. */
  lemma EmptyRefreshKeepsRejection(o: Oracle, budget: nat)
    ensures var out := Download(o, budget); var n := |out.trace|;
            n > 0 && out.trace[n - 1] == Prepared(true, Success([])) ==>
              n >= 4 && out.trace[n - 3].Executed? && Rejected(out.trace[n - 3].response)
              && out.result == Failure(NoHostsAfterRefresh(HttpStatus(out.trace[n - 3].response.status)))
  {
    RetryAccounting(o, budget);
    var t := Download(o, budget).trace;
    if |t| == 3 {
      assert Placed(o, t, 0);
    }
  }

  /**
    A download succeeds exactly when its last call is answered with a status below 300 and a
    body that authenticated, and its bytes are then that body's chunks end to end.
   */
  lemma SucceedsExactly(o: Oracle, budget: nat)
    ensures var out := Download(o, budget);
            && out.trace != []
            && var last := out.trace[|out.trace| - 1];
               && (out.result.Success? <==>
                     last.Executed? && last.response.Answer? && last.response.status < 300 && last.response.verdict == None)
               && (out.result.Success? ==> EndToEnd(last.response.chunks, out.result.value))
  {
    RetryAccounting(o, budget);
  }

  /** Consecutive executions serve consecutive hosts of one route. */
  lemma SameRoute(t: Trace, p: nat, q: nat, i: nat)
    requires Serves(t, p, i) && Serves(t, q, i + 1)
    ensures p == q
  {
    assert q != i && !(p < q < i) && !(q < p < i);
  }

  /**
    A host that was lost or unreachable, or whose answer failed with `cause`, other than by a
    rejection, is followed by the next host of its route; if it was the last one, the download
    fails with that cause. It never causes an invalidation.
   */
  lemma FailedHostMovesOn(o: Oracle, budget: nat, i: nat, cause: Cause) returns (p: nat)
    requires var t := Download(o, budget).trace;
             && i < |t| && t[i].Executed?
             && match t[i].response
                case Lost(c) => cause == c
                case Unreachable(c) => cause == c
                case Answer(status, _, verdict) =>
                  if status < 300 then verdict == Some(cause)
                  else status !in {401, 403, 404, 410} && cause == HttpStatus(status)
    ensures var out := Download(o, budget); var t := out.trace;
            && Serves(t, p, i)
            && if i + 1 < |t| then Serves(t, p, i + 1)
               else i - p == |t[p].route.value| && out.result == Failure(Other(cause))
  {
    RetryAccounting(o, budget);
    var out := Download(o, budget);
    var t := out.trace;
    assert Placed(o, t, i);
    if i + 1 < |t| {
      assert Follows(t, i);
      assert Placed(o, t, i + 1);
      p :| Serves(t, p, i);
      var q: nat :| Serves(t, q, i + 1);
      SameRoute(t, p, q, i);
    } else {
      p :| Serves(t, p, i) && |t[p].route.value| == i - p;
    }
  }

  /**
    A rejection (401, 403, 404 or 410) is followed by an invalidation and a forced prepare; one
    that ends the download does so with the budget used up and the rejection as its failure.
   */
  lemma RejectionRefreshes(o: Oracle, budget: nat, i: nat)
    requires var t := Download(o, budget).trace;
             i < |t| && t[i].Executed? && t[i].response.Answer? && t[i].response.status in {401, 403, 404, 410}
    ensures var out := Download(o, budget); var t := out.trace; var status := t[i].response.status;
            if i + 1 < |t| then i + 2 < |t| && t[i + 1].Invalidated? && t[i + 2].Prepared? && t[i + 2].force
            else Refreshes(t) == budget
                 && out.result ==
                      Failure(if status in {401, 403} then Auth(HttpStatus(status)) else NotFound(HttpStatus(status)))
  {
    RetryAccounting(o, budget);
    var t := Download(o, budget).trace;
    if i + 1 < |t| {
      assert Follows(t, i);
      if i + 2 < |t| {
        assert Follows(t, i + 1);
        assert Placed(o, t, i + 2);
      }
    }
  }

  /** Without a static URL, the first rejection is met with a refresh, and there is only one. */
  lemma RefreshedOnce(o: Oracle, i: nat)
    requires var t := Download(o, ClientRefreshBudget(false)).trace;
             && i < |t| && t[i].Executed? && t[i].response.Answer? && t[i].response.status in {401, 403, 404, 410}
             && forall k :: 0 <= k < i ==> !t[k].Invalidated?
    ensures var t := Download(o, ClientRefreshBudget(false)).trace;
            && i + 2 < |t| && t[i + 1].Invalidated? && t[i + 2].Prepared? && t[i + 2].force
            && forall k :: 0 <= k < |t| && k != i + 1 ==> !t[k].Invalidated?
  {
    var t := Download(o, ClientRefreshBudget(false)).trace;
    RetryAccounting(o, ClientRefreshBudget(false));
    RejectionRefreshes(o, ClientRefreshBudget(false), i);
    if i + 1 == |t| {
      SomeInvalidation(t);
    }
    forall k | 0 <= k < |t| && k != i + 1 ensures !t[k].Invalidated? {
      if k > i + 1 && t[k].Invalidated? {
        TwoInvalidations(t, i + 1, k);
      }
    }
  }

  lemma {:induction false} SomeInvalidation(t: Trace)
    requires Invalidations(t) > 0
    ensures exists k :: 0 <= k < |t| && t[k].Invalidated?
    decreases |t|
  {
    var n := |t| - 1;
    if !t[n].Invalidated? {
      SomeInvalidation(t[..n]);
      var k :| 0 <= k < n && t[..n][k].Invalidated?;
      assert t[k].Invalidated?;
    }
  }

  lemma {:induction false} CountsOne(t: Trace, i: nat)
    requires i < |t| && t[i].Invalidated?
    ensures Invalidations(t) >= 1
    decreases |t|
  {
    var n := |t| - 1;
    if i < n {
      assert t[..n][i] == t[i];
      CountsOne(t[..n], i);
    }
  }

  lemma {:induction false} TwoInvalidations(t: Trace, i: nat, j: nat)
    requires i < j < |t| && t[i].Invalidated? && t[j].Invalidated?
    ensures Invalidations(t) >= 2
    decreases |t|
  {
    var n := |t| - 1;
    assert t[..n][i] == t[i];
    if j < n {
      assert t[..n][j] == t[j];
      TwoInvalidations(t[..n], i, j);
    } else {
      CountsOne(t[..n], i);
    }
  }

  /** A media reference with a static URL is never refreshed. */
  lemma StaticUrlNeverRefreshes(o: Oracle)
    ensures forall i :: 0 <= i < |Download(o, ClientRefreshBudget(true)).trace| ==>
              !Download(o, ClientRefreshBudget(true)).trace[i].Invalidated?
  {
    RetryAccounting(o, 0);
    NoInvalidation(Download(o, 0).trace);
  }

  lemma {:induction false} NoInvalidation(t: Trace)
    requires Invalidations(t) == 0
    ensures forall i :: 0 <= i < |t| ==> !t[i].Invalidated?
  {
    if t != [] {
      NoInvalidation(t[..|t| - 1]);
      assert forall i :: 0 <= i < |t| - 1 ==> t[i] == t[..|t| - 1][i];
    }
  }
}
