/**
  Retry-receipt quarantine (examples/retry_quarantine.rs): a lazily refilled token bucket
  per (chat, requester) pair behind a capped map. Instants are seconds and `f64` is `real`.
  The clock is sampled before the lock, so the instants a bucket sees need not be in order.
 */
module Quarantine {
  import opened Common

  type Instant = real
  type Key = (string, string)

  datatype Bucket = Bucket(tokens: real, lastRefill: Instant)

  function RealMin(a: real, b: real): real {
    if a <= b then a else b
  }

  /** `saturating_duration_since`: never negative. */
  function Elapsed(now: Instant, since: Instant): real {
    if now >= since then now - since else 0.0
  }

  /** A daily refill in tokens per second. */
  function PerSecond(refillPerDay: nat): real {
    refillPerDay as real / 86_400.0
  }

  /** What a bucket earns up to `now`. */
  function Accrued(now: Instant, since: Instant, refill: real): real {
    Elapsed(now, since) * refill
  }

  /** The tokens a call meets. */
  function Topped(b: Bucket, now: Instant, burst: real, refill: real): real {
    RealMin(b.tokens + Accrued(now, b.lastRefill, refill), burst)
  }

  /** The bucket after a call, and whether the call was admitted. */
  function Take(b: Bucket, now: Instant, burst: real, refill: real): (Bucket, bool) {
    var tokens := Topped(b, now, burst, refill);
    if tokens >= 1.0 then (Bucket(tokens - 1.0, now), true) else (Bucket(tokens, now), false)
  }

  class TokenBucket {
    var tokens: real
    var lastRefill: Instant

    ghost function View(): Bucket
      reads this
    {
      Bucket(tokens, lastRefill)
    }

    constructor (initial: real, now: Instant)
      ensures View() == Bucket(initial, now)
    {
      tokens, lastRefill := initial, now;
    }

    method TryTake(now: Instant, burst: real, refill: real) returns (admitted: bool)
      modifies this
      ensures View() == Take(old(View()), now, burst, refill).0
      ensures admitted == Take(old(View()), now, burst, refill).1
    {
      var elapsed := Elapsed(now, lastRefill);
      tokens := RealMin(tokens + elapsed * refill, burst);
      lastRefill := now;
      if tokens >= 1.0 {
        tokens := tokens - 1.0;
        admitted := true;
      } else {
        admitted := false;
      }
    }
  }

  // ------------------------------------------------------------------
  // One bucket over any run of calls
  // ------------------------------------------------------------------

  function BucketAfter(b: Bucket, nows: seq<Instant>, burst: real, refill: real): Bucket {
    if nows == [] then b
    else var n := |nows| - 1; Take(BucketAfter(b, nows[..n], burst, refill), nows[n], burst, refill).0
  }

  function Decisions(b: Bucket, nows: seq<Instant>, burst: real, refill: real): seq<bool> {
    if nows == [] then []
    else var n := |nows| - 1;
         Decisions(b, nows[..n], burst, refill) + [Take(BucketAfter(b, nows[..n], burst, refill), nows[n], burst, refill).1]
  }

  /** How often a value occurs among decisions. */
  function Tally(decisions: seq<bool>, which: bool): nat {
    if decisions == [] then 0
    else var n := |decisions| - 1; Tally(decisions[..n], which) + (if decisions[n] == which then 1 else 0)
  }

  /** How many of the calls are admitted. */
  function Admitted(b: Bucket, nows: seq<Instant>, burst: real, refill: real): nat {
    Tally(Decisions(b, nows, burst, refill), true)
  }

  lemma TallySnoc(decisions: seq<bool>, d: bool, which: bool)
    ensures Tally(decisions + [d], which) == Tally(decisions, which) + (if d == which then 1 else 0)
  {
    assert (decisions + [d])[..|decisions|] == decisions;
  }

  /** The instant before call `k`. */
  function Before(start: Instant, nows: seq<Instant>, k: nat): Instant
    requires k <= |nows|
  {
    if k == 0 then start else nows[k - 1]
  }

  function Last(start: Instant, nows: seq<Instant>): Instant {
    Before(start, nows, |nows|)
  }

  /** The sum of the forward steps of the clock as the bucket sees it. */
  function Forward(start: Instant, nows: seq<Instant>): real {
    if nows == [] then 0.0
    else var n := |nows| - 1; Forward(start, nows[..n]) + Elapsed(nows[n], Before(start, nows, n))
  }

  /** What those steps earn. */
  function Earned(start: Instant, nows: seq<Instant>, refill: real): real {
    if nows == [] then 0.0
    else var n := |nows| - 1; Earned(start, nows[..n], refill) + Accrued(nows[n], Before(start, nows, n), refill)
  }

  lemma AccruedSign(now: Instant, since: Instant, refill: real)
    requires refill >= 0.0
    ensures Accrued(now, since, refill) >= 0.0
  {
  }

  /** One more call. */
  lemma RunSnoc(b: Bucket, nows: seq<Instant>, now: Instant, burst: real, refill: real)
    ensures BucketAfter(b, nows, burst, refill).lastRefill == Last(b.lastRefill, nows)
    ensures var mid := BucketAfter(b, nows, burst, refill);
            && BucketAfter(b, nows + [now], burst, refill) == Take(mid, now, burst, refill).0
            && Admitted(b, nows + [now], burst, refill) ==
                 Admitted(b, nows, burst, refill) + (if Take(mid, now, burst, refill).1 then 1 else 0)
  {
    assert (nows + [now])[..|nows|] == nows;
    TallySnoc(Decisions(b, nows, burst, refill), Take(BucketAfter(b, nows, burst, refill), now, burst, refill).1, true);
  }

  lemma ClockSnoc(start: Instant, nows: seq<Instant>, now: Instant, refill: real)
    ensures Forward(start, nows + [now]) == Forward(start, nows) + Elapsed(now, Last(start, nows))
    ensures Earned(start, nows + [now], refill) == Earned(start, nows, refill) + Accrued(now, Last(start, nows), refill)
  {
    assert (nows + [now])[..|nows|] == nows;
  }

  /** What a bucket admits and still holds is never more than it held and earned; it holds 0 to burst. */
  lemma {:induction false} BucketAccount(b: Bucket, nows: seq<Instant>, burst: real, refill: real)
    requires 0.0 <= b.tokens <= burst && refill >= 0.0
    ensures 0.0 <= BucketAfter(b, nows, burst, refill).tokens <= burst
    ensures Admitted(b, nows, burst, refill) as real + BucketAfter(b, nows, burst, refill).tokens
         <= b.tokens + Earned(b.lastRefill, nows, refill)
    decreases |nows|
  {
    if nows != [] {
      var n := |nows| - 1;
      var front := nows[..n];
      assert nows == front + [nows[n]];
      BucketAccount(b, front, burst, refill);
      RunSnoc(b, front, nows[n], burst, refill);
      ClockSnoc(b.lastRefill, front, nows[n], refill);
      AccruedSign(nows[n], Last(b.lastRefill, front), refill);
    }
  }

  lemma Distributes(r: real, x: real, y: real)
    ensures r * (x + y) == r * x + r * y && x * r == r * x
  {
  }

  lemma {:induction false} EarnedForward(start: Instant, nows: seq<Instant>, refill: real)
    ensures Earned(start, nows, refill) == refill * Forward(start, nows)
    decreases |nows|
  {
    if nows != [] {
      var n := |nows| - 1;
      EarnedForward(start, nows[..n], refill);
      Distributes(refill, Forward(start, nows[..n]), Elapsed(nows[n], Before(start, nows, n)));
      Distributes(refill, Elapsed(nows[n], Before(start, nows, n)), 0.0);
    }
  }

  lemma EarnedOver(start: Instant, nows: seq<Instant>, refill: real, span: real)
    requires span == Forward(start, nows)
    ensures Earned(start, nows, refill) == refill * span
  {
    EarnedForward(start, nows, refill);
  }

  lemma BoundFrom(b: Bucket, nows: seq<Instant>, burst: real, refill: real, limit: real)
    requires 0.0 <= b.tokens <= burst && refill >= 0.0 && Earned(b.lastRefill, nows, refill) == limit
    ensures Admitted(b, nows, burst, refill) as real <= burst + limit
  {
    BucketAccount(b, nows, burst, refill);
  }

  /**
    The bucket's bound: whatever order the instants come in, the admitted calls are at most
    the burst plus the refill over the sum of the clock's forward steps.
   */
  lemma BucketBound(b: Bucket, nows: seq<Instant>, burst: real, refill: real, span: real)
    requires 0.0 <= b.tokens <= burst && refill >= 0.0 && span == Forward(b.lastRefill, nows)
    ensures Admitted(b, nows, burst, refill) as real <= burst + refill * span
  {
    EarnedOver(b.lastRefill, nows, refill, span);
    BoundFrom(b, nows, burst, refill, refill * span);
  }

  predicate Monotone(start: Instant, nows: seq<Instant>) {
    forall k: nat :: k < |nows| ==> nows[k] >= Before(start, nows, k)
  }

  lemma MonotoneSnoc(start: Instant, nows: seq<Instant>, n: nat)
    requires |nows| == n + 1
    ensures Monotone(start, nows) <==> Monotone(start, nows[..n]) && nows[n] >= Before(start, nows, n)
  {
    assert forall k: nat :: k < n ==> nows[..n][k] == nows[k] && Before(start, nows[..n], k) == Before(start, nows, k);
  }

  /** Forward steps add up to the elapsed time exactly when the clock never goes back. */
  lemma {:induction false} ForwardIsElapsed(start: Instant, nows: seq<Instant>)
    ensures Forward(start, nows) >= Last(start, nows) - start
    ensures Forward(start, nows) == Last(start, nows) - start <==> Monotone(start, nows)
    decreases |nows|
  {
    if nows != [] {
      var n := |nows| - 1;
      ForwardIsElapsed(start, nows[..n]);
      MonotoneSnoc(start, nows, n);
    }
  }

  /** With a clock that never goes back, at most burst + refill * elapsed calls are admitted. */
  lemma MonotoneBound(b: Bucket, nows: seq<Instant>, burst: real, refill: real, elapsed: real)
    requires 0.0 <= b.tokens <= burst && refill >= 0.0
    requires Monotone(b.lastRefill, nows) && elapsed == Last(b.lastRefill, nows) - b.lastRefill
    ensures Admitted(b, nows, burst, refill) as real <= burst + refill * elapsed
  {
    ForwardIsElapsed(b.lastRefill, nows);
    BucketBound(b, nows, burst, refill, elapsed);
  }

  // ------------------------------------------------------------------
  // Exactly when the elapsed time bounds the admissions
  // ------------------------------------------------------------------

  function Repeat<T>(value: T, count: nat): seq<T> {
    seq(count, _ => value)
  }

  /** Some positive number of calls at each reading of the clock. */
  predicate Positive(counts: seq<nat>) {
    forall k :: 0 <= k < |counts| ==> counts[k] > 0
  }

  function Sampled(clock: seq<Instant>, counts: seq<nat>): seq<Instant>
    requires |counts| == |clock|
  {
    if clock == [] then []
    else var n := |clock| - 1; Sampled(clock[..n], counts[..n]) + Repeat(clock[n], counts[n])
  }

  lemma RepeatSnoc(nows: seq<Instant>, now: Instant, count: nat)
    ensures nows + Repeat(now, count + 1) == nows + Repeat(now, count) + [now]
  {
  }

  /** Calls at one reading move the clock once. */
  lemma {:induction false} RepeatMovesOnce(start: Instant, nows: seq<Instant>, now: Instant, count: nat)
    requires count > 0
    ensures Last(start, nows + Repeat(now, count)) == now
    ensures Forward(start, nows + Repeat(now, count)) == Forward(start, nows) + Elapsed(now, Last(start, nows))
    decreases count
  {
    RepeatSnoc(nows, now, count - 1);
    ClockSnoc(start, nows + Repeat(now, count - 1), now, 0.0);
    if count > 1 {
      RepeatMovesOnce(start, nows, now, count - 1);
    } else {
      assert nows + Repeat(now, 0) == nows;
    }
  }

  lemma {:induction false} SampledForward(start: Instant, clock: seq<Instant>, counts: seq<nat>)
    requires |counts| == |clock| && Positive(counts)
    ensures Last(start, Sampled(clock, counts)) == Last(start, clock)
    ensures Forward(start, Sampled(clock, counts)) == Forward(start, clock)
    decreases |clock|
  {
    if clock != [] {
      var n := |clock| - 1;
      SampledForward(start, clock[..n], counts[..n]);
      RepeatMovesOnce(start, Sampled(clock[..n], counts[..n]), clock[n], counts[n]);
    }
  }

  /** At the instant of its last refill a bucket earns nothing. */
  lemma SameInstant(b: Bucket, burst: real, refill: real)
    requires b.tokens <= burst
    ensures Topped(b, b.lastRefill, burst, refill) == b.tokens
  {
  }

  /** One call admits a whole token if there is one. */
  lemma TakeOne(b: Bucket, now: Instant, burst: real, refill: real)
    ensures var top := Topped(b, now, burst, refill); var (next, admitted) := Take(b, now, burst, refill);
            && next.lastRefill == now && (admitted <==> top >= 1.0)
            && next.tokens == if admitted then top - 1.0 else top
  {
  }

  lemma ToppedRange(b: Bucket, now: Instant, burst: real, refill: real)
    requires b.tokens >= 0.0 && burst >= 0.0 && refill >= 0.0
    ensures 0.0 <= Topped(b, now, burst, refill) <= burst
  {
    AccruedSign(now, b.lastRefill, refill);
  }

  /** Repeated calls at one reading admit all whole tokens there are, and then none. */
  lemma {:induction false} RepeatDrains(b: Bucket, nows: seq<Instant>, now: Instant, count: nat,
                                        burst: real, refill: real)
    requires count > 0 && BucketAfter(b, nows, burst, refill).tokens >= 0.0 && burst >= 0.0 && refill >= 0.0
    ensures var mid := BucketAfter(b, nows, burst, refill);
            var end := BucketAfter(b, nows + Repeat(now, count), burst, refill);
            var admitted := Admitted(b, nows + Repeat(now, count), burst, refill) - Admitted(b, nows, burst, refill);
            && end.lastRefill == now && 0.0 <= end.tokens <= burst
            && admitted as real + end.tokens == Topped(mid, now, burst, refill)
            && (end.tokens < 1.0 || admitted == count)
    decreases count
  {
    var front := nows + Repeat(now, count - 1);
    RepeatSnoc(nows, now, count - 1);
    RunSnoc(b, front, now, burst, refill);
    TakeOne(BucketAfter(b, front, burst, refill), now, burst, refill);
    if count > 1 {
      RepeatDrains(b, nows, now, count - 1, burst, refill);
      SameInstant(BucketAfter(b, front, burst, refill), burst, refill);
    } else {
      assert front == nows;
      ToppedRange(BucketAfter(b, nows, burst, refill), now, burst, refill);
    }
  }

  /** Called often enough at each reading, a bucket that never overflows admits all it earns but a fraction of a token. */
  lemma {:induction false} SampledDrains(clock: seq<Instant>, burst: nat, refill: real)
    requires clock != [] && refill >= 0.0 && Earned(clock[0], clock, refill) + 1.0 <= burst as real
    ensures var b := Bucket(burst as real, clock[0]);
            var nows := Sampled(clock, Repeat(burst, |clock|));
            var end := BucketAfter(b, nows, burst as real, refill);
            && end.lastRefill == clock[|clock| - 1] && 0.0 <= end.tokens < 1.0
            && Admitted(b, nows, burst as real, refill) as real + end.tokens == burst as real + Earned(clock[0], clock, refill)
    decreases |clock|
  {
    var n := |clock| - 1;
    var front := clock[..n];
    var b := Bucket(burst as real, clock[0]);
    var nows := Sampled(front, Repeat(burst, n));
    assert Repeat(burst, n + 1)[..n] == Repeat(burst, n);
    AccruedSign(clock[n], Before(clock[0], clock, n), refill);
    if n > 0 {
      EarnedSign(clock[0], front, refill);
      SampledDrains(front, burst, refill);
    }
    RepeatDrains(b, nows, clock[n], burst, burst as real, refill);
  }

  lemma {:induction false} EarnedSign(start: Instant, nows: seq<Instant>, refill: real)
    requires refill >= 0.0
    ensures Earned(start, nows, refill) >= 0.0
    decreases |nows|
  {
    if nows != [] {
      var n := |nows| - 1;
      EarnedSign(start, nows[..n], refill);
      AccruedSign(nows[n], Before(start, nows, n), refill);
    }
  }

  /** One pair's admissions from its first call on, when it calls so often at each reading of a clock. */
  function AdmittedAt(clock: seq<Instant>, counts: seq<nat>, burst: nat, refill: real): nat
    requires clock != [] && |counts| == |clock|
  {
    Admitted(Bucket(burst as real, clock[0]), Sampled(clock, counts), burst as real, refill)
  }

  /** At most the burst plus the refill over the elapsed time. */
  predicate WithinElapsed(admitted: nat, burst: nat, refill: real, elapsed: real) {
    admitted as real <= burst as real + refill * elapsed
  }

  /** Whatever the configuration and the number of calls, the elapsed time on this clock bounds the admissions. */
  ghost predicate ElapsedBounds(clock: seq<Instant>)
    requires clock != []
  {
    forall burst: nat, refillPerDay: nat, counts: seq<nat> :: |counts| == |clock| && Positive(counts) ==>
      WithinElapsed(AdmittedAt(clock, counts, burst, PerSecond(refillPerDay)), burst, PerSecond(refillPerDay),
                    clock[|clock| - 1] - clock[0])
  }

  lemma SampledWithin(clock: seq<Instant>, counts: seq<nat>, burst: nat, refill: real, span: real)
    requires clock != [] && |counts| == |clock| && Positive(counts) && refill >= 0.0
    requires span == Forward(clock[0], clock)
    ensures WithinElapsed(AdmittedAt(clock, counts, burst, refill), burst, refill, span)
  {
    SampledForward(clock[0], clock, counts);
    BucketBound(Bucket(burst as real, clock[0]), Sampled(clock, counts), burst as real, refill, span);
  }

  /** A daily refill that earns at least one token in `gap` seconds. */
  lemma EnoughRefill(gap: real) returns (refillPerDay: nat)
    requires gap > 0.0
    ensures PerSecond(refillPerDay) * gap >= 1.0
  {
    var needed := 86_400.0 / gap;
    refillPerDay := needed.Floor + 1;
    assert needed * gap == 86_400.0;
    MoreEarns(needed, refillPerDay as real, gap);
  }

  lemma MoreEarns(a: real, b: real, gap: real)
    requires a <= b && gap >= 0.0
    ensures a * gap <= b * gap && b / 86_400.0 * gap == b * gap / 86_400.0
  {
  }

  /** A burst too large for the bucket to overflow. */
  lemma DrainedAdmits(clock: seq<Instant>, refill: real, earned: real) returns (burst: nat, held: real)
    requires clock != [] && refill >= 0.0 && earned == Earned(clock[0], clock, refill)
    ensures burst > 0 && held < 1.0
    ensures AdmittedAt(clock, Repeat(burst, |clock|), burst, refill) as real + held == burst as real + earned
  {
    EarnedSign(clock[0], clock, refill);
    burst := (earned + 1.0).Floor + 1;
    SampledDrains(clock, burst, refill);
    var nows := Sampled(clock, Repeat(burst, |clock|));
    held := BucketAfter(Bucket(burst as real, clock[0]), nows, burst as real, refill).tokens;
  }

  /** What exceeds the elapsed time by a whole token's worth exceeds the bound. */
  lemma Exceeds(admitted: nat, held: real, burst: nat, refill: real, forward: real, elapsed: real)
    requires held < 1.0 && admitted as real + held == burst as real + refill * forward
    requires refill * (forward - elapsed) >= 1.0
    ensures !WithinElapsed(admitted, burst, refill, elapsed)
  {
    Distributes(refill, forward - elapsed, elapsed);
  }

  lemma BackwardExceeds(clock: seq<Instant>, refill: real, forward: real, elapsed: real) returns (burst: nat)
    requires clock != [] && refill >= 0.0 && forward == Forward(clock[0], clock)
    requires refill * (forward - elapsed) >= 1.0
    ensures burst > 0 && !WithinElapsed(AdmittedAt(clock, Repeat(burst, |clock|), burst, refill), burst, refill, elapsed)
  {
    EarnedOver(clock[0], clock, refill, forward);
    var held;
    burst, held := DrainedAdmits(clock, refill, refill * forward);
    Exceeds(AdmittedAt(clock, Repeat(burst, |clock|), burst, refill), held, burst, refill, forward, elapsed);
  }

  /** The elapsed time bounds the admissions on exactly the clocks that never go back. */
  lemma ElapsedBoundsIffMonotone(clock: seq<Instant>)
    requires clock != []
    ensures ElapsedBounds(clock) <==> Monotone(clock[0], clock)
  {
    var elapsed := clock[|clock| - 1] - clock[0];
    var forward := Forward(clock[0], clock);
    ForwardIsElapsed(clock[0], clock);
    if Monotone(clock[0], clock) {
      forall burst: nat, refillPerDay: nat, counts: seq<nat> | |counts| == |clock| && Positive(counts)
        ensures WithinElapsed(AdmittedAt(clock, counts, burst, PerSecond(refillPerDay)), burst,
                              PerSecond(refillPerDay), elapsed)
      {
        SampledWithin(clock, counts, burst, PerSecond(refillPerDay), elapsed);
      }
    } else {
      var refillPerDay := EnoughRefill(forward - elapsed);
      var burst := BackwardExceeds(clock, PerSecond(refillPerDay), forward, elapsed);
      assert Positive(Repeat(burst, |clock|));
    }
  }

  /** The smallest case: one call before, at and after a step back admit two on a burst of one within no time. */
  lemma OutOfOrderExceedsElapsed(p: Instant, q: Instant)
    requires q < p
    ensures Admitted(Bucket(1.0, p), [p, q, p], 1.0, 1.0 / (p - q)) == 2
  {
    var b, refill := Bucket(1.0, p), 1.0 / (p - q);
    RunSnoc(b, [], p, 1.0, refill);
    RunSnoc(b, [p], q, 1.0, refill);
    RunSnoc(b, [p, q], p, 1.0, refill);
    assert [] + [p] == [p] && [p] + [q] == [p, q] && [p, q] + [p] == [p, q, p];
    SameInstant(b, 1.0, refill);
    assert (p - q) * refill == 1.0;
  }

  // ------------------------------------------------------------------
  // What a bucket holds
  // ------------------------------------------------------------------

  /** What does not fit into the bucket. */
  function Spill(held: real, earned: real, burst: real): real {
    if held + earned > burst then held + earned - burst else 0.0
  }

  /** What ran over, over a run of calls. */
  function Spilled(b: Bucket, nows: seq<Instant>, burst: real, refill: real): real {
    if nows == [] then 0.0
    else
      var n := |nows| - 1;
      var held := BucketAfter(b, nows[..n], burst, refill).tokens;
      Spilled(b, nows[..n], burst, refill) + Spill(held, Accrued(nows[n], Before(b.lastRefill, nows, n), refill), burst)
  }

  lemma ToppedExactly(b: Bucket, now: Instant, burst: real, refill: real, earned: real)
    requires earned == Accrued(now, b.lastRefill, refill)
    ensures Topped(b, now, burst, refill) == b.tokens + earned - Spill(b.tokens, earned, burst)
  {
  }

  /** Conservation: what a bucket admits and still holds is what it held and earned, less what ran over its burst. */
  lemma {:induction false} BucketConserves(b: Bucket, nows: seq<Instant>, burst: real, refill: real)
    ensures Admitted(b, nows, burst, refill) as real + BucketAfter(b, nows, burst, refill).tokens
         == b.tokens + Earned(b.lastRefill, nows, refill) - Spilled(b, nows, burst, refill)
    decreases |nows|
  {
    if nows != [] {
      var n := |nows| - 1;
      var front := nows[..n];
      var mid := BucketAfter(b, front, burst, refill);
      assert nows == front + [nows[n]];
      BucketConserves(b, front, burst, refill);
      RunSnoc(b, front, nows[n], burst, refill);
      ClockSnoc(b.lastRefill, front, nows[n], refill);
      TakeOne(mid, nows[n], burst, refill);
      ToppedExactly(mid, nows[n], burst, refill, Accrued(nows[n], mid.lastRefill, refill));
    }
  }

  lemma {:induction false} DecisionPerCall(b: Bucket, nows: seq<Instant>, burst: real, refill: real)
    ensures |Decisions(b, nows, burst, refill)| == |nows|
    decreases |nows|
  {
    if nows != [] {
      DecisionPerCall(b, nows[..|nows| - 1], burst, refill);
    }
  }

  lemma {:induction false} AllAdmitted(decisions: seq<bool>)
    ensures Tally(decisions, true) <= |decisions|
    ensures Tally(decisions, true) == |decisions| ==> decisions == Repeat(true, |decisions|)
    decreases |decisions|
  {
    if decisions != [] {
      var n := |decisions| - 1;
      AllAdmitted(decisions[..n]);
      assert Tally(decisions, true) == |decisions| ==> decisions == Repeat(true, n) + [true];
    }
  }

  /** A bucket that meets its calls with exactly `whole` tokens admits so many of them and is empty then. */
  lemma WholeAdmitted(b: Bucket, now: Instant, whole: nat, burst: real, refill: real)
    requires whole > 0 && 0.0 <= b.tokens && burst >= 0.0 && refill >= 0.0
    requires Topped(b, now, burst, refill) == whole as real
    ensures Decisions(b, Repeat(now, whole), burst, refill) == Repeat(true, whole)
    ensures BucketAfter(b, Repeat(now, whole), burst, refill) == Bucket(0.0, now)
  {
    var calls := Repeat(now, whole);
    assert [] + calls == calls;
    RepeatDrains(b, [], now, whole, burst, refill);
    DecisionPerCall(b, calls, burst, refill);
    AllAdmitted(Decisions(b, calls, burst, refill));
  }

  /** And refuses the next. */
  lemma WholeTokens(b: Bucket, now: Instant, whole: nat, burst: real, refill: real)
    requires 0.0 <= b.tokens && burst >= 0.0 && refill >= 0.0 && Topped(b, now, burst, refill) == whole as real
    ensures Decisions(b, Repeat(now, whole + 1), burst, refill) == Repeat(true, whole) + [false]
  {
    assert Repeat(now, whole + 1)[..whole] == Repeat(now, whole);
    if whole > 0 {
      WholeAdmitted(b, now, whole, burst, refill);
      SameInstant(Bucket(0.0, now), burst, refill);
    }
  }

  /**
    A full bucket: once what a pair holds and has earned since its last refill reaches the
    burst, the next `burst` calls at that instant are all admitted, and the one after is refused.
   */
  lemma FullBurstAdmitted(b: Bucket, now: Instant, burst: nat, refill: real, earned: real)
    requires 0.0 <= b.tokens <= burst as real && refill >= 0.0
    requires now >= b.lastRefill && earned == (now - b.lastRefill) * refill && b.tokens + earned >= burst as real
    ensures Decisions(b, Repeat(now, burst + 1), burst as real, refill) == Repeat(true, burst) + [false]
  {
    WholeTokens(b, now, burst, burst as real, refill);
  }

  /** A day earns the daily refill: an empty bucket that holds it admits exactly so many calls a day later. */
  lemma DayEarnsRefill(p: Instant, refillPerDay: nat, burst: real)
    requires refillPerDay as real <= burst
    ensures Decisions(Bucket(0.0, p), Repeat(p + 86_400.0, refillPerDay + 1), burst, PerSecond(refillPerDay))
         == Repeat(true, refillPerDay) + [false]
  {
    WholeTokens(Bucket(0.0, p), p + 86_400.0, refillPerDay, burst, PerSecond(refillPerDay));
  }

  /** A pair that stays quiet long enough to earn one token is admitted again. */
  lemma QuietPairRecovers(b: Bucket, now: Instant, burst: real, refill: real)
    requires b.tokens >= 0.0 && burst >= 1.0 && refill >= 0.0
    requires now >= b.lastRefill && (now - b.lastRefill) * refill >= 1.0
    ensures Take(b, now, burst, refill).1
  {
  }

  // ------------------------------------------------------------------
  // The quarantine map
  // ------------------------------------------------------------------

  datatype Config = Config(burst: real, refillPerSec: real, maxPairs: nat)

  datatype State = State(buckets: map<Key, Bucket>, refusedTotal: U64)

  const Empty := State(map[], 0)

  datatype Call = Call(key: Key, now: Instant)

  /** A brand-new pair that finds the map full is not tracked. */
  predicate FailsOpen(c: Config, tracked: set<Key>, key: Key) {
    key !in tracked && |tracked| >= c.maxPairs
  }

  /** The bucket a call meets; a new pair starts with a full one. */
  function Held(c: Config, buckets: map<Key, Bucket>, call: Call): Bucket {
    if call.key in buckets then buckets[call.key] else Bucket(c.burst, call.now)
  }

  function Admit(c: Config, s: State, call: Call): (State, bool) {
    if c.burst == 0.0 || FailsOpen(c, s.buckets.Keys, call.key) then (s, true)
    else
      var (next, admitted) := Take(Held(c, s.buckets, call), call.now, c.burst, c.refillPerSec);
      (State(s.buckets[call.key := next],
             if admitted then s.refusedTotal else WrappingIncrement(s.refusedTotal)),
       admitted)
  }

  lemma UpdateTwice<K, V>(m: map<K, V>, k: K, first: V, second: V)
    ensures m[k := first][k := second] == m[k := second]
  {
  }

  class RetryQuarantine {
    const config: Config
    var buckets: map<Key, TokenBucket>
    var refusedTotal: U64
    ghost var owned: set<TokenBucket>

    /** No two pairs share a bucket. */
    ghost predicate Valid()
      reads this`buckets, this`owned
    {
      && (forall k :: k in buckets ==> buckets[k] in owned)
      && forall j, k :: j in buckets && k in buckets && j != k ==> buckets[j] != buckets[k]
    }

    ghost function Pairs(): map<Key, Bucket>
      requires Valid()
      reads this`buckets, this`owned, owned
    {
      map k | k in buckets :: buckets[k].View()
    }

    ghost function View(): State
      requires Valid()
      reads this, owned
    {
      State(Pairs(), refusedTotal)
    }

    constructor (burst: nat, refillPerDay: nat, maxPairs: nat)
      ensures Valid() && View() == Empty && owned == {}
      ensures config == Config(burst as real, PerSecond(refillPerDay), maxPairs)
    {
      config := Config(burst as real, PerSecond(refillPerDay), maxPairs);
      buckets := map[];
      refusedTotal := 0;
      owned := {};
    }

    /** `entry(key).or_insert_with(..)`: existing buckets are untouched, a new one starts full. */
    method EntryOrNew(call: Call) returns (bucket: TokenBucket)
      requires Valid()
      modifies this`buckets, this`owned
      ensures Valid() && fresh(owned - old(owned))
      ensures call.key in buckets && bucket == buckets[call.key]
      ensures Pairs() == old(Pairs())[call.key := Held(config, old(Pairs()), call)]
    {
      ghost var before := Pairs();
      if call.key !in buckets {
        var created := new TokenBucket(config.burst, call.now);
        buckets := buckets[call.key := created];
        owned := owned + {created};
      }
      bucket := buckets[call.key];
      assert Pairs().Keys == before.Keys + {call.key};
    }

    /** Taking from one pair's bucket changes that pair's entry only. */
    method TakeFrom(call: Call, bucket: TokenBucket) returns (allowed: bool)
      requires Valid() && call.key in buckets && bucket == buckets[call.key]
      modifies bucket
      ensures Valid()
      ensures var held := old(Pairs())[call.key];
              && allowed == Take(held, call.now, config.burst, config.refillPerSec).1
              && Pairs() == old(Pairs())[call.key := Take(held, call.now, config.burst, config.refillPerSec).0]
    {
      ghost var before := Pairs();
      assert before[call.key] == bucket.View();
      allowed := bucket.TryTake(call.now, config.burst, config.refillPerSec);
      assert Pairs().Keys == before.Keys;
    }

    /** Look up or create the pair's bucket and take from it. */
    method TakeTracked(call: Call) returns (allowed: bool)
      requires Valid()
      modifies this`buckets, this`owned, owned
      ensures Valid() && fresh(owned - old(owned))
      ensures var held := Held(config, old(Pairs()), call);
              && allowed == Take(held, call.now, config.burst, config.refillPerSec).1
              && Pairs() == old(Pairs())[call.key := Take(held, call.now, config.burst, config.refillPerSec).0]
    {
      ghost var before := Pairs();
      var bucket := EntryOrNew(call);
      ghost var held := Pairs()[call.key];
      allowed := TakeFrom(call, bucket);
      UpdateTwice(before, call.key, held, Pairs()[call.key]);
    }

    method AdmitCall(call: Call) returns (allowed: bool)
      requires Valid()
      modifies this, owned
      ensures Valid() && fresh(owned - old(owned))
      ensures View() == Admit(config, old(View()), call).0
      ensures allowed == Admit(config, old(View()), call).1
    {
      assert Pairs().Keys == buckets.Keys;
      if config.burst == 0.0 {
        return true;
      }
      if call.key !in buckets && |buckets.Keys| >= config.maxPairs {
        return true;
      }
      allowed := TakeTracked(call);
      if !allowed {
        refusedTotal := WrappingIncrement(refusedTotal);
      }
    }
  }
}
