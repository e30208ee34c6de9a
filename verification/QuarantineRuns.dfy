/**
  The quarantine map refines independent buckets (examples/retry_quarantine.rs): over any
  interleaving of calls, a tracked pair is judged as if its bucket were the only one.
 */
module QuarantineRuns {
  import opened Common
  import opened Quarantine

  /** The state after a sequence of calls, and the verdicts it gave. */
  function StateAfter(c: Config, s: State, calls: seq<Call>): State {
    if calls == [] then s
    else var n := |calls| - 1; Admit(c, StateAfter(c, s, calls[..n]), calls[n]).0
  }

  function Verdicts(c: Config, s: State, calls: seq<Call>): seq<bool> {
    if calls == [] then []
    else var n := |calls| - 1; Verdicts(c, s, calls[..n]) + [Admit(c, StateAfter(c, s, calls[..n]), calls[n]).1]
  }

  lemma {:induction false} VerdictPerCall(c: Config, s: State, calls: seq<Call>)
    ensures |Verdicts(c, s, calls)| == |calls|
    decreases |calls|
  {
    if calls != [] {
      VerdictPerCall(c, s, calls[..|calls| - 1]);
    }
  }

  /** The instants of one pair's calls, and the verdicts on them. */
  function NowsOf(calls: seq<Call>, key: Key): seq<Instant> {
    if calls == [] then []
    else var n := |calls| - 1;
         if calls[n].key == key then NowsOf(calls[..n], key) + [calls[n].now] else NowsOf(calls[..n], key)
  }

  function VerdictsOf(calls: seq<Call>, verdicts: seq<bool>, key: Key): seq<bool>
    requires |verdicts| == |calls|
  {
    if calls == [] then []
    else var n := |calls| - 1;
         if calls[n].key == key then VerdictsOf(calls[..n], verdicts[..n], key) + [verdicts[n]]
         else VerdictsOf(calls[..n], verdicts[..n], key)
  }

  predicate AllTrue(s: seq<bool>) {
    forall k :: 0 <= k < |s| ==> s[k]
  }

  /** The bucket a pair's calls start from: the one it has, or a full one at its first call. */
  function StartBucket(c: Config, s: State, key: Key, nows: seq<Instant>): Bucket {
    if key in s.buckets then s.buckets[key] else Bucket(c.burst, if nows == [] then 0.0 else nows[0])
  }

  /** What the verdicts on one pair amount to, between two states. */
  ghost predicate JudgedAlone(c: Config, from: State, to: State, key: Key, nows: seq<Instant>, verdicts: seq<bool>) {
    |nows| == |verdicts| &&
    if key in to.buckets then
      var start := StartBucket(c, from, key, nows);
      && (key in from.buckets || nows != [])
      && verdicts == Decisions(start, nows, c.burst, c.refillPerSec)
      && to.buckets[key] == BucketAfter(start, nows, c.burst, c.refillPerSec)
    else
      key !in from.buckets && AllTrue(verdicts) && (nows != [] ==> |to.buckets.Keys| >= c.maxPairs)
  }

  /** A call on another pair leaves a pair's bucket, and whether it is tracked, alone. */
  lemma OtherPairUntouched(c: Config, s: State, call: Call, key: Key)
    requires call.key != key
    ensures var t := Admit(c, s, call).0;
            (key in t.buckets <==> key in s.buckets) && (key in s.buckets ==> t.buckets[key] == s.buckets[key])
  {
  }

  /** Pairs are never forgotten, and new ones are taken in only below the cap. */
  lemma TrackedSetGrows(c: Config, s: State, call: Call)
    ensures var t := Admit(c, s, call).0;
            && s.buckets.Keys <= t.buckets.Keys && |s.buckets.Keys| <= |t.buckets.Keys|
            && (|s.buckets.Keys| <= c.maxPairs ==> |t.buckets.Keys| <= c.maxPairs)
  {
    var t := Admit(c, s, call).0;
    if t != s {
      assert t.buckets.Keys == s.buckets.Keys + {call.key};
    }
  }

  lemma OwnCall(c: Config, from: State, s: State, call: Call, nows: seq<Instant>, verdicts: seq<bool>)
    requires c.burst != 0.0 && JudgedAlone(c, from, s, call.key, nows, verdicts)
    ensures JudgedAlone(c, from, Admit(c, s, call).0, call.key, nows + [call.now], verdicts + [Admit(c, s, call).1])
  {
    var after := nows + [call.now];
    assert after[..|nows|] == nows;
    if call.key !in s.buckets && !FailsOpen(c, s.buckets.Keys, call.key) {
      assert nows == [] && verdicts == Decisions(Bucket(c.burst, call.now), nows, c.burst, c.refillPerSec);
    }
  }

  /**
    For every interleaved call sequence from any state: the verdicts on a tracked pair are
    those of a single bucket run on that pair's calls alone, and an untracked pair is always
    admitted.
   */
  lemma {:induction false} MapRefinesBuckets(c: Config, from: State, calls: seq<Call>, key: Key)
    requires c.burst != 0.0
    ensures |Verdicts(c, from, calls)| == |calls|
    ensures JudgedAlone(c, from, StateAfter(c, from, calls), key,
                        NowsOf(calls, key), VerdictsOf(calls, Verdicts(c, from, calls), key))
    decreases |calls|
  {
    VerdictPerCall(c, from, calls);
    if calls != [] {
      var n := |calls| - 1;
      MapRefinesBuckets(c, from, calls[..n], key);
      var s := StateAfter(c, from, calls[..n]);
      assert Verdicts(c, from, calls)[..n] == Verdicts(c, from, calls[..n]);
      TrackedSetGrows(c, s, calls[n]);
      if calls[n].key == key {
        OwnCall(c, from, s, calls[n], NowsOf(calls[..n], key), VerdictsOf(calls[..n], Verdicts(c, from, calls[..n]), key));
      } else {
        OtherPairUntouched(c, s, calls[n], key);
      }
    }
  }

  lemma IncrementCounts(n: nat)
    ensures WrappingIncrement(n % U64_SIZE) == (n + 1) % U64_SIZE
  {
  }

  /** The tracked set stays within the cap, and the refusal counter counts the refusals, modulo its width. */
  lemma {:induction false} CapAndRefusals(c: Config, calls: seq<Call>)
    ensures |StateAfter(c, Empty, calls).buckets.Keys| <= c.maxPairs
    ensures StateAfter(c, Empty, calls).refusedTotal == Tally(Verdicts(c, Empty, calls), false) % U64_SIZE
    decreases |calls|
  {
    if calls != [] {
      var n := |calls| - 1;
      CapAndRefusals(c, calls[..n]);
      var s := StateAfter(c, Empty, calls[..n]);
      IncrementCounts(Tally(Verdicts(c, Empty, calls[..n]), false));
      TrackedSetGrows(c, s, calls[n]);
      TallySnoc(Verdicts(c, Empty, calls[..n]), Admit(c, s, calls[n]).1, false);
    }
  }

  /** A burst of zero disables the quarantine. */
  lemma {:induction false} ZeroBurstDisables(c: Config, calls: seq<Call>)
    requires c.burst == 0.0
    ensures StateAfter(c, Empty, calls) == Empty && AllTrue(Verdicts(c, Empty, calls))
    decreases |calls|
  {
    if calls != [] {
      ZeroBurstDisables(c, calls[..|calls| - 1]);
    }
  }

  // ------------------------------------------------------------------
  // One pair in any window of calls
  // ------------------------------------------------------------------

  /** A window's verdicts are those the whole history gives on its calls. */
  lemma {:induction false} WindowVerdicts(c: Config, s: State, before: seq<Call>, window: seq<Call>)
    ensures StateAfter(c, s, before + window) == StateAfter(c, StateAfter(c, s, before), window)
    ensures Verdicts(c, s, before + window) == Verdicts(c, s, before) + Verdicts(c, StateAfter(c, s, before), window)
    decreases |window|
  {
    if window == [] {
      assert before + window == before;
    } else {
      var n := |window| - 1;
      assert (before + window)[..|before| + n] == before + window[..n];
      WindowVerdicts(c, s, before, window[..n]);
    }
  }

  /** In every state a quarantine reaches, a tracked pair holds 0 to burst tokens. */
  lemma ReachedBucket(c: Config, calls: seq<Call>, key: Key)
    requires c.burst > 0.0 && c.refillPerSec >= 0.0 && key in StateAfter(c, Empty, calls).buckets
    ensures 0.0 <= StateAfter(c, Empty, calls).buckets[key].tokens <= c.burst
  {
    MapRefinesBuckets(c, Empty, calls, key);
    BucketAccount(StartBucket(c, Empty, key, NowsOf(calls, key)), NowsOf(calls, key), c.burst, c.refillPerSec);
  }

  lemma StartInRange(c: Config, before: seq<Call>, key: Key, nows: seq<Instant>)
    requires c.burst > 0.0 && c.refillPerSec >= 0.0
    ensures 0.0 <= StartBucket(c, StateAfter(c, Empty, before), key, nows).tokens <= c.burst
  {
    if key in StateAfter(c, Empty, before).buckets {
      ReachedBucket(c, before, key);
    }
  }

  /** The calls of a window that admit a pair. */
  function AdmittedIn(c: Config, s: State, window: seq<Call>, key: Key): nat {
    VerdictPerCall(c, s, window);
    Tally(VerdictsOf(window, Verdicts(c, s, window), key), true)
  }

  lemma AdmittedAlone(c: Config, s: State, window: seq<Call>, key: Key)
    requires c.burst != 0.0 && key in StateAfter(c, s, window).buckets
    ensures var nows := NowsOf(window, key);
            AdmittedIn(c, s, window, key) == Admitted(StartBucket(c, s, key, nows), nows, c.burst, c.refillPerSec)
  {
    MapRefinesBuckets(c, s, window, key);
  }

  lemma PairEarned(c: Config, before: seq<Call>, window: seq<Call>, key: Key, start: Bucket, earned: real)
    requires c.burst > 0.0 && c.refillPerSec >= 0.0
    requires key in StateAfter(c, Empty, before + window).buckets
    requires start == StartBucket(c, StateAfter(c, Empty, before), key, NowsOf(window, key))
    requires earned == Earned(start.lastRefill, NowsOf(window, key), c.refillPerSec)
    ensures AdmittedIn(c, StateAfter(c, Empty, before), window, key) as real <= c.burst + earned
  {
    var s := StateAfter(c, Empty, before);
    var nows := NowsOf(window, key);
    WindowVerdicts(c, Empty, before, window);
    AdmittedAlone(c, s, window, key);
    StartInRange(c, before, key, nows);
    BoundFrom(start, nows, c.burst, c.refillPerSec, earned);
  }

  /**
    In any window of any history, whatever calls are interleaved, a tracked pair is admitted
    at most its burst plus the refill over the forward steps of its own calls' clock, counted
    from the last refill before the window.
   */
  lemma PairBound(c: Config, before: seq<Call>, window: seq<Call>, key: Key, start: Bucket, span: real)
    requires c.burst > 0.0 && c.refillPerSec >= 0.0
    requires key in StateAfter(c, Empty, before + window).buckets
    requires start == StartBucket(c, StateAfter(c, Empty, before), key, NowsOf(window, key))
    requires span == Forward(start.lastRefill, NowsOf(window, key))
    ensures AdmittedIn(c, StateAfter(c, Empty, before), window, key) as real <= c.burst + c.refillPerSec * span
  {
    EarnedOver(start.lastRefill, NowsOf(window, key), c.refillPerSec, span);
    PairEarned(c, before, window, key, start, c.refillPerSec * span);
  }
}
