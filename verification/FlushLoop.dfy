/**
  The waiting loop of `flush` (src/flush_scope.rs), run against arbitrary interference: other
  threads take any enabled steps between two of its own. Every execution of the loop is a run
  of the step system, so what holds of all runs holds of it.
 */
module FlushLoop {
  import opened Common
  import opened FlushProtocol
  import opened FlushWord

  /** What happens around one round of the loop: steps of others, and whether the deadline passes. */
  datatype Round = Round(beforeCheck: seq<Step>, whileParked: seq<Step>, expires: bool)

  datatype Log = Log(states: seq<State>, steps: seq<Step>)

  /** The log is a run from `start` to `now`. */
  ghost predicate Leads(log: Log, start: State, now: State) {
    IsRun(log.states, log.steps) && log.states[0] == start && log.states[|log.steps|] == now
  }

  ghost function Extend(log: Log, step: Step, t: State): Log {
    Log(log.states + [t], log.steps + [step])
  }

  lemma ExtendLeads(log: Log, start: State, now: State, step: Step)
    requires Leads(log, start, now) && Enabled(now, step)
    ensures Leads(Extend(log, step, Apply(now, step)), start, Apply(now, step))
  {
    var next := Extend(log, step, Apply(now, step));
    forall k: nat | k < |next.steps| ensures StepAt(next.states, next.steps, k) {
      if k < |log.steps| {
        assert StepAt(log.states, log.steps, k);
      }
    }
  }

  lemma {:induction false} LoopBacksPrefix(steps: seq<Step>, step: Step, k: nat, f: FlusherId)
    requires k <= |steps|
    ensures LoopBacks(steps + [step], k, f) == LoopBacks(steps, k, f)
  {
    if k > 0 {
      LoopBacksPrefix(steps, step, k - 1, f);
    }
  }

  /** How often `f` went back to the head of its loop. */
  ghost function Wakes(log: Log, f: FlusherId): nat {
    LoopBacks(log.steps, |log.steps|, f)
  }

  lemma ExtendWakes(log: Log, step: Step, t: State, f: FlusherId)
    ensures Wakes(Extend(log, step, t), f) == Wakes(log, f) + (if step == Wake(f) then 1 else 0)
  {
    LoopBacksPrefix(log.steps, step, |log.steps|, f);
  }

  /** A step that is not one of flusher `f`'s own. */
  predicate Foreign(step: Step, f: FlusherId) {
    step !in {Begin(f), Listen(f), Check(f), Expire(f), Wake(f), Cancel(f)}
  }

  lemma ForeignStep(s: State, step: Step, f: FlusherId)
    requires Enabled(s, step) && Foreign(step, f) && f in s.flushers
    ensures f in Apply(s, step).flushers
    ensures Apply(s, step).flushers[f] in {s.flushers[f], Notified(s.flushers[f])}
  {
  }

  /** A step taken if it is enabled. */
  function Do(s: State, step: Step): State {
    if Enabled(s, step) then Apply(s, step) else s
  }

  /** Others run: enabled foreign steps are taken, anything else is skipped. */
  function Perform(s: State, f: FlusherId, others: seq<Step>): State {
    if others == [] then s
    else
      var n := |others| - 1;
      var mid := Perform(s, f, others[..n]);
      if Foreign(others[n], f) then Do(mid, others[n]) else mid
  }

  /** What others do never moves a flusher further than a notification. */
  lemma {:induction false} PerformPhase(s: State, f: FlusherId, others: seq<Step>)
    requires f in s.flushers
    ensures var t := Perform(s, f, others); f in t.flushers && t.flushers[f] in {s.flushers[f], Notified(s.flushers[f])}
    decreases |others|
  {
    if others != [] {
      var n := |others| - 1;
      var mid := Perform(s, f, others[..n]);
      PerformPhase(s, f, others[..n]);
      if Foreign(others[n], f) && Enabled(mid, others[n]) {
        ForeignStep(mid, others[n], f);
      }
    }
  }

  lemma {:induction false} PerformKeepsInv(s: State, f: FlusherId, others: seq<Step>)
    requires Inv(s)
    ensures Inv(Perform(s, f, others))
    decreases |others|
  {
    if others != [] {
      var n := |others| - 1;
      PerformKeepsInv(s, f, others[..n]);
      var mid := Perform(s, f, others[..n]);
      if Enabled(mid, others[n]) {
        StepKeepsInv(mid, others[n]);
      }
    }
  }

  /** Foreign steps that lead from state to state are all taken, in order. */
  lemma {:induction false} PerformTakesAll(states: seq<State>, steps: seq<Step>, f: FlusherId, k: nat)
    requires IsRun(states, steps) && k <= |steps|
    requires forall i :: 0 <= i < |steps| ==> steps[i] !in {Begin(f), Listen(f), Check(f), Expire(f), Wake(f), Cancel(f)}
    ensures Perform(states[0], f, steps[..k]) == states[k]
  {
    if k > 0 {
      PerformTakesAll(states, steps, f, k - 1);
      assert steps[..k][..k - 1] == steps[..k - 1];
      assert StepAt(states, steps, k - 1);
    }
  }

  /** Others run, one step after the other. */
  method Interfere(s: State, f: FlusherId, others: seq<Step>, ghost start: State, ghost log: Log)
    returns (t: State, ghost after: Log)
    requires Leads(log, start, s) && f in s.flushers
    ensures t == Perform(s, f, others)
    ensures Leads(after, start, t) && Wakes(after, f) == Wakes(log, f)
    ensures f in t.flushers && t.flushers[f] in {s.flushers[f], Notified(s.flushers[f])}
  {
    t, after := s, log;
    for i := 0 to |others|
      invariant t == Perform(s, f, others[..i])
      invariant Leads(after, start, t) && Wakes(after, f) == Wakes(log, f)
    {
      assert others[..i + 1][..i] == others[..i];
      if Enabled(t, others[i]) && Foreign(others[i], f) {
        ExtendLeads(after, start, t, others[i]);
        ExtendWakes(after, others[i], Apply(t, others[i]), f);
        after := Extend(after, others[i], Apply(t, others[i]));
        t := Apply(t, others[i]);
      }
    }
    assert others[..|others|] == others;
    PerformPhase(s, f, others);
  }

  /** The flusher takes one step of its own. */
  method Own(s: State, f: FlusherId, step: Step, ghost start: State, ghost log: Log)
    returns (t: State, ghost after: Log)
    requires Leads(log, start, s) && Enabled(s, step)
    ensures t == Apply(s, step) && Leads(after, start, t) && after.steps == log.steps + [step]
    ensures Wakes(after, f) == Wakes(log, f) + (if step == Wake(f) then 1 else 0)
  {
    ExtendLeads(log, start, s, step);
    ExtendWakes(log, step, Apply(s, step), f);
    t, after := Apply(s, step), Extend(log, step, Apply(s, step));
  }

  // ------------------------------------------------------------------
  // One round
  // ------------------------------------------------------------------

  /** The state the count is read in: a listener registered, and others' steps since. */
  function AtCheck(s: State, f: FlusherId, round: Round): State {
    Perform(Do(s, Listen(f)), f, round.beforeCheck)
  }

  /** The state a wait ends in. */
  function AfterWait(s: State, f: FlusherId, round: Round): State {
    Perform(Do(AtCheck(s, f, round), Check(f)), f, round.whileParked)
  }

  /** The state after a round that started at the loop head, and its verdict. */
  function RoundOf(s: State, f: FlusherId, round: Round): (State, Option<Outcome>) {
    var mid := AtCheck(s, f, round);
    if Tracked(mid.word) == 0 then (Do(mid, Check(f)), Some(Completed))
    else if round.expires then (Do(AfterWait(s, f, round), Expire(f)), Some(TimedOut))
    else (Do(AfterWait(s, f, round), Wake(f)), None)
  }

  lemma AtCheckRegistered(s: State, f: FlusherId, round: Round)
    requires Inv(s) && Holds(s, f, LoopHead)
    ensures var mid := AtCheck(s, f, round);
            Inv(mid) && f in mid.flushers && mid.flushers[f].Registered? && (Tracked(mid.word) == 0 <==> mid.live == {})
  {
    StepKeepsInv(s, Listen(f));
    PerformPhase(Apply(s, Listen(f)), f, round.beforeCheck);
    PerformKeepsInv(Apply(s, Listen(f)), f, round.beforeCheck);
  }

  lemma AfterWaitParked(s: State, f: FlusherId, round: Round)
    requires Inv(s) && Holds(s, f, LoopHead) && AtCheck(s, f, round).live != {}
    ensures var waited := AfterWait(s, f, round); Inv(waited) && f in waited.flushers && waited.flushers[f].Parked?
  {
    AtCheckRegistered(s, f, round);
    var mid := AtCheck(s, f, round);
    StepKeepsInv(mid, Check(f));
    PerformPhase(Apply(mid, Check(f)), f, round.whileParked);
    PerformKeepsInv(Apply(mid, Check(f)), f, round.whileParked);
  }

  /**
    A round completes exactly if the check meets no live guard. Otherwise it times out exactly
    if its deadline passes; and if not, a flusher notified by then is back at the loop head, and
    one that is not goes on waiting.
   */
  lemma RoundVerdict(s: State, f: FlusherId, round: Round)
    requires Inv(s) && Holds(s, f, LoopHead)
    ensures var (t, outcome) := RoundOf(s, f, round);
            && Inv(t) && f in t.flushers
            && (outcome == Some(Completed) <==> AtCheck(s, f, round).live == {})
            && (outcome == Some(TimedOut) <==> AtCheck(s, f, round).live != {} && round.expires)
            && (outcome.Some? ==> t.flushers[f] == Returned(outcome.value))
    ensures AtCheck(s, f, round).live != {} && !round.expires ==>
              && Wakeable(AfterWait(s, f, round), f) <= 1
              && RoundOf(s, f, round).0.flushers[f] ==
                   if Wakeable(AfterWait(s, f, round), f) == 1 then LoopHead else Parked(false)
  {
    AtCheckRegistered(s, f, round);
    var mid := AtCheck(s, f, round);
    if mid.live == {} {
      StepKeepsInv(mid, Check(f));
    } else {
      AfterWaitParked(s, f, round);
      var waited := AfterWait(s, f, round);
      StepKeepsInv(waited, Expire(f));
      if waited.flushers[f].notified {
        StepKeepsInv(waited, Wake(f));
      }
    }
  }

  /** How one round ended: with a verdict, still parked, or woken and back at the loop head. */
  ghost predicate RoundEnded(s: State, f: FlusherId, outcome: Option<Outcome>) {
    && f in s.flushers
    && (outcome.Some? ==> s.flushers[f] == Returned(outcome.value))
    && (outcome == Some(Completed) ==> s.live == {})
    && (outcome == None ==> s.flushers[f] in {LoopHead, Parked(false)})
  }

  /** The last step is the one that gave the verdict. */
  ghost predicate Decided(log: Log, f: FlusherId, outcome: Option<Outcome>) {
    outcome.Some? ==>
      log.steps != [] && log.steps[|log.steps| - 1] == if outcome.value == Completed then Check(f) else Expire(f)
  }

  /** Register a listener and re-read the count. */
  method Recheck(s: State, f: FlusherId, round: Round, ghost start: State, ghost log: Log)
    returns (t: State, ghost after: Log)
    requires Inv(s) && Leads(log, start, s) && Holds(s, f, LoopHead)
    ensures Enabled(AtCheck(s, f, round), Check(f)) && t == Apply(AtCheck(s, f, round), Check(f))
    ensures Leads(after, start, t) && Wakes(after, f) == Wakes(log, f)
    ensures after.steps != [] && after.steps[|after.steps| - 1] == Check(f)
  {
    AtCheckRegistered(s, f, round);
    t, after := Own(s, f, Listen(f), start, log);
    t, after := Interfere(t, f, round.beforeCheck, start, after);
    t, after := Own(t, f, Check(f), start, after);
  }

  /** Wait for a notification or the deadline. */
  method Await(s: State, f: FlusherId, round: Round, ghost start: State, ghost log: Log)
    returns (t: State, outcome: Option<Outcome>, ghost after: Log)
    requires Leads(log, start, s) && f in s.flushers && s.flushers[f].Parked?
    ensures outcome == (if round.expires then Some(TimedOut) else None)
    ensures t == Do(Perform(s, f, round.whileParked), if round.expires then Expire(f) else Wake(f))
    ensures Leads(after, start, t) && Decided(after, f, outcome)
    ensures Wakes(after, f) == Wakes(log, f) + (if Holds(t, f, LoopHead) then 1 else 0)
  {
    t, after := Interfere(s, f, round.whileParked, start, log);
    if round.expires {
      t, after := Own(t, f, Expire(f), start, after);
      return t, Some(TimedOut), after;
    }
    if t.flushers[f].notified {
      t, after := Own(t, f, Wake(f), start, after);
    }
    outcome := None;
  }

  /** Register a listener, re-read the count, then wait for a notification or the deadline. */
  method OneRound(s: State, f: FlusherId, round: Round, ghost start: State, ghost log: Log)
    returns (t: State, outcome: Option<Outcome>, ghost after: Log)
    requires Inv(start) && Leads(log, start, s) && Holds(s, f, LoopHead)
    ensures (t, outcome) == RoundOf(s, f, round)
    ensures RoundEnded(t, f, outcome) && (outcome == Some(TimedOut) ==> round.expires)
    ensures Leads(after, start, t) && Decided(after, f, outcome)
    ensures Wakes(after, f) == Wakes(log, f) + (if Holds(t, f, LoopHead) then 1 else 0)
  {
    RunKeepsInv(log.states, log.steps, |log.steps|);
    RoundVerdict(s, f, round);
    AtCheckRegistered(s, f, round);
    t, after := Recheck(s, f, round, start, log);
    if t.flushers[f] == Returned(Completed) {
      return t, Some(Completed), after;
    }
    t, outcome, after := Await(t, f, round, start, after);
  }

  // ------------------------------------------------------------------
  // The whole call
  // ------------------------------------------------------------------

  /** The state and verdict after these rounds; a flusher that still waits takes no further ones. */
  function FlushOf(start: State, f: FlusherId, rounds: seq<Round>): (State, Option<Outcome>) {
    if rounds == [] then (Do(start, Begin(f)), None)
    else
      var n := |rounds| - 1;
      var (s, outcome) := FlushOf(start, f, rounds[..n]);
      if outcome == None && Holds(s, f, LoopHead) then RoundOf(s, f, rounds[n]) else (s, outcome)
  }

  /** A call that has returned, or still waits, takes no further round. */
  lemma TakesNoRound(start: State, f: FlusherId, rounds: seq<Round>, n: nat)
    requires |rounds| == n + 1
    requires var (s, outcome) := FlushOf(start, f, rounds[..n]); outcome.Some? || !Holds(s, f, LoopHead)
    ensures FlushOf(start, f, rounds) == FlushOf(start, f, rounds[..n])
  {
  }

  lemma {:induction false} FlushStops(start: State, f: FlusherId, rounds: seq<Round>, i: nat)
    requires i <= |rounds|
    requires var (s, outcome) := FlushOf(start, f, rounds[..i]); outcome.Some? || !Holds(s, f, LoopHead)
    ensures FlushOf(start, f, rounds) == FlushOf(start, f, rounds[..i])
    decreases |rounds|
  {
    if i == |rounds| {
      assert rounds[..i] == rounds;
    } else {
      var n := |rounds| - 1;
      assert rounds[..n][..i] == rounds[..i];
      FlushStops(start, f, rounds[..n], i);
      TakesNoRound(start, f, rounds, n);
    }
  }

  /** Where a call stands after any rounds: returned with its verdict, at the loop head, or waiting. */
  lemma {:induction false} FlushStands(start: State, f: FlusherId, rounds: seq<Round>)
    requires Inv(start) && f !in start.flushers
    ensures var (s, outcome) := FlushOf(start, f, rounds);
            && Inv(s) && f in s.flushers
            && if outcome.Some? then s.flushers[f] == Returned(outcome.value)
               else s.flushers[f] in {LoopHead, Parked(false)}
    decreases |rounds|
  {
    if rounds == [] {
      StepKeepsInv(start, Begin(f));
    } else {
      var n := |rounds| - 1;
      FlushStands(start, f, rounds[..n]);
      var (s, outcome) := FlushOf(start, f, rounds[..n]);
      if outcome == None && Holds(s, f, LoopHead) {
        RoundVerdict(s, f, rounds[n]);
      }
    }
  }

  /** A round that decides the call by a timeout is one whose deadline passes. */
  lemma DecidingRoundExpires(start: State, f: FlusherId, rounds: seq<Round>, n: nat)
    requires Inv(start) && f !in start.flushers && |rounds| == n + 1
    requires FlushOf(start, f, rounds).1 == Some(TimedOut)
    ensures FlushOf(start, f, rounds[..n]).1 == Some(TimedOut) ||
            (FlushOf(start, f, rounds[..n]).1 == None && rounds[n].expires)
  {
    FlushStands(start, f, rounds[..n]);
    var (s, outcome) := FlushOf(start, f, rounds[..n]);
    if outcome == None && Holds(s, f, LoopHead) {
      RoundVerdict(s, f, rounds[n]);
    } else {
      TakesNoRound(start, f, rounds, n);
    }
  }

  /** `flush` times out only by its deadline, in the round in which that passes. */
  lemma {:induction false} TimesOutOnlyByDeadline(start: State, f: FlusherId, rounds: seq<Round>, k: nat) returns (i: nat)
    requires Inv(start) && f !in start.flushers && k <= |rounds|
    requires FlushOf(start, f, rounds[..k]).1 == Some(TimedOut)
    ensures i < k && rounds[i].expires
    ensures FlushOf(start, f, rounds[..i]).1 == None && FlushOf(start, f, rounds[..i + 1]).1 == Some(TimedOut)
    decreases k
  {
    i := k - 1;
    assert rounds[..k][..i] == rounds[..i];
    DecidingRoundExpires(start, f, rounds[..k], i);
    if FlushOf(start, f, rounds[..i]).1 == Some(TimedOut) {
      i := TimesOutOnlyByDeadline(start, f, rounds, i);
    }
  }

  predicate NoGrants(steps: seq<Step>) {
    forall i :: 0 <= i < |steps| ==> !steps[i].Grant?
  }

  lemma {:induction false} StaysIdle(s: State, f: FlusherId, others: seq<Step>)
    requires s.live == {} && NoGrants(others)
    ensures Perform(s, f, others).live == {}
    decreases |others|
  {
    if others != [] {
      StaysIdle(s, f, others[..|others| - 1]);
    }
  }

  /**
    Once the rounds so far have left no guard alive and no notify owed, a call that has not
    returned completes in the next round, whatever happens in it short of new work.
   */
  lemma DrainedFlushCompletes(start: State, f: FlusherId, rounds: seq<Round>, next: Round)
    requires Inv(start) && f !in start.flushers && FlushOf(start, f, rounds).1 == None
    requires var s := FlushOf(start, f, rounds).0; s.live == {} && s.owed == {}
    requires NoGrants(next.beforeCheck)
    ensures FlushOf(start, f, rounds + [next]).1 == Some(Completed)
  {
    FlushStands(start, f, rounds);
    var s := FlushOf(start, f, rounds).0;
    assert !Holds(s, f, Parked(false));
    assert (rounds + [next])[..|rounds|] == rounds;
    StaysIdle(Do(s, Listen(f)), f, next.beforeCheck);
    RoundVerdict(s, f, next);
  }

  lemma PerformSnoc(s: State, f: FlusherId, others: seq<Step>, step: Step)
    requires Foreign(step, f)
    ensures Perform(s, f, others + [step]) == Do(Perform(s, f, others), step)
  {
    assert (others + [step])[..|others|] == others;
  }

  lemma LastDropNotified(parked: State, f: FlusherId, g: GuardId)
    requires Inv(parked) && parked.live == {g} && parked.owed == {}
    ensures var t := Perform(parked, f, [Decrement(g), Notify(g)]); t.live == {} && t.owed == {}
  {
    PerformSnoc(parked, f, [], Decrement(g));
    PerformSnoc(parked, f, [Decrement(g)], Notify(g));
    assert [] + [Decrement(g)] == [Decrement(g)] && [Decrement(g)] + [Notify(g)] == [Decrement(g), Notify(g)];
    assert |parked.live| == 1;
    assert Apply(parked, Decrement(g)).owed == {g};
  }

  /** The flusher's own steps leave the guards and the owed notifies alone. */
  lemma OwnStepsKeepGuards(s: State, f: FlusherId, step: Step)
    requires step in {Listen(f), Check(f), Wake(f)}
    ensures Do(s, step).live == s.live && Do(s, step).owed == s.owed
  {
  }

  /** A wait in which the last guard is dropped and its notify issued. */
  lemma WokenRound(s: State, f: FlusherId, g: GuardId)
    requires Inv(s) && Holds(s, f, LoopHead) && s.live == {g} && s.owed == {}
    ensures var (t, outcome) := RoundOf(s, f, Round([], [Decrement(g), Notify(g)], false));
            outcome == None && t.live == {} && t.owed == {}
  {
    var round := Round([], [Decrement(g), Notify(g)], false);
    var mid := AtCheck(s, f, round);
    OwnStepsKeepGuards(s, f, Listen(f));
    AtCheckRegistered(s, f, round);
    StepKeepsInv(mid, Check(f));
    OwnStepsKeepGuards(mid, f, Check(f));
    LastDropNotified(Apply(mid, Check(f)), f, g);
    OwnStepsKeepGuards(AfterWait(s, f, round), f, Wake(f));
    RoundVerdict(s, f, round);
  }

  /** The last guard is dropped and its notify issued while the flusher waits: it wakes and completes. */
  lemma WokenFlushCompletes(start: State, f: FlusherId, g: GuardId)
    requires Inv(start) && f !in start.flushers && start.live == {g} && start.owed == {}
    ensures FlushOf(start, f, [Round([], [Decrement(g), Notify(g)], false), Round([], [], false)]).1 == Some(Completed)
  {
    var first, next := Round([], [Decrement(g), Notify(g)], false), Round([], [], false);
    var s := Apply(start, Begin(f));
    StepKeepsInv(start, Begin(f));
    WokenRound(s, f, g);
    assert [first][..0] == [] && [first] + [next] == [first, next];
    assert FlushOf(start, f, [first]) == RoundOf(s, f, first);
    DrainedFlushCompletes(start, f, [first], next);
  }

  /**
    One call of `flush` under any interference is a run of the step system. It reports
    `Completed` only from a check that met no live guard; while it waits without a
    notification some live guard or owed notify will still wake it; and it goes round as
    often as it is woken.
   */
  method Flush(start: State, f: FlusherId, rounds: seq<Round>)
    returns (outcome: Option<Outcome>, end: State, ghost log: Log)
    requires Inv(start) && f !in start.flushers
    ensures (end, outcome) == FlushOf(start, f, rounds)
    ensures RoundEnded(end, f, outcome) && Inv(end)
    ensures Leads(log, start, end) && Decided(log, f, outcome)
    ensures Holds(end, f, Parked(false)) ==> end.live != {} || end.owed != {}
    ensures Holds(end, f, LoopHead) ==> Wakes(log, f) == |rounds|
  {
    log := Log([start], []);
    end, log := Own(start, f, Begin(f), start, log);
    outcome := None;
    var i := 0;
    while i < |rounds| && outcome == None && end.flushers[f] == LoopHead
      invariant i <= |rounds| && RoundEnded(end, f, outcome)
      invariant (end, outcome) == FlushOf(start, f, rounds[..i])
      invariant Leads(log, start, end) && Decided(log, f, outcome)
      invariant Holds(end, f, LoopHead) ==> Wakes(log, f) == i
    {
      assert rounds[..i + 1][..i] == rounds[..i];
      end, outcome, log := OneRound(end, f, rounds[i], start, log);
      i := i + 1;
    }
    if i == |rounds| {
      assert rounds[..i] == rounds;
    } else {
      FlushStops(start, f, rounds, i);
    }
    RunKeepsInv(log.states, log.steps, |log.steps|);
  }
}
