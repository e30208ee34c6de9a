/**
  The drain protocol of a flush scope as an interleaved step system (src/flush_scope.rs).

  Trackers, closers, droppers and flushers interleave freely. Dropping a guard takes two
  steps: the atomic decrement, and on the 1-to-0 edge a later notify. A flusher registers a
  listener, re-reads the count, and only then parks. Steps are sequentially consistent.
 */
module FlushProtocol {
  import opened FlushWord

  type GuardId = nat
  type FlusherId = nat

  datatype Outcome = Completed | TimedOut

  /** Where a call of `flush` stands; a registered listener remembers whether it was notified. */
  datatype Phase =
    | LoopHead
    | Registered(notified: bool)
    | Parked(notified: bool)
    | Returned(outcome: Outcome)

  datatype State = State(
    word: Word,
    live: set<GuardId>,
    granted: set<GuardId>,  // every guard ever handed out
    dropped: set<GuardId>,
    owed: set<GuardId>,  // droppers past their 1-to-0 decrement, notify not yet issued
    spare: nat,  // notifications of dropped listeners, not yet handed on
    flushers: map<FlusherId, Phase>)

  datatype Step =
    | Grant(g: GuardId)
    | Refuse
    | Close
    | Reopen
    | Decrement(g: GuardId)
    | Notify(g: GuardId)
    | Begin(f: FlusherId)
    | Listen(f: FlusherId)
    | Check(f: FlusherId)
    | Expire(f: FlusherId)
    | Wake(f: FlusherId)
    | Cancel(f: FlusherId)
    | Stray(f: FlusherId)  // a notification handed on by a listener dropped while notified

  const Init := State(0, {}, {}, {}, {}, 0, map[])

  predicate Holds(s: State, f: FlusherId, p: Phase) {
    f in s.flushers && s.flushers[f] == p
  }

  predicate Listening(s: State, f: FlusherId) {
    f in s.flushers && (s.flushers[f].Registered? || s.flushers[f].Parked?)
  }

  /** Whether flusher `f` has a notified listener. */
  function Wakeable(s: State, f: FlusherId): nat {
    if Listening(s, f) && s.flushers[f].notified then 1 else 0
  }

  /** A listener dropped after a notification that did not wake it hands the notification on. */
  function HandsOn(s: State, step: Step): nat {
    match step
    case Check(f) => if Tracked(s.word) == 0 then Wakeable(s, f) else 0
    case Expire(f) => Wakeable(s, f)
    case Cancel(f) => Wakeable(s, f)
    case _ => 0
  }

  predicate Enabled(s: State, step: Step) {
    match step
    case Grant(g) => TrackUpdate(s.word).Some? && g !in s.granted
    case Refuse => TrackUpdate(s.word).None?
    case Close => true
    case Reopen => true
    case Decrement(g) => g in s.live
    case Notify(g) => g in s.owed
    case Begin(f) => f !in s.flushers
    case Listen(f) => Holds(s, f, LoopHead)
    case Check(f) => f in s.flushers && s.flushers[f].Registered?
    case Expire(f) => f in s.flushers && s.flushers[f].Parked?
    case Wake(f) => Holds(s, f, Parked(true))
    case Cancel(f) => f in s.flushers
    case Stray(f) => Listening(s, f) && s.spare > 0
  }

  function Notified(p: Phase): Phase {
    match p
    case Registered(_) => Registered(true)
    case Parked(_) => Parked(true)
    case LoopHead => p
    case Returned(_) => p
  }

  /** `notify(usize::MAX)` reaches every listener registered at that moment. */
  function NotifyAll(flushers: map<FlusherId, Phase>): map<FlusherId, Phase> {
    map f | f in flushers :: Notified(flushers[f])
  }

  function Apply(s: State, step: Step): State
    requires Enabled(s, step)
  {
    match step
    case Grant(g) => s.(word := TrackUpdate(s.word).value, live := s.live + {g}, granted := s.granted + {g})
    case Refuse => s
    case Close => s.(word := SetClosed(s.word))
    case Reopen => s.(word := ClearClosed(s.word))
    case Decrement(g) =>
      s.(word := SubTracked(s.word),
         live := s.live - {g},
         dropped := s.dropped + {g},
         owed := if Tracked(s.word) == 1 then s.owed + {g} else s.owed)
    case Notify(g) => s.(owed := s.owed - {g}, flushers := NotifyAll(s.flushers))
    case Begin(f) => s.(flushers := s.flushers[f := LoopHead])
    case Listen(f) => s.(flushers := s.flushers[f := Registered(false)])
    case Check(f) =>
      s.(flushers := s.flushers[f := if Tracked(s.word) == 0 then Returned(Completed)
                                     else Parked(s.flushers[f].notified)],
         spare := s.spare + HandsOn(s, step))
    case Expire(f) => s.(flushers := s.flushers[f := Returned(TimedOut)], spare := s.spare + HandsOn(s, step))
    case Wake(f) => s.(flushers := s.flushers[f := LoopHead])
    case Cancel(f) => s.(flushers := s.flushers - {f}, spare := s.spare + HandsOn(s, step))
    case Stray(f) => s.(flushers := s.flushers[f := Notified(s.flushers[f])], spare := s.spare - 1)
  }

  predicate Next(s: State, step: Step, t: State) {
    Enabled(s, step) && t == Apply(s, step)
  }

  /** Step `k` leads from `states[k]` to `states[k + 1]`. */
  ghost predicate StepAt(states: seq<State>, steps: seq<Step>, k: nat) {
    k < |steps| && k + 1 < |states| && Next(states[k], steps[k], states[k + 1])
  }

  ghost predicate IsRun(states: seq<State>, steps: seq<Step>) {
    && |states| == |steps| + 1
    && forall k: nat :: k < |steps| ==> StepAt(states, steps, k)
  }

  /** A run of a new scope. */
  ghost predicate IsFullRun(states: seq<State>, steps: seq<Step>) {
    IsRun(states, steps) && states[0] == Init
  }

  // ------------------------------------------------------------------
  // What every step keeps
  // ------------------------------------------------------------------

  /** A parked flusher nobody has notified is still owed a notify, now or at the next edge. */
  ghost predicate NoneLost(s: State) {
    forall f :: Holds(s, f, Parked(false)) ==> s.live != {} || s.owed != {}
  }

  ghost predicate Inv(s: State) {
    && Tracked(s.word) == |s.live|
    && s.dropped <= s.granted
    && s.live == s.granted - s.dropped
    && NoneLost(s)
  }

  lemma DecrementKeepsInv(s: State, g: GuardId)
    requires Inv(s) && g in s.live
    ensures Inv(Apply(s, Decrement(g)))
    ensures SubTracked(s.word) == s.word - ONE_TRACKED
    ensures IsClosed(SubTracked(s.word)) == IsClosed(s.word)
  {
    assert |s.live - {g}| == |s.live| - 1;
    var t := Apply(s, Decrement(g));
    forall f | Holds(t, f, Parked(false)) ensures t.live != {} || t.owed != {} {
      if t.live == {} {
        assert g in t.owed;
      }
    }
  }

  lemma NotifyKeepsInv(s: State, g: GuardId)
    requires Inv(s) && g in s.owed
    ensures Inv(Apply(s, Notify(g)))
    ensures forall f :: !Holds(Apply(s, Notify(g)), f, Parked(false))
  {
  }

  lemma StepKeepsInv(s: State, step: Step)
    requires Inv(s) && Enabled(s, step)
    ensures Inv(Apply(s, step))
  {
    match step
    case Decrement(g) => DecrementKeepsInv(s, g);
    case Notify(g) => NotifyKeepsInv(s, g);
    case Check(f) =>
      var t := Apply(s, step);
      forall h | Holds(t, h, Parked(false)) ensures t.live != {} || t.owed != {} {
        assert h != f ==> Holds(s, h, Parked(false));
      }
    case Grant(_) => SameFlushers(s, step);
    case Refuse => SameFlushers(s, step);
    case Close => SameFlushers(s, step);
    case Reopen => SameFlushers(s, step);
    case Begin(f) => OthersParked(s, step, f);
    case Listen(f) => OthersParked(s, step, f);
    case Expire(f) => OthersParked(s, step, f);
    case Wake(f) => OthersParked(s, step, f);
    case Cancel(f) => OthersParked(s, step, f);
    case Stray(f) => OthersParked(s, step, f);
  }

  lemma SameFlushers(s: State, step: Step)
    requires Enabled(s, step) && (step.Grant? || step.Refuse? || step.Close? || step.Reopen?)
    ensures forall h :: Holds(Apply(s, step), h, Parked(false)) ==> Holds(s, h, Parked(false))
  {
  }

  /** A step of flusher `f` that does not park it un-notified creates no un-notified parked flusher. */
  lemma OthersParked(s: State, step: Step, f: FlusherId)
    requires Enabled(s, step)
    requires step in {Begin(f), Listen(f), Expire(f), Wake(f), Cancel(f), Stray(f)}
    ensures forall h :: Holds(Apply(s, step), h, Parked(false)) ==> Holds(s, h, Parked(false))
  {
  }

  /** Only close and reopen touch the closed bit, and a closed scope grants nothing. */
  lemma StepClosedBit(s: State, step: Step, t: State)
    requires Inv(s) && Next(s, step, t)
    ensures IsClosed(t.word) == (step.Close? || (!step.Reopen? && IsClosed(s.word)))
    ensures step.Grant? ==> !IsClosed(s.word)
  {
    if step.Decrement? {
      DecrementKeepsInv(s, step.g);
    }
  }

  lemma {:induction false} RunKeepsInv(states: seq<State>, steps: seq<Step>, k: nat)
    requires IsRun(states, steps) && Inv(states[0]) && k < |states|
    ensures Inv(states[k])
  {
    if k > 0 {
      RunKeepsInv(states, steps, k - 1);
      assert StepAt(states, steps, k - 1);
      StepKeepsInv(states[k - 1], steps[k - 1]);
    }
  }

  /** Only close and reopen touch the closed bit, and a closed scope grants nothing. */
  lemma RunClosedBit(states: seq<State>, steps: seq<Step>, k: nat)
    requires IsRun(states, steps) && Inv(states[0]) && k < |steps|
    ensures IsClosed(states[k + 1].word) == (steps[k].Close? || (!steps[k].Reopen? && IsClosed(states[k].word)))
    ensures steps[k].Grant? ==> !IsClosed(states[k].word)
  {
    RunKeepsInv(states, steps, k);
    assert StepAt(states, steps, k);
    StepClosedBit(states[k], steps[k], states[k + 1]);
  }

  /** Only grants and decrements move guards. */
  lemma RunMovesGuards(states: seq<State>, steps: seq<Step>, k: nat)
    requires IsRun(states, steps) && k < |steps|
    ensures states[k + 1].granted == (if steps[k].Grant? then states[k].granted + {steps[k].g} else states[k].granted)
    ensures states[k + 1].dropped == (if steps[k].Decrement? then states[k].dropped + {steps[k].g} else states[k].dropped)
    ensures !steps[k].Grant? ==> states[k + 1].live <= states[k].live
  {
    assert StepAt(states, steps, k);
  }

  // ------------------------------------------------------------------
  // The packed word refines the pair (closed, live guards)
  // ------------------------------------------------------------------

  /** Closed according to the history alone: the last of close and reopen was a close. */
  ghost predicate ClosedBy(steps: seq<Step>, k: nat)
    requires k <= |steps|
  {
    k > 0 && (steps[k - 1].Close? || (!steps[k - 1].Reopen? && ClosedBy(steps, k - 1)))
  }

  /** The guards the first `k` steps granted, and those they dropped. */
  ghost function GrantedBy(steps: seq<Step>, k: nat): set<GuardId>
    requires k <= |steps|
  {
    if k == 0 then {}
    else if steps[k - 1].Grant? then GrantedBy(steps, k - 1) + {steps[k - 1].g}
    else GrantedBy(steps, k - 1)
  }

  ghost function DroppedBy(steps: seq<Step>, k: nat): set<GuardId>
    requires k <= |steps|
  {
    if k == 0 then {}
    else if steps[k - 1].Decrement? then DroppedBy(steps, k - 1) + {steps[k - 1].g}
    else DroppedBy(steps, k - 1)
  }

  lemma {:induction false} HistoryCloses(states: seq<State>, steps: seq<Step>, k: nat)
    requires IsFullRun(states, steps) && k <= |steps|
    ensures IsClosed(states[k].word) == ClosedBy(steps, k)
  {
    if k > 0 {
      HistoryCloses(states, steps, k - 1);
      RunClosedBit(states, steps, k - 1);
    }
  }

  lemma {:induction false} HistoryMovesGuards(states: seq<State>, steps: seq<Step>, k: nat)
    requires IsFullRun(states, steps) && k <= |steps|
    ensures GrantedBy(steps, k) == states[k].granted
    ensures DroppedBy(steps, k) == states[k].dropped
  {
    if k > 0 {
      HistoryMovesGuards(states, steps, k - 1);
      RunMovesGuards(states, steps, k - 1);
    }
  }

  /** In every run the word is 2 * (granted and not yet dropped) + (1 if last closed). */
  lemma PackedWordRefines(states: seq<State>, steps: seq<Step>, k: nat)
    requires IsFullRun(states, steps) && k <= |steps|
    ensures DroppedBy(steps, k) <= GrantedBy(steps, k)
    ensures states[k].word == 2 * |GrantedBy(steps, k) - DroppedBy(steps, k)| + Bit(ClosedBy(steps, k))
  {
    HistoryCloses(states, steps, k);
    HistoryMovesGuards(states, steps, k);
    RunKeepsInv(states, steps, k);
    PairDeterminesWord(states[k].word, ClosedBy(steps, k), |states[k].live|);
  }

  // ------------------------------------------------------------------
  // No lost wakeup
  // ------------------------------------------------------------------

  /** In every interleaving a flusher parked without a notification still has one coming. */
  lemma NoLostWakeup(states: seq<State>, steps: seq<Step>, k: nat, f: FlusherId)
    requires IsFullRun(states, steps) && k < |states|
    requires Holds(states[k], f, Parked(false))
    ensures Tracked(states[k].word) > 0 || states[k].owed != {}
  {
    RunKeepsInv(states, steps, k);
  }

  /** Once every guard is gone, a parked flusher is at most one notify and three steps of its own from completing. */
  lemma DrainedFlusherCompletes(s: State, f: FlusherId) returns (states: seq<State>, steps: seq<Step>)
    requires Inv(s) && s.live == {} && f in s.flushers && s.flushers[f].Parked?
    ensures IsRun(states, steps) && states[0] == s && |steps| <= 4
    ensures Holds(states[|steps|], f, Returned(Completed))
  {
    states, steps := [s], [];
    if !s.flushers[f].notified {
      assert Holds(s, f, Parked(false));
      var g :| g in s.owed;
      states, steps := [s, Apply(s, Notify(g))], [Notify(g)];
    }
    var a := states[|steps|];
    var b := Apply(a, Wake(f));
    var c := Apply(b, Listen(f));
    states := states + [b, c, Apply(c, Check(f))];
    steps := steps + [Wake(f), Listen(f), Check(f)];
  }

  // ------------------------------------------------------------------
  // Teardown safety over whole runs
  // ------------------------------------------------------------------

  ghost predicate NoReopen(steps: seq<Step>, from: nat, to: nat) {
    forall k :: from <= k < to && k < |steps| ==> !steps[k].Reopen?
  }

  /** From a close until the next reopen nothing is granted. */
  lemma {:induction false} ClosedGrantsNothing(states: seq<State>, steps: seq<Step>, i: nat, k: nat)
    requires IsFullRun(states, steps) && i < k <= |steps|
    requires steps[i].Close? && NoReopen(steps, i, k)
    ensures IsClosed(states[k].word)
    ensures forall m :: i <= m < k ==> !steps[m].Grant?
    decreases k
  {
    RunClosedBit(states, steps, k - 1);
    if k > i + 1 {
      ClosedGrantsNothing(states, steps, i, k - 1);
    }
  }

  /** With nothing granted in between, a drained scope stays drained. */
  lemma {:induction false} StaysDrained(states: seq<State>, steps: seq<Step>, j: nat, k: nat)
    requires IsFullRun(states, steps) && j <= k <= |steps|
    requires states[j].live == {} && forall m :: j <= m < k ==> !steps[m].Grant?
    ensures states[k].live == {} && GrantedBy(steps, k) == DroppedBy(steps, j)
    decreases k
  {
    HistoryMovesGuards(states, steps, j);
    RunKeepsInv(states, steps, j);
    if j < k {
      StaysDrained(states, steps, j, k - 1);
      RunMovesGuards(states, steps, k - 1);
    }
  }

  /**
    After a close at step `i`, a flush completing at a later step `j`, and no reopen up to
    `k`: nothing was granted since the close, every guard ever granted had been dropped by
    step `j`, and the word is the bare closed bit.
   */
  lemma TeardownSafety(states: seq<State>, steps: seq<Step>, i: nat, j: nat, k: nat, f: FlusherId)
    requires IsFullRun(states, steps) && i < j < k <= |steps|
    requires steps[i].Close? && NoReopen(steps, i, k)
    requires steps[j] == Check(f) && Holds(states[j + 1], f, Returned(Completed))
    ensures forall m :: i <= m < k ==> !steps[m].Grant?
    ensures GrantedBy(steps, k) == DroppedBy(steps, j)
    ensures states[k].live == {} && states[k].word == CLOSED
  {
    ClosedGrantsNothing(states, steps, i, k);
    RunKeepsInv(states, steps, j);
    assert StepAt(states, steps, j);
    StaysDrained(states, steps, j, k);
    RunKeepsInv(states, steps, k);
  }

  // ------------------------------------------------------------------
  // Progress of one flusher
  // ------------------------------------------------------------------

  /** Loop-backs of flusher `f` in the first `k` steps. */
  ghost function LoopBacks(steps: seq<Step>, k: nat, f: FlusherId): nat
    requires k <= |steps|
  {
    if k == 0 then 0 else LoopBacks(steps, k - 1, f) + (if steps[k - 1] == Wake(f) then 1 else 0)
  }

  /** Notifications other flushers hand on by dropping a notified listener at a step. */
  ghost function OthersHandOn(s: State, step: Step, f: FlusherId): nat {
    if step in {Check(f), Expire(f), Cancel(f)} then 0 else HandsOn(s, step)
  }

  ghost function HandOvers(states: seq<State>, steps: seq<Step>, k: nat, f: FlusherId): nat
    requires k <= |steps| < |states|
  {
    if k == 0 then 0 else HandOvers(states, steps, k - 1, f) + OthersHandOn(states[k - 1], steps[k - 1], f)
  }

  ghost function Grants(steps: seq<Step>, k: nat): nat
    requires k <= |steps|
  {
    if k == 0 then 0 else Grants(steps, k - 1) + (if steps[k - 1].Grant? then 1 else 0)
  }

  /** Wakeups flusher `f` may still receive without a further grant or hand-over. */
  ghost function Potential(s: State, f: FlusherId): nat {
    |s.owed| + (if s.live != {} then 1 else 0) + s.spare + Wakeable(s, f)
  }

  lemma DecrementPotential(s: State, g: GuardId, f: FlusherId)
    requires Inv(s) && g in s.live
    ensures Potential(Apply(s, Decrement(g)), f) <= Potential(s, f)
  {
    assert |s.live - {g}| == |s.live| - 1;
    assert |s.owed + {g}| <= |s.owed| + 1;
  }

  lemma NotifyPotential(s: State, g: GuardId, f: FlusherId)
    requires g in s.owed
    ensures Potential(Apply(s, Notify(g)), f) <= Potential(s, f)
  {
    assert |s.owed - {g}| == |s.owed| - 1;
  }

  lemma FlusherPotential(s: State, step: Step, f: FlusherId)
    requires Enabled(s, step) && !step.Decrement? && !step.Notify?
    ensures Wakeable(Apply(s, step), f) + Apply(s, step).spare + (if step == Wake(f) then 1 else 0)
         <= Wakeable(s, f) + s.spare + OthersHandOn(s, step, f)
  {
  }

  lemma StepPotential(s: State, step: Step, f: FlusherId)
    requires Inv(s) && Enabled(s, step)
    ensures Potential(Apply(s, step), f) + (if step == Wake(f) then 1 else 0)
         <= Potential(s, f) + (if step.Grant? then 1 else 0) + OthersHandOn(s, step, f)
  {
    match step
    case Decrement(g) => DecrementPotential(s, g, f);
    case Notify(g) => NotifyPotential(s, g, f);
    case _ => FlusherPotential(s, step, f);
  }

  /**
    Each loop-back of `flush` consumes its own notification: over any run the loop-backs are
    at most the notifies outstanding at the start, one for the edge still ahead, and one per
    later grant or notification handed on by another flusher.
   */
  lemma {:induction false} LoopBacksConsumeNotifies(states: seq<State>, steps: seq<Step>, k: nat, f: FlusherId)
    requires IsRun(states, steps) && Inv(states[0]) && k <= |steps|
    ensures LoopBacks(steps, k, f) + Potential(states[k], f)
         <= Potential(states[0], f) + Grants(steps, k) + HandOvers(states, steps, k, f)
  {
    if k > 0 {
      LoopBacksConsumeNotifies(states, steps, k - 1, f);
      RunKeepsInv(states, steps, k - 1);
      assert StepAt(states, steps, k - 1);
      StepPotential(states[k - 1], steps[k - 1], f);
    }
  }

  lemma {:induction false} ClosedHasNoGrants(states: seq<State>, steps: seq<Step>, k: nat)
    requires IsRun(states, steps) && Inv(states[0]) && IsClosed(states[0].word) && k <= |steps|
    requires NoReopen(steps, 0, k)
    ensures IsClosed(states[k].word) && Grants(steps, k) == 0
  {
    if k > 0 {
      ClosedHasNoGrants(states, steps, k - 1);
      RunClosedBit(states, steps, k - 1);
    }
  }

  /** No flusher but `f` has called `flush`. */
  ghost predicate Alone(states: seq<State>, f: FlusherId) {
    forall k :: 0 <= k < |states| ==> states[k].flushers.Keys <= {f}
  }

  lemma {:induction false} AloneHasNoHandOvers(states: seq<State>, steps: seq<Step>, k: nat, f: FlusherId)
    requires |states| == |steps| + 1 && k <= |steps| && Alone(states, f)
    ensures HandOvers(states, steps, k, f) == 0
  {
    if k > 0 {
      AloneHasNoHandOvers(states, steps, k - 1, f);
    }
  }

  /**
    A flush that starts on a closed scope, until it is reopened, goes round its loop at most
    (notifies outstanding at entry) + 2 times, plus one per notification that another flusher
    hands on; alone on the scope, the former is all.
   */
  lemma FlushIterationsBounded(states: seq<State>, steps: seq<Step>, f: FlusherId)
    requires IsRun(states, steps) && Inv(states[0])
    requires Holds(states[0], f, LoopHead) && IsClosed(states[0].word) && NoReopen(steps, 0, |steps|)
    ensures var outstanding := |states[0].owed| + states[0].spare;
            && LoopBacks(steps, |steps|, f) + 1 <= outstanding + 2 + HandOvers(states, steps, |steps|, f)
            && (Alone(states, f) ==> LoopBacks(steps, |steps|, f) + 1 <= outstanding + 2)
  {
    ClosedHasNoGrants(states, steps, |steps|);
    LoopBacksConsumeNotifies(states, steps, |steps|, f);
    if Alone(states, f) {
      AloneHasNoHandOvers(states, steps, |steps|, f);
    }
  }

  // ------------------------------------------------------------------
  // Completion of one flusher on a drained scope
  // ------------------------------------------------------------------

  /** An owed notify, or a step of the flusher's own loop. */
  predicate Helps(step: Step, f: FlusherId) {
    step.Notify? || step in {Listen(f), Check(f), Wake(f)}
  }

  /** Any step but new work, the flusher's deadline and its cancellation. */
  predicate Harmless(step: Step, f: FlusherId) {
    !step.Grant? && step != Expire(f) && step != Cancel(f)
  }

  /** Steps of its own that a flusher still has ahead on a drained scope, a wait for a notify included. */
  function Ahead(p: Phase): nat {
    match p
    case Returned(_) => 0
    case Registered(_) => 1
    case LoopHead => 2
    case Parked(notified) => if notified then 3 else 4
  }

  ghost predicate Draining(s: State, f: FlusherId) {
    Inv(s) && s.live == {} && f in s.flushers && s.flushers[f] != Returned(TimedOut)
  }

  ghost function Remaining(s: State, f: FlusherId): nat
    requires f in s.flushers
  {
    |s.owed| + Ahead(s.flushers[f])
  }

  lemma DrainStep(s: State, step: Step, f: FlusherId)
    requires Draining(s, f) && Enabled(s, step) && Harmless(step, f)
    ensures Draining(Apply(s, step), f)
    ensures Remaining(Apply(s, step), f) + (if Helps(step, f) then 1 else 0) <= Remaining(s, f)
  {
    StepKeepsInv(s, step);
    if step.Notify? {
      assert |s.owed - {step.g}| == |s.owed| - 1;
    }
  }

  /** Until it has completed, a flusher on a drained scope has a helping step ready. */
  lemma HelpIsReady(s: State, f: FlusherId) returns (step: Step)
    requires Draining(s, f) && !Holds(s, f, Returned(Completed))
    ensures Helps(step, f) && Enabled(s, step)
  {
    match s.flushers[f]
    case LoopHead => step := Listen(f);
    case Registered(_) => step := Check(f);
    case Parked(true) => step := Wake(f);
    case Parked(false) =>
      assert Holds(s, f, Parked(false));
      var g :| g in s.owed;
      step := Notify(g);
    case Returned(Completed) => assert false;
    case Returned(TimedOut) => assert false;
  }

  ghost function Helping(steps: seq<Step>, k: nat, f: FlusherId): nat
    requires k <= |steps|
  {
    if k == 0 then 0 else Helping(steps, k - 1, f) + (if Helps(steps[k - 1], f) then 1 else 0)
  }

  /**
    On a drained scope, whatever else runs, a flusher that neither expires nor is cancelled has
    completed or has a helping step ready, and there are at most (owed notifies + 4) helping
    steps in all: every run that does not put them off for ever completes.
   */
  lemma {:induction false} DrainedRunsComplete(states: seq<State>, steps: seq<Step>, k: nat, f: FlusherId)
    requires IsRun(states, steps) && Draining(states[0], f) && k <= |steps|
    requires forall m :: 0 <= m < k ==> Harmless(steps[m], f)
    ensures Draining(states[k], f)
    ensures Helping(steps, k, f) + Remaining(states[k], f) <= Remaining(states[0], f) <= |states[0].owed| + 4
    ensures Holds(states[k], f, Returned(Completed)) || exists step :: Helps(step, f) && Enabled(states[k], step)
  {
    if k > 0 {
      DrainedRunsComplete(states, steps, k - 1, f);
      assert StepAt(states, steps, k - 1);
      DrainStep(states[k - 1], steps[k - 1], f);
    }
    if !Holds(states[k], f, Returned(Completed)) {
      var step := HelpIsReady(states[k], f);
    }
  }
}
