/**
  What holds over whole runs of the response-waiter table (src/client.rs): exactly when guarded
  cleanup hits another registration, and that a phash waiter lives through exactly one sweep.
 */
module WaiterRuns {
  import opened Common
  import opened ResponseWaiters

  /** Operation `k` takes the table from `states[k]` to `states[k + 1]`. */
  ghost predicate StepAt(states: seq<Table>, ops: seq<Op>, k: nat) {
    k < |ops| && k + 1 < |states| && states[k + 1] == Apply(states[k], ops[k])
  }

  ghost predicate IsRun(states: seq<Table>, ops: seq<Op>) {
    && |states| == |ops| + 1
    && forall k: nat :: k < |ops| ==> StepAt(states, ops, k)
  }

  /** What one operation of a run does to the generation, the epoch and the entry under an id. */
  lemma RunStep(states: seq<Table>, ops: seq<Op>, k: nat, id: string)
    requires IsRun(states, ops) && k < |ops|
    ensures states[k + 1].lastGeneration ==
            if Registers(states[k], ops[k]) then NextGeneration(states[k].lastGeneration) else states[k].lastGeneration
    ensures states[k + 1].sweepEpoch ==
            if ops[k].DropExpiredPhash? then WrappingIncrement(states[k].sweepEpoch) else states[k].sweepEpoch
    ensures var next := Lookup(states[k + 1].entries, id);
            || next == Lookup(states[k].entries, id)
            || next == None
            || (Registers(states[k], ops[k]) && next.value.generation == states[k + 1].lastGeneration)
  {
    assert StepAt(states, ops, k);
  }

  /** Registrations among operations `i` .. `k - 1`. */
  ghost function Registrations(states: seq<Table>, ops: seq<Op>, i: nat, k: nat): nat
    requires i <= k <= |ops| < |states|
    decreases k
  {
    if i == k then 0
    else Registrations(states, ops, i, k - 1) + (if Registers(states[k - 1], ops[k - 1]) then 1 else 0)
  }

  /** Operation `i` registers a waiter under `id`, with the generation the table then shows. */
  ghost predicate RegistersAt(states: seq<Table>, ops: seq<Op>, id: string, i: nat) {
    i < |ops| < |states| && Registers(states[i], ops[i]) && ops[i].id == id
  }

  lemma RegisteredEntry(states: seq<Table>, ops: seq<Op>, id: string, i: nat)
    requires IsRun(states, ops) && RegistersAt(states, ops, id, i)
    ensures id in states[i + 1].entries && states[i + 1].entries[id].waiter == ops[i].waiter
    ensures states[i + 1].entries[id].generation == states[i + 1].lastGeneration > 0
  {
    assert StepAt(states, ops, i);
  }

  // ------------------------------------------------------------------
  // Generations
  // ------------------------------------------------------------------

  /** The generation handed out `n` registrations after `g`. */
  function Stamp(g: Generation, n: nat): Generation {
    (g - 1 + n) % PERIOD + 1
  }

  /** A generation recurs exactly after each full period. */
  lemma StampRecurs(g: Generation, n: nat)
    ensures Stamp(g, n) == g <==> n % PERIOD == 0
  {
  }

  lemma StampNext(g: Generation, n: nat)
    ensures NextGeneration(Stamp(g, n)) == Stamp(g, n + 1)
  {
  }

  lemma {:induction false} LastGeneration(states: seq<Table>, ops: seq<Op>, i: nat, k: nat)
    requires IsRun(states, ops) && i <= k <= |ops| && states[i].lastGeneration > 0
    ensures states[k].lastGeneration == Stamp(states[i].lastGeneration, Registrations(states, ops, i, k))
    decreases k
  {
    if i < k {
      LastGeneration(states, ops, i, k - 1);
      StampNext(states[i].lastGeneration, Registrations(states, ops, i, k - 1));
      RunStep(states, ops, k - 1, "");
    }
  }

  /** The registration made under `id` at operation `i` is still the one in the table at `k`. */
  ghost predicate Unbroken(states: seq<Table>, id: string, i: nat, k: nat)
    requires i < k < |states|
  {
    forall m :: i < m <= k ==> Lookup(states[m].entries, id) == Lookup(states[i + 1].entries, id)
  }

  /** A broken registration's generation is not found under its id again within a period. */
  lemma {:induction false} NoOtherMatches(states: seq<Table>, ops: seq<Op>, id: string, i: nat, k: nat)
    requires IsRun(states, ops) && RegistersAt(states, ops, id, i) && i < k <= |ops|
    requires Registrations(states, ops, i + 1, k) < PERIOD
    ensures var now := Lookup(states[k].entries, id);
            Unbroken(states, id, i, k) || now == None || now.value.generation != states[i + 1].lastGeneration
    decreases k
  {
    RegisteredEntry(states, ops, id, i);
    if i + 1 < k {
      NoOtherMatches(states, ops, id, i, k - 1);
      RunStep(states, ops, k - 1, id);
      if Registers(states[k - 1], ops[k - 1]) {
        LastGeneration(states, ops, i + 1, k);
        StampRecurs(states[i + 1].lastGeneration, Registrations(states, ops, i + 1, k));
      }
    }
  }

  /**
    Guarded cleanup is exact: with fewer than 2^64 - 1 registrations in between, cleaning up
    with a registration's own id and generation removes that registration if it is still
    there, and changes nothing otherwise, whatever reuse, replacement or clear came between.
   */
  lemma GuardedCleanupExact(states: seq<Table>, ops: seq<Op>, id: string, i: nat, j: nat)
    requires IsRun(states, ops) && RegistersAt(states, ops, id, i) && i < j < |ops|
    requires id in states[i + 1].entries && ops[j] == RemoveGuarded(id, states[i + 1].entries[id].generation)
    requires Registrations(states, ops, i + 1, j) < PERIOD
    ensures states[j + 1] ==
            if Unbroken(states, id, i, j) then states[j].(entries := states[j].entries - {id}) else states[j]
  {
    RegisteredEntry(states, ops, id, i);
    NoOtherMatches(states, ops, id, i, j);
    assert StepAt(states, ops, j);
    if Unbroken(states, id, i, j) {
      assert Lookup(states[j].entries, id) == Lookup(states[i + 1].entries, id);
    }
  }

  /** Two registrations wear the same generation exactly if a multiple of the period lies between them. */
  lemma SameGenerationIff(states: seq<Table>, ops: seq<Op>, id: string, i: nat, m: nat)
    requires IsRun(states, ops) && i <= m && RegistersAt(states, ops, id, i) && RegistersAt(states, ops, id, m)
    ensures id in states[i + 1].entries && id in states[m + 1].entries
    ensures states[m + 1].entries[id].generation == states[i + 1].entries[id].generation
       <==> Registrations(states, ops, i + 1, m + 1) % PERIOD == 0
  {
    RegisteredEntry(states, ops, id, i);
    RegisteredEntry(states, ops, id, m);
    LastGeneration(states, ops, i + 1, m + 1);
    StampRecurs(states[i + 1].lastGeneration, Registrations(states, ops, i + 1, m + 1));
  }

  /** The registration an entry present after operation `i` stems from. */
  lemma {:induction false} Occupant(states: seq<Table>, ops: seq<Op>, id: string, i: nat, j: nat) returns (m: nat)
    requires IsRun(states, ops) && RegistersAt(states, ops, id, i) && i < j <= |ops|
    requires id in states[j].entries
    ensures i <= m < j && RegistersAt(states, ops, id, m) && Unbroken(states, id, m, j)
    decreases j
  {
    if RegistersAt(states, ops, id, j - 1) {
      m := j - 1;
    } else {
      assert StepAt(states, ops, j - 1);
      m := Occupant(states, ops, id, i, j - 1);
    }
  }

  /**
    Guarded cleanup, with any number of registrations in between: it removes whatever
    registration `m` of its id is in the table exactly if the registrations since its own are a
    multiple of 2^64 - 1, its own being the case of none. With no entry it does nothing.
   */
  lemma GuardedCleanupHits(states: seq<Table>, ops: seq<Op>, id: string, i: nat, j: nat) returns (m: nat)
    requires IsRun(states, ops) && RegistersAt(states, ops, id, i) && i < j < |ops|
    requires id in states[i + 1].entries && ops[j] == RemoveGuarded(id, states[i + 1].entries[id].generation)
    ensures id !in states[j].entries ==> states[j + 1] == states[j]
    ensures id in states[j].entries ==>
              && i <= m < j && RegistersAt(states, ops, id, m) && Unbroken(states, id, m, j)
              && states[j + 1] == if Registrations(states, ops, i + 1, m + 1) % PERIOD == 0
                                  then states[j].(entries := states[j].entries - {id}) else states[j]
  {
    m := i;
    assert StepAt(states, ops, j);
    if id in states[j].entries {
      m := Occupant(states, ops, id, i, j);
      SameGenerationIff(states, ops, id, i, m);
      assert Lookup(states[j].entries, id) == Lookup(states[m + 1].entries, id);
    }
  }

  /** A new table after `k` registrations of one id, the last one waiting for sender `k - 1`. */
  function Refilled(id: string, k: nat): Table {
    if k == 0 then EmptyTable
    else Table(map[id := Entry(Stamp(1, k - 1), Iq(k - 1))], Stamp(1, k - 1), 0)
  }

  lemma RefilledNext(id: string, k: nat)
    ensures Apply(Refilled(id, k), Insert(id, Iq(k))) == Refilled(id, k + 1)
  {
    if k > 0 {
      StampNext(1, k - 1);
    }
  }

  /** Such a run exists: cleaning up after the first of 2^64 registrations of an id removes the last one. */
  lemma CleanupHitsAnother(id: string) returns (states: seq<Table>, ops: seq<Op>)
    ensures IsRun(states, ops) && |ops| == PERIOD + 2 && states[0] == EmptyTable
    ensures Lookup(states[1].entries, id) == Some(Entry(1, Iq(0)))
    ensures Lookup(states[PERIOD + 1].entries, id) == Some(Entry(1, Iq(PERIOD)))
    ensures ops[PERIOD + 1] == RemoveGuarded(id, 1) && id !in states[PERIOD + 2].entries
  {
    var emptied := Refilled(id, PERIOD + 1).(entries := map[]);
    states := seq(PERIOD + 2, k requires 0 <= k < PERIOD + 2 => Refilled(id, k)) + [emptied];
    ops := seq(PERIOD + 1, k requires 0 <= k < PERIOD + 1 => Insert(id, Iq(k))) + [RemoveGuarded(id, 1)];
    forall k: nat | k < |ops| ensures StepAt(states, ops, k) {
      if k <= PERIOD {
        RefilledNext(id, k);
      } else {
        StampRecurs(1, PERIOD);
        assert map[id := Entry(1, Iq(PERIOD))] - {id} == map[];
      }
    }
    StampRecurs(1, PERIOD);
  }

  // ------------------------------------------------------------------
  // Waiters handed out
  // ------------------------------------------------------------------

  /** The entry an operation takes out of the table and gives to its caller. */
  ghost function HandedOut(t: Table, op: Op): Option<Entry> {
    match op
    case Insert(id, _) => Lookup(t.entries, id)
    case Remove(id) => Lookup(t.entries, id)
    case TakeStream(id) => if id in t.entries && t.entries[id].waiter.Stream? then Some(t.entries[id]) else None
    case _ => None
  }

  /** Operation `m` made the entry under `id` at `k`, and no registration of `id` came since. */
  ghost predicate Latest(states: seq<Table>, ops: seq<Op>, id: string, m: nat, k: nat) {
    && m < k <= |ops| < |states| && RegistersAt(states, ops, id, m) && Unbroken(states, id, m, k)
    && forall j :: m < j < k ==> !RegistersAt(states, ops, id, j)
  }

  /** In a run of a new table every entry stems from the latest registration of its id. */
  lemma {:induction false} LatestRegistration(states: seq<Table>, ops: seq<Op>, id: string, k: nat) returns (m: nat)
    requires IsRun(states, ops) && states[0] == EmptyTable && k <= |ops| && id in states[k].entries
    ensures Latest(states, ops, id, m, k)
    decreases k
  {
    if RegistersAt(states, ops, id, k - 1) {
      m := k - 1;
    } else {
      assert StepAt(states, ops, k - 1);
      m := LatestRegistration(states, ops, id, k - 1);
    }
  }

  /** A handed-out entry is gone, or replaced by the registration that pushed it out. */
  lemma HandedOutIsGone(states: seq<Table>, ops: seq<Op>, k: nat)
    requires IsRun(states, ops) && k < |ops| && HandedOut(states[k], ops[k]).Some?
    ensures ops[k].id in states[k].entries
    ensures ops[k].id !in states[k + 1].entries || RegistersAt(states, ops, ops[k].id, k)
  {
    assert StepAt(states, ops, k);
  }

  /**
    Whatever a run of a new table hands out is the waiter last registered under that id, as it
    was registered; and no registration is handed out twice: of two hand-outs under an id, the
    second is of a registration made at or after the first.
   */
  lemma HandedOutOnce(states: seq<Table>, ops: seq<Op>, k: nat, n: nat) returns (first: nat, second: nat)
    requires IsRun(states, ops) && states[0] == EmptyTable && k < n < |ops|
    requires HandedOut(states[k], ops[k]).Some? && HandedOut(states[n], ops[n]).Some? && ops[k].id == ops[n].id
    ensures Latest(states, ops, ops[k].id, first, k) && Latest(states, ops, ops[n].id, second, n)
    ensures HandedOut(states[k], ops[k]).value.waiter == ops[first].waiter
    ensures HandedOut(states[n], ops[n]).value.waiter == ops[second].waiter
    ensures first < k <= second < n
  {
    var id := ops[k].id;
    HandedOutIsGone(states, ops, k);
    HandedOutIsGone(states, ops, n);
    first := LatestRegistration(states, ops, id, k);
    second := LatestRegistration(states, ops, id, n);
    RegisteredEntry(states, ops, id, first);
    RegisteredEntry(states, ops, id, second);
    assert Lookup(states[k].entries, id) == Lookup(states[first + 1].entries, id);
    assert Lookup(states[n].entries, id) == Lookup(states[second + 1].entries, id);
  }

  // ------------------------------------------------------------------
  // Sweeps
  // ------------------------------------------------------------------

  ghost function Sweeps(ops: seq<Op>, i: nat, k: nat): nat
    requires i <= k <= |ops|
    decreases k
  {
    if i == k then 0 else Sweeps(ops, i, k - 1) + (if ops[k - 1].DropExpiredPhash? then 1 else 0)
  }

  /** An operation that only a sweep's age rule could make touch `id`. */
  predicate LeavesAlone(op: Op, id: string) {
    op.DropExpiredPhash? || (!op.Clear? && op.id != id)
  }

  lemma LeftAlone(t: Table, op: Op, id: string)
    requires LeavesAlone(op, id)
    ensures Lookup(Apply(t, op).entries, id) ==
            if op.DropExpiredPhash? && id in t.entries && !Survives(t.entries[id].waiter, t.sweepEpoch)
            then None else Lookup(t.entries, id)
  {
  }

  /**
    A phash waiter stamped with the current epoch and otherwise left alone survives exactly
    one sweep, unless it was stamped in the very last epoch before the counter wraps: that
    one is never swept. Waiters of the other kinds are never swept.
   */
  lemma {:induction false} SurvivesExactlyOneSweep(states: seq<Table>, ops: seq<Op>, id: string, i: nat, k: nat)
    requires IsRun(states, ops) && i <= k <= |ops| && id in states[i].entries
    requires var w := states[i].entries[id].waiter; w.IsPhash() ==> w.registeredEpoch == states[i].sweepEpoch
    requires forall m :: i <= m < k ==> LeavesAlone(ops[m], id)
    ensures var e := states[i].entries[id];
            Lookup(states[k].entries, id) ==
              if !e.waiter.IsPhash() || e.waiter.registeredEpoch == U64_SIZE - 1 || Sweeps(ops, i, k) <= 1
              then Some(e) else None
    ensures Sweeps(ops, i, k) == 0 ==> states[k].sweepEpoch == states[i].sweepEpoch
    ensures Sweeps(ops, i, k) == 1 ==> states[k].sweepEpoch == WrappingIncrement(states[i].sweepEpoch)
    decreases k
  {
    if i < k {
      SurvivesExactlyOneSweep(states, ops, id, i, k - 1);
      assert StepAt(states, ops, k - 1);
      LeftAlone(states[k - 1], ops[k - 1], id);
      RunStep(states, ops, k - 1, id);
    }
  }

  /** Every phash waiter belongs to the current epoch or the one before it. */
  ghost predicate Fresh(t: Table) {
    forall id :: id in t.entries && t.entries[id].waiter.IsPhash() ==>
      t.entries[id].waiter.registeredEpoch <= t.sweepEpoch <= t.entries[id].waiter.registeredEpoch + 1
  }

  /** Registrations stamp phash waiters with the epoch the table is in. */
  predicate Stamped(t: Table, op: Op) {
    (op.Insert? || op.TryInsertGuarded?) && op.waiter.IsPhash() ==> op.waiter.registeredEpoch == t.sweepEpoch
  }

  lemma StepKeepsFresh(t: Table, op: Op)
    requires Fresh(t) && Stamped(t, op)
    requires op.DropExpiredPhash? ==> t.sweepEpoch < U64_SIZE - 1
    ensures Fresh(Apply(t, op))
  {
  }

  lemma {:induction false} EpochCountsSweeps(states: seq<Table>, ops: seq<Op>, k: nat)
    requires IsRun(states, ops) && states[0] == EmptyTable && k <= |ops| && Sweeps(ops, 0, k) < U64_SIZE
    ensures states[k].sweepEpoch == Sweeps(ops, 0, k)
  {
    if k > 0 {
      EpochCountsSweeps(states, ops, k - 1);
      RunStep(states, ops, k - 1, "");
    }
  }

  /** Over fewer than 2^64 sweeps of a new table no phash waiter is older than one epoch. */
  lemma {:induction false} EpochsStayFresh(states: seq<Table>, ops: seq<Op>, k: nat)
    requires IsRun(states, ops) && states[0] == EmptyTable && k <= |ops| && Sweeps(ops, 0, k) < U64_SIZE
    requires forall m :: 0 <= m < k ==> Stamped(states[m], ops[m])
    ensures Fresh(states[k])
  {
    if k > 0 {
      EpochsStayFresh(states, ops, k - 1);
      EpochCountsSweeps(states, ops, k - 1);
      assert StepAt(states, ops, k - 1);
      StepKeepsFresh(states[k - 1], ops[k - 1]);
    }
  }
}
