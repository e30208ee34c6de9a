/**
  The table of pending IQ and ack waiters (src/client.rs): registrations carry a generation,
  phash waiters carry the sweep epoch they were registered in, and the number of stream
  waiters is mirrored in a counter that is read without the table's lock.
 */
module ResponseWaiters {
  import opened Common

  /** The generations: 1 .. 2^64 - 1, so one short of the size of the type. */
  const PERIOD: nat := U64_SIZE - 1

  type Generation = n: nat | 0 < n < U64_SIZE witness 1

  /** What a pending entry waits to do once its response arrives. */
  datatype Waiter =
    | Iq(sender: nat)
    | Phash(expected: string, registeredEpoch: U64)
    | GroupPhash(expected: string, registeredEpoch: U64, snapshot: nat)
    | Stream(sink: nat)
  {
    predicate IsPhash() {
      Phash? || GroupPhash?
    }
  }

  datatype Entry = Entry(generation: Generation, waiter: Waiter)

  type Entries = map<string, Entry>

  function StreamIds(entries: Entries): set<string> {
    set id | id in entries && entries[id].waiter.Stream?
  }

  function Lookup(entries: Entries, id: string): Option<Entry> {
    if id in entries then Some(entries[id]) else None
  }

  /** `wrapping_add(1)`, skipping zero. */
  function NextGeneration(last: U64): Generation {
    if last == U64_SIZE - 1 then 1 else last + 1
  }

  predicate Survives(waiter: Waiter, epoch: U64) {
    waiter.IsPhash() ==> waiter.registeredEpoch >= epoch
  }

  function Sweep(entries: Entries, epoch: U64): Entries {
    map id | id in entries && Survives(entries[id].waiter, epoch) :: entries[id]
  }

  // ------------------------------------------------------------------
  // The table as a value, and the table as an object
  // ------------------------------------------------------------------

  datatype Table = Table(entries: Entries, lastGeneration: U64, sweepEpoch: U64)

  const EmptyTable := Table(map[], 0, 0)

  datatype Op =
    | TryInsertGuarded(id: string, waiter: Waiter)
    | Insert(id: string, waiter: Waiter)
    | Remove(id: string)
    | TakeStream(id: string)
    | DropExpiredPhash
    | RemoveGuarded(id: string, generation: Generation)
    | Clear

  /** Whether an operation registers its waiter under a new generation. */
  predicate Registers(t: Table, op: Op) {
    op.Insert? || (op.TryInsertGuarded? && op.id !in t.entries)
  }

  function Register(t: Table, id: string, waiter: Waiter): Table {
    var generation := NextGeneration(t.lastGeneration);
    t.(entries := t.entries[id := Entry(generation, waiter)], lastGeneration := generation)
  }

  function Apply(t: Table, op: Op): Table {
    match op
    case TryInsertGuarded(id, waiter) => if id in t.entries then t else Register(t, id, waiter)
    case Insert(id, waiter) => Register(t, id, waiter)
    case Remove(id) => t.(entries := t.entries - {id})
    case TakeStream(id) => if id in StreamIds(t.entries) then t.(entries := t.entries - {id}) else t
    case DropExpiredPhash => t.(entries := Sweep(t.entries, t.sweepEpoch), sweepEpoch := WrappingIncrement(t.sweepEpoch))
    case RemoveGuarded(id, generation) =>
      if id in t.entries && t.entries[id].generation == generation then t.(entries := t.entries - {id}) else t
    case Clear => t.(entries := map[])
  }

  /** A moment a lock-free reader may observe. */
  datatype Moment = Moment(counter: nat, entries: Entries)

  predicate Covered(m: Moment) {
    m.counter >= Streams(m.entries)
  }

  ghost predicate AllCovered(seen: seq<Moment>) {
    forall k :: 0 <= k < |seen| ==> Covered(seen[k])
  }

  /** The moment at which only a stream waiter's counter has just moved; none for another waiter. */
  function Counting(waiter: Waiter, counter: nat, entries: Entries): seq<Moment> {
    if waiter.Stream? then [Moment(counter, entries)] else []
  }

  /** How many stream waiters the table holds, and how many of them under `id`. */
  function Streams(entries: Entries): nat {
    |StreamIds(entries)|
  }

  function StreamAt(entries: Entries, id: string): nat {
    if id in entries && entries[id].waiter.Stream? then 1 else 0
  }

  lemma StreamsAfterRemove(entries: Entries, id: string)
    ensures Streams(entries - {id}) + StreamAt(entries, id) == Streams(entries)
  {
    assert StreamIds(entries - {id}) == StreamIds(entries) - {id};
  }

  lemma StreamsAfterPut(entries: Entries, id: string, e: Entry)
    ensures Streams(entries[id := e]) + StreamAt(entries, id) == Streams(entries) + (if e.waiter.Stream? then 1 else 0)
  {
    StreamsAfterRemove(entries, id);
    var put := entries[id := e];
    assert put - {id} == entries - {id};
    StreamsAfterRemove(put, id);
  }

  lemma StreamsAfterSweep(entries: Entries, epoch: U64)
    ensures Streams(Sweep(entries, epoch)) == Streams(entries)
  {
    assert StreamIds(Sweep(entries, epoch)) == StreamIds(entries);
  }

  /**
    The table with its mirrored counter. `seen` records the table and the counter after
    every single write to either, so it holds every moment a lock-free reader can meet.
   */
  class ResponseWaiterMap {
    var entries: Entries
    var lastGeneration: U64
    var sweepEpoch: U64
    var streamWaiters: nat
    ghost var seen: seq<Moment>

    /** Between operations the counter is exact; at every moment it has never been too low. */
    ghost predicate Valid()
      reads this
    {
      streamWaiters == Streams(entries) && AllCovered(seen)
    }

    ghost function View(): Table
      reads this
    {
      Table(entries, lastGeneration, sweepEpoch)
    }

    constructor ()
      ensures Valid() && View() == EmptyTable
    {
      entries, lastGeneration, sweepEpoch, streamWaiters := map[], 0, 0, 0;
      seen := [];
    }

    method SetEntries(next: Entries)
      requires AllCovered(seen) && Covered(Moment(streamWaiters, next))
      modifies this`entries, this`seen
      ensures entries == next && seen == old(seen) + [Moment(streamWaiters, next)] && AllCovered(seen)
    {
      entries := next;
      seen := seen + [Moment(streamWaiters, entries)];
    }

    method SetCounter(next: nat)
      requires AllCovered(seen) && Covered(Moment(next, entries))
      modifies this`streamWaiters, this`seen
      ensures streamWaiters == next && seen == old(seen) + [Moment(next, entries)] && AllCovered(seen)
    {
      streamWaiters := next;
      seen := seen + [Moment(streamWaiters, entries)];
    }

    method NoteAdded(waiter: Waiter)
      requires AllCovered(seen) && streamWaiters >= Streams(entries)
      modifies this`streamWaiters, this`seen
      ensures streamWaiters == old(streamWaiters) + (if waiter.Stream? then 1 else 0)
      ensures seen == old(seen) + Counting(waiter, streamWaiters, entries) && AllCovered(seen)
    {
      if waiter.Stream? {
        SetCounter(streamWaiters + 1);
      }
    }

    /** The decrement neither underflows nor undercounts: the removed waiter was still counted. */
    method NoteRemoved(waiter: Waiter)
      requires AllCovered(seen) && (waiter.Stream? ==> streamWaiters > Streams(entries))
      modifies this`streamWaiters, this`seen
      ensures streamWaiters == old(streamWaiters) - (if waiter.Stream? then 1 else 0)
      ensures seen == old(seen) + Counting(waiter, streamWaiters, entries) && AllCovered(seen)
    {
      if waiter.Stream? {
        SetCounter(streamWaiters - 1);
      }
    }

    /** Terminates although it loops, and never yields zero. */
    method NextGenerationStamp() returns (generation: Generation)
      modifies this`lastGeneration
      ensures generation == lastGeneration == NextGeneration(old(lastGeneration))
    {
      while true
        invariant lastGeneration == old(lastGeneration) || (old(lastGeneration) == U64_SIZE - 1 && lastGeneration == 0)
        decreases if lastGeneration == U64_SIZE - 1 then 1 else 0
      {
        lastGeneration := (lastGeneration + 1) % U64_SIZE;
        if lastGeneration != 0 {
          return lastGeneration;
        }
      }
    }

    method TryInsertGuardedWaiter(id: string, waiter: Waiter) returns (r: Option<Generation>)
      requires Valid()
      modifies this
      ensures Valid()
      ensures seen == old(seen) + if id in old(entries) then []
                                  else Counting(waiter, streamWaiters, old(entries)) + [Moment(streamWaiters, entries)]
      ensures View() == Apply(old(View()), TryInsertGuarded(id, waiter))
      ensures r.None? <==> id in old(entries)
      ensures entries == if r.None? then old(entries) else old(entries)[id := Entry(r.value, waiter)]
      ensures sweepEpoch == old(sweepEpoch)
    {
      if id in entries {
        return None;
      }
      var generation := NextGenerationStamp();
      NoteAdded(waiter);
      StreamsAfterPut(entries, id, Entry(generation, waiter));
      SetEntries(entries[id := Entry(generation, waiter)]);
      r := Some(generation);
    }

    method InsertWaiter(id: string, waiter: Waiter) returns (replaced: Option<Waiter>)
      requires Valid()
      modifies this
      ensures Valid()
      ensures var counted := old(streamWaiters) + (if waiter.Stream? then 1 else 0);
              seen == old(seen) + Counting(waiter, counted, old(entries)) + [Moment(counted, entries)]
                    + if replaced.Some? then Counting(replaced.value, streamWaiters, entries) else []
      ensures View() == Apply(old(View()), Insert(id, waiter))
      ensures id in entries && entries[id].waiter == waiter && entries - {id} == old(entries) - {id}
      ensures sweepEpoch == old(sweepEpoch)
      ensures replaced == if id in old(entries) then Some(old(entries)[id].waiter) else None
    {
      var generation := NextGenerationStamp();
      NoteAdded(waiter);
      StreamsAfterPut(entries, id, Entry(generation, waiter));
      replaced := if id in entries then Some(entries[id].waiter) else None;
      SetEntries(entries[id := Entry(generation, waiter)]);
      if replaced.Some? {
        NoteRemoved(replaced.value);
      }
    }

    method RemoveWaiter(id: string) returns (removed: Option<Waiter>)
      requires Valid()
      modifies this
      ensures Valid()
      ensures seen == old(seen) + [Moment(old(streamWaiters), entries)]
                    + if removed.Some? then Counting(removed.value, streamWaiters, entries) else []
      ensures View() == Apply(old(View()), Remove(id))
      ensures id !in entries && entries == old(entries) - {id}
      ensures lastGeneration == old(lastGeneration) && sweepEpoch == old(sweepEpoch)
      ensures removed == if id in old(entries) then Some(old(entries)[id].waiter) else None
    {
      removed := if id in entries then Some(entries[id].waiter) else None;
      StreamsAfterRemove(entries, id);
      SetEntries(entries - {id});
      if removed.Some? {
        NoteRemoved(removed.value);
      }
    }

    method TakeStreamWaiter(id: string) returns (sink: Option<nat>)
      requires Valid()
      modifies this
      ensures Valid()
      ensures seen == old(seen) + if sink.None? then []
                                  else [Moment(old(streamWaiters), entries), Moment(streamWaiters, entries)]
      ensures View() == Apply(old(View()), TakeStream(id))
      ensures id !in StreamIds(entries) && entries == if sink.None? then old(entries) else old(entries) - {id}
      ensures lastGeneration == old(lastGeneration) && sweepEpoch == old(sweepEpoch)
      ensures sink.Some? <==> id in StreamIds(old(entries))
      ensures sink.Some? ==> Stream(sink.value) == old(entries)[id].waiter
    {
      if id !in entries || !entries[id].waiter.Stream? {
        return None;
      }
      var removed := RemoveWaiter(id);
      sink := Some(removed.value.sink);
    }

    method DropExpired()
      requires Valid()
      modifies this
      ensures Valid() && seen == old(seen) + [Moment(streamWaiters, entries)]
      ensures View() == Apply(old(View()), DropExpiredPhash)
      ensures forall id :: id in entries ==> id in old(entries) && entries[id] == old(entries)[id]
      ensures forall id :: id in old(entries) ==>
                (id in entries <==> match old(entries)[id].waiter
                                    case Phash(_, epoch) => epoch >= old(sweepEpoch)
                                    case GroupPhash(_, epoch, _) => epoch >= old(sweepEpoch)
                                    case _ => true)
      ensures lastGeneration == old(lastGeneration) && sweepEpoch == (old(sweepEpoch) + 1) % U64_SIZE
    {
      StreamsAfterSweep(entries, sweepEpoch);
      SetEntries(Sweep(entries, sweepEpoch));
      sweepEpoch := (sweepEpoch + 1) % U64_SIZE;
    }

    method RemoveGuardedWaiter(id: string, generation: Generation)
      requires Valid()
      modifies this
      ensures Valid()
      ensures if id in old(entries) && old(entries)[id].generation == generation
              then seen == old(seen) + [Moment(old(streamWaiters), entries)]
                         + Counting(old(entries)[id].waiter, streamWaiters, entries)
              else seen == old(seen)
      ensures View() == Apply(old(View()), RemoveGuarded(id, generation))
      ensures entries == if id in old(entries) && old(entries)[id].generation == generation
                         then old(entries) - {id} else old(entries)
      ensures lastGeneration == old(lastGeneration) && sweepEpoch == old(sweepEpoch)
    {
      if id in entries && entries[id].generation == generation {
        var _ := RemoveWaiter(id);
      }
    }

    method ClearAll()
      requires Valid()
      modifies this
      ensures Valid() && seen == old(seen) + [Moment(old(streamWaiters), map[]), Moment(0, map[])]
      ensures View() == Apply(old(View()), Clear)
      ensures entries == map[] && streamWaiters == 0
      ensures lastGeneration == old(lastGeneration) && sweepEpoch == old(sweepEpoch)
    {
      SetEntries(map[]);
      SetCounter(0);
    }
  }

  /** A lock-free reader that meets a zero counter misses no registered stream waiter. */
  lemma ZeroMeansNone(m: Moment, id: string)
    requires Covered(m) && m.counter == 0
    ensures id !in StreamIds(m.entries)
  {
  }
}
