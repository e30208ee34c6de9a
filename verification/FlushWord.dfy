/**
  The packed atomic word of a flush scope (src/flush_scope.rs).

  Bit 0 says the scope is closed to new work; bits 1.. count the live guards.
  Every writer is one read-modify-write on this word, so each operation below is a
  single atomic step. Bit operations are written arithmetically: `w & 1` is `w % 2`
  and `w >> 1` is `w / 2`.
 */
module FlushWord {
  import opened Common

  const CLOSED: nat := 1
  const ONE_TRACKED: nat := 2

  /** A 64-bit `usize`. */
  type Word = U64

  predicate IsClosed(w: Word) {
    w % 2 == CLOSED
  }

  function Tracked(w: Word): nat {
    w / 2
  }

  function Bit(closed: bool): nat {
    if closed then CLOSED else 0
  }

  /** `fetch_or(CLOSED)` */
  function SetClosed(w: Word): Word {
    w - w % 2 + CLOSED
  }

  /** `fetch_and(!CLOSED)` */
  function ClearClosed(w: Word): Word {
    w - w % 2
  }

  function CheckedAdd(w: Word, n: nat): Option<Word> {
    if w + n < U64_SIZE then Some(w + n) else None
  }

  /** The closure `try_track` hands to `fetch_update`. */
  function TrackUpdate(w: Word): Option<Word> {
    if IsClosed(w) then None else CheckedAdd(w, ONE_TRACKED)
  }

  /** `fetch_sub(ONE_TRACKED)`, which wraps on underflow. */
  function SubTracked(w: Word): Word {
    if w >= ONE_TRACKED then w - ONE_TRACKED else w + U64_SIZE - ONE_TRACKED
  }

  /** The word and the pair (closed, count) determine each other. */
  lemma PairDeterminesWord(w: Word, closed: bool, count: nat)
    ensures w == 2 * count + Bit(closed) <==> IsClosed(w) == closed && Tracked(w) == count
  {
  }

  /** The scope object: its atomic word, and the guards that are alive. */
  class FlushScope {
    var state: Word
    ghost var live: set<nat>

    ghost predicate Valid()
      reads this
    {
      Tracked(state) == |live|
    }

    constructor ()
      ensures Valid() && live == {} && !IsClosed(state)
    {
      state := 0;
      live := {};
    }

    method Close()
      requires Valid()
      modifies this`state
      ensures Valid() && IsClosed(state) && Tracked(state) == Tracked(old(state))
      ensures state == SetClosed(old(state))
    {
      state := SetClosed(state);
    }

    method Reopen()
      requires Valid()
      modifies this`state
      ensures Valid() && !IsClosed(state) && Tracked(state) == Tracked(old(state))
      ensures state == ClearClosed(old(state))
    {
      state := ClearClosed(state);
    }

    /** Refused exactly when the scope is closed or the count is saturated; a refusal changes nothing. */
    method TryTrack(ghost id: nat) returns (granted: bool)
      requires Valid() && id !in live
      modifies this
      ensures Valid()
      ensures granted <==> !old(IsClosed(state)) && |old(live)| < U64_SIZE / 2 - 1
      ensures granted ==> live == old(live) + {id} && !IsClosed(state)
      ensures !granted ==> state == old(state) && live == old(live)
      ensures TrackUpdate(old(state)) == if granted then Some(state) else None
    {
      var update := TrackUpdate(state);
      granted := update.Some?;
      if granted {
        state := update.value;
        live := live + {id};
      }
    }

    /** Dropping a live guard never wraps, keeps the closed bit, and reports the 1-to-0 edge exactly. */
    method DropGuard(ghost id: nat) returns (notify: bool)
      requires Valid() && id in live
      modifies this
      ensures Valid() && live == old(live) - {id}
      ensures state == old(state) - ONE_TRACKED
      ensures IsClosed(state) == old(IsClosed(state))
      ensures notify <==> live == {}
      ensures state == SubTracked(old(state))
    {
      var previous := state;
      assert |live - {id}| == |live| - 1;
      state := SubTracked(state);
      live := live - {id};
      notify := previous / 2 == 1;
    }

    method Pending() returns (count: nat)
      requires Valid()
      ensures count == |live|
    {
      count := state / 2;
    }
  }
}
