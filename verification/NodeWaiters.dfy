/**
  Waiters for incoming stanzas (src/client.rs): a list scanned with in-place swap-removal,
  and a counter that lets the read loop skip the scan when nobody waits.
 */
module NodeWaiters {
  datatype Node = Node(tag: string, attrs: map<string, string>)

  datatype NodeFilter = NodeFilter(tag: string, attrs: seq<(string, string)>)

  /** A waiter, with whether its receiver is already gone. */
  datatype NodeWaiter = NodeWaiter(id: nat, filter: NodeFilter, canceled: bool)

  /** The tag and every listed attribute must match; extra attributes of the node do not matter. */
  predicate Matches(filter: NodeFilter, node: Node) {
    && node.tag == filter.tag
    && forall k :: 0 <= k < |filter.attrs| ==>
         filter.attrs[k].0 in node.attrs && node.attrs[filter.attrs[k].0] == filter.attrs[k].1
  }

  /** A filter without attributes matches by tag alone, and each attribute added must be there with its value. */
  lemma MatchesByAttribute(filter: NodeFilter, name: string, value: string, node: Node)
    ensures Matches(NodeFilter(filter.tag, []), node) <==> node.tag == filter.tag
    ensures Matches(NodeFilter(filter.tag, filter.attrs + [(name, value)]), node) <==>
              Matches(filter, node) && name in node.attrs && node.attrs[name] == value
  {
    var more := NodeFilter(filter.tag, filter.attrs + [(name, value)]);
    if Matches(more, node) {
      assert more.attrs[|filter.attrs|] == (name, value);
      assert forall k :: 0 <= k < |filter.attrs| ==> filter.attrs[k] == more.attrs[k];
    }
  }

  predicate Served(w: NodeWaiter, node: Node) {
    !w.canceled && Matches(w.filter, node)
  }

  predicate Kept(w: NodeWaiter, node: Node) {
    !w.canceled && !Matches(w.filter, node)
  }

  /** What a lock-free reader of the counter may meet; `pending` waiters are counted and not yet in the list. */
  datatype Moment = Moment(count: nat, waiters: seq<NodeWaiter>, pending: nat)

  ghost predicate NeverTooLow(seen: seq<Moment>) {
    forall k :: 0 <= k < |seen| ==> seen[k].count >= |seen[k].waiters| + seen[k].pending
  }

  /** Later moments, all with this many registrations under way. */
  ghost predicate Continues(before: seq<Moment>, after: seq<Moment>, pending: nat) {
    before <= after && forall k :: |before| <= k < |after| ==> after[k].pending == pending
  }

  lemma ContinuesOn(before: seq<Moment>, mid: seq<Moment>, a: Moment, b: Moment, pending: nat)
    requires Continues(before, mid, pending) && a.pending == b.pending == pending
    ensures Continues(before, mid + [a, b], pending)
  {
  }

  /**
    A registration counts its waiter before it takes the lock and pushes it, so other
    registrations and resolve passes run in between. `seen` records every single write.
   */
  class NodeWaiterList {
    var waiters: seq<NodeWaiter>
    var count: nat
    ghost var pending: nat
    ghost var seen: seq<Moment>

    /** Between steps the counter is exact; at every moment it has never been too low. */
    ghost predicate Valid()
      reads this
    {
      count == |waiters| + pending && NeverTooLow(seen)
    }

    ghost function Now(): Moment
      reads this
    {
      Moment(count, waiters, pending)
    }

    constructor ()
      ensures Valid() && waiters == [] && pending == 0
    {
      waiters, count, pending, seen := [], 0, 0, [];
    }

    /** The first step of a registration. */
    method CountWaiter()
      requires Valid()
      modifies this
      ensures Valid() && waiters == old(waiters) && pending == old(pending) + 1
      ensures seen == old(seen) + [Now()]
    {
      count := count + 1;
      pending := pending + 1;
      seen := seen + [Now()];
    }

    /** The second step, under the lock. */
    method PushWaiter(w: NodeWaiter)
      requires Valid() && pending > 0
      modifies this
      ensures Valid() && waiters == old(waiters) + [w] && pending == old(pending) - 1
      ensures seen == old(seen) + [Now()]
    {
      waiters := waiters + [w];
      pending := pending - 1;
      seen := seen + [Now()];
    }

    /** A registration with resolve passes between its steps: they neither miss its count nor touch its waiter. */
    method WaitForNode(w: NodeWaiter, between: seq<Node>)
      requires Valid()
      modifies this
      ensures Valid() && pending == old(pending) && old(seen) < seen
      ensures forall k :: |old(seen)| <= k < |seen| ==> seen[k].count > 0
      ensures waiters != [] && waiters[|waiters| - 1] == w
      ensures between == [] ==> waiters == old(waiters) + [w]
    {
      CountWaiter();
      for i := 0 to |between|
        invariant Valid() && pending == old(pending) + 1 && old(seen) < seen
        invariant forall k :: |old(seen)| <= k < |seen| ==> seen[k].count > 0
        invariant i == 0 ==> waiters == old(waiters)
      {
        ghost var before := seen;
        var _, _ := ResolveWaiters(between[i]);
        assert forall k :: |before| <= k < |seen| ==> seen[k].count >= |seen[k].waiters| + seen[k].pending;
      }
      PushWaiter(w);
    }

    /** `Vec::swap_remove`: the last waiter takes the removed one's place. */
    method SwapRemove(i: nat) returns (w: NodeWaiter)
      requires i < |waiters|
      modifies this`waiters
      ensures w == old(waiters)[i] && |waiters| == |old(waiters)| - 1
      ensures waiters[..i] == old(waiters)[..i]
      ensures multiset(waiters) + multiset{w} == multiset(old(waiters))
    {
      w := waiters[i];
      var last := |waiters| - 1;
      ghost var was := waiters;
      assert was == was[..last] + [was[last]];
      if i < last {
        assert was[..last] == was[..i] + [w] + was[i + 1..last];
        assert was[..last][i := was[last]] == was[..i] + [was[last]] + was[i + 1..last];
        waiters := waiters[..last][i := waiters[last]];
      } else {
        waiters := waiters[..last];
      }
    }

    /** The counter goes down only after the waiter is out of the list. */
    method RemoveAt(i: nat, ghost before: seq<Moment>) returns (w: NodeWaiter)
      requires Valid() && i < |waiters| && Continues(before, seen, pending)
      modifies this`waiters, this`count, this`seen
      ensures Valid() && seen == old(seen) + [Moment(old(count), waiters, pending), Now()]
      ensures Continues(before, seen, pending)
      ensures w == old(waiters)[i] && |waiters| == |old(waiters)| - 1
      ensures waiters[..i] == old(waiters)[..i]
      ensures multiset(waiters) + multiset{w} == multiset(old(waiters))
    {
      w := SwapRemove(i);
      seen := seen + [Now()];
      count := count - 1;
      seen := seen + [Now()];
      ContinuesOn(before, old(seen), Moment(old(count), waiters, pending), Now(), pending);
      assert seen == old(seen) + [Moment(old(count), waiters, pending), Now()];
    }

    /**
      Sends the node to the waiters in `served`: every live matching waiter, exactly once. The
      cancelled ones are dropped and precisely the rest are kept; the counter falls by exactly
      the number removed, and each waiter is examined exactly once.
     */
    method ResolveWaiters(node: Node) returns (served: multiset<NodeWaiter>, examined: nat)
      requires Valid()
      modifies this`waiters, this`count, this`seen
      ensures Valid() && Continues(old(seen), seen, pending)
      ensures forall w :: multiset(waiters)[w] == if Kept(w, node) then multiset(old(waiters))[w] else 0
      ensures forall w :: served[w] == if Served(w, node) then multiset(old(waiters))[w] else 0
      ensures examined == |old(waiters)|
    {
      ghost var removed: multiset<NodeWaiter> := multiset{};
      var i := 0;
      served, examined := multiset{}, 0;
      while i < |waiters|
        invariant i <= |waiters| && Valid() && Continues(old(seen), seen, pending)
        invariant multiset(waiters) + removed == multiset(old(waiters))
        invariant forall k :: 0 <= k < i ==> Kept(waiters[k], node)
        invariant forall w :: w in removed ==> !Kept(w, node)
        invariant forall w :: served[w] == if Served(w, node) then removed[w] else 0
        invariant examined == i + |removed| && |waiters| + |removed| == |old(waiters)|
        decreases |waiters| - i
      {
        examined := examined + 1;
        if waiters[i].canceled {
          var w := RemoveAt(i, old(seen));
          removed := removed + multiset{w};
        } else if Matches(waiters[i].filter, node) {
          var w := RemoveAt(i, old(seen));
          served := served + multiset{w};
          removed := removed + multiset{w};
        } else {
          i := i + 1;
        }
      }
      AllKept(waiters, removed, old(waiters), node);
    }
  }

  lemma AllKept(kept: seq<NodeWaiter>, removed: multiset<NodeWaiter>, all: seq<NodeWaiter>, node: Node)
    requires multiset(kept) + removed == multiset(all)
    requires forall k :: 0 <= k < |kept| ==> Kept(kept[k], node)
    requires forall w :: w in removed ==> !Kept(w, node)
    ensures forall w :: multiset(kept)[w] == if Kept(w, node) then multiset(all)[w] else 0
    ensures forall w :: Served(w, node) ==> removed[w] == multiset(all)[w]
  {
    forall w ensures multiset(kept)[w] == if Kept(w, node) then multiset(all)[w] else 0 {
      if !Kept(w, node) {
        assert w !in kept;
      }
    }
    forall w | Served(w, node) ensures removed[w] == multiset(all)[w] {
      assert w !in kept;
    }
  }

  /** So no cancelled waiter is served or kept, no live one is lost or doubled, and a matching one is served. */
  lemma ResolvedExactly(before: seq<NodeWaiter>, kept: seq<NodeWaiter>, served: multiset<NodeWaiter>, node: Node,
                        w: NodeWaiter)
    requires forall v :: multiset(kept)[v] == if Kept(v, node) then multiset(before)[v] else 0
    requires forall v :: served[v] == if Served(v, node) then multiset(before)[v] else 0
    ensures w.canceled ==> w !in kept && w !in served
    ensures !w.canceled ==> multiset(kept)[w] + served[w] == multiset(before)[w]
    ensures !w.canceled && w in before ==> (w in served <==> Matches(w.filter, node))
  {
    assert multiset(kept)[w] == if Kept(w, node) then multiset(before)[w] else 0;
    assert w in kept <==> multiset(kept)[w] > 0;
    assert w in before <==> multiset(before)[w] > 0;
  }

  /** A reader that meets a zero counter misses neither a listed waiter nor a registration under way. */
  lemma ZeroMeansNobodyWaits(seen: seq<Moment>, k: nat)
    requires NeverTooLow(seen) && k < |seen| && seen[k].count == 0
    ensures seen[k].waiters == [] && seen[k].pending == 0
  {
  }
}
