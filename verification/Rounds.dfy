/** Flush after flush: a frame that some transport accepted is never offered again, so what is sealed twice is what no
    transport accepted the first time. */
module Rounds {
  import opened PendingQueue
  import opened Flush

  /** One flush: its batch, its clock readings and what the outside does. */
  datatype Round = Round(batch: seq<RoutedFrame>, clock: Clock, o: Outside)

  ghost predicate IsPossible(r: Round) {
    GainsOnly(r.o) && Monotonic(r.clock)
  }

  function IDs(items: seq<Item>): set<nat> {
    set x | x in items :: x.id
  }

  function AcceptedIDs(order: seq<Item>, o: Outside): set<nat> {
    IDsAt(order, AcceptedPositions(order, o))
  }

  /** The round removed what it should: the condition of `PlacesDecide`. */
  ghost predicate IsSettled(order: seq<Item>, r: Round, ttl: int) {
    PlacesAgree(order, AcceptedPositions(order, r.o), ttl, r.clock.remove)
  }

  lemma {:induction false} CandidatesIncrease(order: seq<Item>, o: Outside, n: nat)
    requires n <= |order|
    ensures forall r, s :: 0 <= r < s < |Candidates(order, o, n)| ==>
      Candidates(order, o, n)[r] < Candidates(order, o, n)[s]
  {
    if n > 0 {
      CandidatesIncrease(order, o, n - 1);
      CandidatesInRange(order, o, n - 1);
    }
  }

  /** A flush seals a frame for the relay at most once. */
  lemma SealedOncePerFlush(order: seq<Item>, o: Outside, r: nat, s: nat)
    requires SentInOrder(order) && r < s < |Candidates(order, o, |order|)|
    ensures
      var cands := Candidates(order, o, |order|);
      cands[r] < cands[s] < |order| && order[cands[r]] != order[cands[s]]
  {
    var cands := Candidates(order, o, |order|);
    CandidatesInRange(order, o, |order|);
    CandidatesIncrease(order, o, |order|);
    assert SentBefore(order[cands[r]], order[cands[s]]);
  }

  /** What is left after a removal was there before. */
  lemma RemovedIsPart(s: seq<Item>, delivered: set<int>, ttl: int, now: int, later: int)
    ensures forall x :: x in Removed(s, delivered, ttl, now, later) ==> x in s
  {
    var live := Filter(s, Live(now, ttl));
    var kept := Filter(live, Without(IDsAt(SendOrder(live), delivered)));
    FilterMembers(s, Live(now, ttl));
    FilterMembers(live, Without(IDsAt(SendOrder(live), delivered)));
    FilterMembers(kept, Live(later, ttl));
  }

  lemma RightlyIsUnsent(pending: seq<Item>, accepted: set<int>, ttl: int, clock: Clock)
    ensures forall x :: x in Rightly(pending, accepted, ttl, clock) ==> x.id !in IDsAt(SendOrder(pending), accepted)
  {
    var unsent := Without(IDsAt(SendOrder(pending), accepted));
    FilterMembers(pending, unsent);
    FilterMembers(Filter(pending, unsent), Live(if accepted == {} then clock.remove else clock.removeEnd, ttl));
  }

  /** Ids that are gone for good: none of them is queued, and all were handed out. */
  ghost predicate AreGone(gone: set<nat>, frames: seq<Item>, nextID: nat) {
    gone !! IDs(frames) && forall id :: id in gone ==> id <= nextID
  }

  /** What is gone is neither offered in the next round nor queued after it. */
  lemma StaysGone(
    gone: set<nat>, caps: Caps, before: Contents, r: Round, order: seq<Item>, frames: seq<Item>, nextID: nat)
    requires AreGone(gone, before.items, before.nextID) && nextID >= before.nextID
    requires
      var pending := Pending(caps, before, r.batch, r.clock);
      && order == SendOrder(pending)
      && frames == Removed(pending, AcceptedPositions(order, r.o), caps.ttl, r.clock.remove, r.clock.removeEnd)
    ensures gone !! IDs(order) && AreGone(gone, frames, nextID)
  {
    var pending := Pending(caps, before, r.batch, r.clock);
    PendingIsOldOrNew(caps, before, r.batch, r.clock);
    SendOrderMembers(pending);
    RemovedIsPart(pending, AcceptedPositions(order, r.o), caps.ttl, r.clock.remove, r.clock.removeEnd);
  }

  /** What a settled round accepted is gone. */
  lemma AcceptedIsGone(caps: Caps, pending: seq<Item>, r: Round, order: seq<Item>, nextID: nat)
    requires order == SendOrder(pending) && forall x :: x in order ==> x.id <= nextID
    ensures AreGone(AcceptedIDs(order, r.o), Rightly(pending, AcceptedPositions(order, r.o), caps.ttl, r.clock), nextID)
  {
    RightlyIsUnsent(pending, AcceptedPositions(order, r.o), caps.ttl, r.clock);
    assert forall i :: 0 <= i < |order| ==> order[i] in order;
  }

  lemma GoneTogether(a: set<nat>, b: set<nat>, frames: seq<Item>, nextID: nat)
    requires AreGone(a, frames, nextID) && AreGone(b, frames, nextID)
    ensures AreGone(a + b, frames, nextID)
  {
  }

  /** The ids that are gone after the round, besides those that were gone before. */
  ghost function NewlyGone(order: seq<Item>, r: Round, ttl: int): set<nat> {
    if IsSettled(order, r, ttl) then AcceptedIDs(order, r.o) else {}
  }

  method OneFlush(q: LanPendingQueue, r: Round, ghost gone: set<nat>) returns (order: seq<Item>)
    requires q.Valid() && IsPossible(r) && AreGone(gone, q.frames, q.nextID)
    modifies q
    ensures q.Valid() && SentInOrder(order) && gone !! IDs(order)
    ensures AreGone(gone + NewlyGone(order, r, q.caps.ttl), q.frames, q.nextID)
  {
    ghost var before := q.View();
    var wire;
    order, wire := Run(q, r.batch, r.clock, r.o);
    StaysGone(gone, q.caps, before, r, order, q.frames, q.nextID);
    if IsSettled(order, r, q.caps.ttl) {
      AcceptedIsGone(q.caps, Pending(q.caps, before, r.batch, r.clock), r, order, q.nextID);
    }
    GoneTogether(gone, NewlyGone(order, r, q.caps.ttl), q.frames, q.nextID);
  }

  /** What a round made go away is offered in no later round. */
  ghost predicate NeverAgain(orders: seq<seq<Item>>, rounds: seq<Round>, ttl: int)
    requires |orders| <= |rounds|
  {
    forall t, u :: 0 <= t < u < |orders| ==> NewlyGone(orders[t], rounds[t], ttl) !! IDs(orders[u])
  }

  ghost predicate AllWithin(orders: seq<seq<Item>>, rounds: seq<Round>, ttl: int, gone: set<nat>)
    requires |orders| <= |rounds|
  {
    forall t :: 0 <= t < |orders| ==> NewlyGone(orders[t], rounds[t], ttl) <= gone
  }

  lemma OneMoreRound(orders: seq<seq<Item>>, order: seq<Item>, rounds: seq<Round>, ttl: int, gone: set<nat>)
    requires |orders| < |rounds| && NeverAgain(orders, rounds, ttl) && AllWithin(orders, rounds, ttl, gone)
    requires gone !! IDs(order)
    ensures NeverAgain(orders + [order], rounds, ttl)
    ensures AllWithin(orders + [order], rounds, ttl, gone + NewlyGone(order, rounds[|orders|], ttl))
  {
    var more := orders + [order];
    forall t, u | 0 <= t < u < |more| ensures NewlyGone(more[t], rounds[t], ttl) !! IDs(more[u]) {
      assert more[t] == orders[t];
      if u < |orders| {
        assert more[u] == orders[u];
      } else {
        assert NewlyGone(orders[t], rounds[t], ttl) <= gone;
      }
    }
  }

  /** Over any sequence of flushes, with anything expiring in between: a frame that a settled round accepted is offered
      to no transport in any later round. */
  method Flushes(q: LanPendingQueue, rounds: seq<Round>) returns (orders: seq<seq<Item>>)
    requires q.Valid() && forall t :: 0 <= t < |rounds| ==> IsPossible(rounds[t])
    modifies q
    ensures q.Valid() && |orders| == |rounds| && NeverAgain(orders, rounds, q.caps.ttl)
    ensures forall t :: 0 <= t < |orders| ==> SentInOrder(orders[t])
  {
    orders := [];
    ghost var gone := {};
    for i := 0 to |rounds|
      invariant q.Valid() && |orders| == i && AreGone(gone, q.frames, q.nextID)
      invariant NeverAgain(orders, rounds, q.caps.ttl) && AllWithin(orders, rounds, q.caps.ttl, gone)
      invariant forall t :: 0 <= t < i ==> SentInOrder(orders[t])
    {
      var order := OneFlush(q, rounds[i], gone);
      OneMoreRound(orders, order, rounds, q.caps.ttl, gone);
      gone := gone + NewlyGone(order, rounds[i], q.caps.ttl);
      orders := orders + [order];
    }
  }
}
