/** The flush of `sendPackets` in `cmd/UDPTunnelLAN/packet_runtime.go`: pending frames are offered to the direct path,
    the rest is sealed and offered to the UDP relay and then to the HTTP relay, and the positions that some transport
    accepted are removed from the queue. */
module Flush {
  import opened Basics
  import opened PendingQueue

  // ---------------------------------------------------------------------------------------------
  // Positions in the send order

  lemma {:induction false} FiltersCommute(s: seq<Item>, f: Item -> bool, g: Item -> bool)
    ensures Filter(Filter(s, f), g) == Filter(Filter(s, g), f)
  {
    if s != [] {
      var n := |s| - 1;
      FiltersCommute(s[..n], f, g);
      FilterConcat(Filter(s[..n], f), [s[n]], g);
      FilterConcat(Filter(s[..n], g), [s[n]], f);
    }
  }

  /** Expiry commutes with ordering. */
  lemma FilterOrder(s: seq<Item>, f: Item -> bool)
    ensures Filter(SendOrder(s), f) == SendOrder(Filter(s, f))
  {
    var a, b, c := Filter(s, OfPriority(0)), Filter(s, OfPriority(1)), Filter(s, OfPriority(2));
    FilterConcat(a + b, c, f);
    FilterConcat(a, b, f);
    FiltersCommute(s, OfPriority(0), f);
    FiltersCommute(s, OfPriority(1), f);
    FiltersCommute(s, OfPriority(2), f);
  }

  lemma {:induction false} SendOrderLength(s: seq<Item>)
    ensures |SendOrder(s)| == |s|
  {
    if s != [] {
      SendOrderLength(s[..|s| - 1]);
    }
  }

  lemma SendOrderMembers(s: seq<Item>)
    ensures |SendOrder(s)| == |s|
    ensures forall x :: x in SendOrder(s) <==> x in s
  {
    SendOrderLength(s);
    FilterMembers(s, OfPriority(0));
    FilterMembers(s, OfPriority(1));
    FilterMembers(s, OfPriority(2));
  }

  predicate SentBefore(x: Item, y: Item) {
    || Priority(x.frame) < Priority(y.frame)
    || (Priority(x.frame) == Priority(y.frame) && x.id < y.id)
  }

  ghost predicate SentInOrder(s: seq<Item>) {
    forall i, j :: 0 <= i < j < |s| ==> SentBefore(s[i], s[j])
  }

  lemma ClassInOrder(s: seq<Item>, p: nat)
    requires Ordered(s)
    ensures SentInOrder(Filter(s, OfPriority(p)))
    ensures forall i :: 0 <= i < |Filter(s, OfPriority(p))| ==> Priority(Filter(s, OfPriority(p))[i].frame) == p
  {
    FilterOrdered(s, OfPriority(p));
    FilterMembers(s, OfPriority(p));
  }

  /** The send order is the stable sort: the same items, urgent ones first, and arrival order within a class. */
  lemma SendOrderIsStableSort(s: seq<Item>)
    requires Ordered(s)
    ensures |SendOrder(s)| == |s| && SentInOrder(SendOrder(s))
    ensures forall x :: x in SendOrder(s) <==> x in s
  {
    SendOrderMembers(s);
    ClassInOrder(s, 0);
    ClassInOrder(s, 1);
    ClassInOrder(s, 2);
  }

  lemma OneItemPerID(s: seq<Item>, x: Item, y: Item)
    requires Ordered(s) && x in s && y in s && x.id == y.id
    ensures x == y
  {
    var i, j :| 0 <= i < |s| && s[i] == x && 0 <= j < |s| && s[j] == y;
    assert i == j;
  }

  lemma SendOrderIsInjective(s: seq<Item>, i: nat, j: nat)
    requires Ordered(s) && i < |SendOrder(s)| && j < |SendOrder(s)|
    requires SendOrder(s)[i].id == SendOrder(s)[j].id
    ensures i == j
  {
    SendOrderIsStableSort(s);
    var x, y := SendOrder(s)[i], SendOrder(s)[j];
    OneItemPerID(s, x, y);
    assert i < j ==> SentBefore(x, y);
    assert j < i ==> SentBefore(y, x);
  }

  /** What `Remove` leaves when it runs at `now`, and what it should leave: the live frames other than those that were
      at the delivered positions when the positions were handed out. */
  ghost predicate RemovesDelivered(s: seq<Item>, delivered: set<int>, ttl: int, now: int) {
    var live := Filter(s, Live(now, ttl));
    Filter(live, Without(IDsAt(SendOrder(live), delivered))) == Filter(live, Without(IDsAt(SendOrder(s), delivered)))
  }

  lemma {:induction false} SameFilter(s: seq<Item>, f: Item -> bool, g: Item -> bool)
    requires forall x :: x in s ==> (f(x) <==> g(x))
    ensures Filter(s, f) == Filter(s, g)
  {
    if s != [] {
      SameFilter(s[..|s| - 1], f, g);
      assert s[|s| - 1] in s;
    }
  }

  /** The place of position `k` among the live items. */
  function Place(order: seq<Item>, k: nat, ttl: int, now: int): nat
    requires k <= |order|
  {
    |Filter(order[..k], Live(now, ttl))|
  }

  /** A selected item is found at its place in the filtered list. */
  lemma SelectedAtPlace(t: seq<Item>, f: Item -> bool, k: nat)
    requires k < |t| && f(t[k])
    ensures |Filter(t[..k], f)| < |Filter(t, f)| && Filter(t, f)[|Filter(t[..k], f)|] == t[k]
  {
    var a, b := t[..k], t[k + 1..];
    assert t == a + ([t[k]] + b);
    FilterConcat(a, [t[k]] + b, f);
    FilterConcat([t[k]], b, f);
  }

  /** A position's id is looked up exactly by that position. */
  lemma IDOfPosition(s: seq<Item>, delivered: set<int>, k: nat)
    requires Ordered(s) && k < |SendOrder(s)|
    ensures SendOrder(s)[k].id in IDsAt(SendOrder(s), delivered) <==> k in delivered
  {
    var order := SendOrder(s);
    if order[k].id in IDsAt(order, delivered) {
      var i :| i in delivered && 0 <= i < |order| && order[i].id == order[k].id;
      SendOrderIsInjective(s, i, k);
    }
  }

  /** For every live position, it was delivered exactly when its place among the live ones was. */
  ghost predicate PlacesAgree(order: seq<Item>, delivered: set<int>, ttl: int, now: int) {
    forall k :: 0 <= k < |order| && Live(now, ttl)(order[k]) ==>
      (k in delivered <==> Place(order, k, ttl, now) in delivered)
  }

  /** Whether `Remove` would take a live frame out, and whether it should. */
  lemma LookupOfLive(s: seq<Item>, delivered: set<int>, ttl: int, now: int, k: nat)
    requires Ordered(s) && k < |SendOrder(s)| && Live(now, ttl)(SendOrder(s)[k])
    ensures
      var live, order := Filter(s, Live(now, ttl)), SendOrder(s);
      && order[k] in live
      && (order[k].id in IDsAt(SendOrder(live), delivered) <==> Place(order, k, ttl, now) in delivered)
      && (order[k].id in IDsAt(order, delivered) <==> k in delivered)
  {
    var live, order := Filter(s, Live(now, ttl)), SendOrder(s);
    FilterOrder(s, Live(now, ttl));
    SelectedAtPlace(order, Live(now, ttl), k);
    FilterOrdered(s, Live(now, ttl));
    SendOrderMembers(live);
    IDOfPosition(live, delivered, Place(order, k, ttl, now));
    IDOfPosition(s, delivered, k);
  }

  lemma PositionOfLive(s: seq<Item>, ttl: int, now: int, x: Item) returns (k: nat)
    requires x in Filter(s, Live(now, ttl))
    ensures k < |SendOrder(s)| && SendOrder(s)[k] == x && Live(now, ttl)(x)
  {
    FilterMembers(s, Live(now, ttl));
    SendOrderMembers(s);
    k :| 0 <= k < |SendOrder(s)| && SendOrder(s)[k] == x;
  }

  lemma AgreeingRemovesDelivered(s: seq<Item>, delivered: set<int>, ttl: int, now: int)
    requires Ordered(s) && PlacesAgree(SendOrder(s), delivered, ttl, now)
    ensures RemovesDelivered(s, delivered, ttl, now)
  {
    var live, order := Filter(s, Live(now, ttl)), SendOrder(s);
    var found, right := IDsAt(SendOrder(live), delivered), IDsAt(order, delivered);
    forall x | x in live ensures x.id in found <==> x.id in right {
      var k := PositionOfLive(s, ttl, now, x);
      LookupOfLive(s, delivered, ttl, now, k);
    }
    SameFilter(live, Without(found), Without(right));
  }

  lemma RemovedDeliveredAgrees(s: seq<Item>, delivered: set<int>, ttl: int, now: int, k: nat)
    requires Ordered(s) && RemovesDelivered(s, delivered, ttl, now)
    requires k < |SendOrder(s)| && Live(now, ttl)(SendOrder(s)[k])
    ensures k in delivered <==> Place(SendOrder(s), k, ttl, now) in delivered
  {
    var live, order := Filter(s, Live(now, ttl)), SendOrder(s);
    LookupOfLive(s, delivered, ttl, now, k);
    FilterMembers(live, Without(IDsAt(SendOrder(live), delivered)));
    FilterMembers(live, Without(IDsAt(order, delivered)));
  }

  /** One call of `Remove` by position leaves what it should exactly when, for every frame still live, its position was
      delivered if and only if its place among the live ones was. */
  lemma PlacesDecide(s: seq<Item>, delivered: set<int>, ttl: int, now: int)
    requires Ordered(s)
    ensures RemovesDelivered(s, delivered, ttl, now) <==> PlacesAgree(SendOrder(s), delivered, ttl, now)
  {
    if PlacesAgree(SendOrder(s), delivered, ttl, now) {
      AgreeingRemovesDelivered(s, delivered, ttl, now);
    }
    if RemovesDelivered(s, delivered, ttl, now) {
      forall k | 0 <= k < |SendOrder(s)| && Live(now, ttl)(SendOrder(s)[k])
        ensures k in delivered <==> Place(SendOrder(s), k, ttl, now) in delivered
      {
        RemovedDeliveredAgrees(s, delivered, ttl, now, k);
      }
    }
  }

  /** No live item follows an expired one. */
  ghost predicate LiveFirst(order: seq<Item>, ttl: int, now: int) {
    forall i, j :: 0 <= i < j < |order| && Live(now, ttl)(order[j]) ==> Live(now, ttl)(order[i])
  }

  lemma {:induction false} AllSelected(s: seq<Item>, f: Item -> bool)
    requires |Filter(s, f)| == |s|
    ensures forall i :: 0 <= i < |s| ==> f(s[i])
  {
    if s != [] {
      AllSelected(s[..|s| - 1], f);
      assert forall i :: 0 <= i < |s| - 1 ==> s[..|s| - 1][i] == s[i];
    }
  }

  lemma PlaceIsPosition(s: seq<Item>, f: Item -> bool)
    ensures |Filter(s, f)| == |s| <==> forall i :: 0 <= i < |s| ==> f(s[i])
  {
    if |Filter(s, f)| == |s| {
      AllSelected(s, f);
    } else if forall i :: 0 <= i < |s| ==> f(s[i]) {
      KeepAll(s, f);
    }
  }

  /** Live frames keep their positions exactly when the expired frames are a suffix of the send order. */
  lemma LiveFirstKeepsPlaces(order: seq<Item>, ttl: int, now: int)
    ensures LiveFirst(order, ttl, now) <==>
      forall k :: 0 <= k < |order| && Live(now, ttl)(order[k]) ==> Place(order, k, ttl, now) == k
  {
    forall k | 0 <= k < |order| && Live(now, ttl)(order[k])
      ensures Place(order, k, ttl, now) == k <==> forall i :: 0 <= i < k ==> Live(now, ttl)(order[i])
    {
      PlaceIsPosition(order[..k], Live(now, ttl));
      assert forall i :: 0 <= i < k ==> order[..k][i] == order[i];
    }
  }

  /** Removal by position is right whatever was delivered exactly when the frames that expired since the positions were
      handed out are a suffix of the send order. */
  lemma RemovalIsExact(s: seq<Item>, ttl: int, now: int)
    requires Ordered(s)
    ensures (forall delivered :: RemovesDelivered(s, delivered, ttl, now)) <==> LiveFirst(SendOrder(s), ttl, now)
  {
    var order := SendOrder(s);
    LiveFirstKeepsPlaces(order, ttl, now);
    forall delivered ensures LiveFirst(order, ttl, now) ==> RemovesDelivered(s, delivered, ttl, now) {
      PlacesDecide(s, delivered, ttl, now);
    }
    if forall delivered :: RemovesDelivered(s, delivered, ttl, now) {
      forall k | 0 <= k < |order| && Live(now, ttl)(order[k]) ensures Place(order, k, ttl, now) == k {
        assert RemovesDelivered(s, {k}, ttl, now);
        RemovedDeliveredAgrees(s, {k}, ttl, now, k);
      }
    }
  }

  lemma FilterTwo(x: Item, y: Item, g: Item -> bool)
    ensures Filter([x, y], g) == (if g(x) then [x] else []) + (if g(y) then [y] else [])
    ensures Filter([y], g) == if g(y) then [y] else []
  {
    FilterConcat([x], [y], g);
    assert [x] + [y] == [x, y];
  }

  lemma OneClass(x: Item, y: Item, p: nat)
    requires Priority(x.frame) == Priority(y.frame)
    ensures Filter([x, y], OfPriority(p)) == if p == Priority(x.frame) then [x, y] else []
    ensures Filter([y], OfPriority(p)) == if p == Priority(x.frame) then [y] else []
  {
    FilterTwo(x, y, OfPriority(p));
  }

  lemma OrderOfOneClass(x: Item, y: Item)
    requires Priority(x.frame) == Priority(y.frame)
    ensures SendOrder([x, y]) == [x, y] && SendOrder([y]) == [y]
  {
    OneClass(x, y, 0);
    OneClass(x, y, 1);
    OneClass(x, y, 2);
  }

  /** One frame is left at the lookup, and its position was delivered. */
  lemma OnlyOneLive(s: seq<Item>, second: Item, delivered: set<int>, ttl: int, now: int)
    requires Filter(s, Live(now, ttl)) == [second] == SendOrder([second]) && delivered == {0}
    ensures Removed(s, delivered, ttl, now, now) == []
  {
    var ids := IDsAt([second], delivered);
    assert [second][0].id in ids;
    FilterTwo(second, second, Without(ids));
  }

  /** Two frames of one class, of which the first expires after positions are handed out: delivering the first makes
      `Remove` discard the second, which no transport has seen. */
  lemma ExpiryMisdirectsRemoval(f: RoutedFrame)
    ensures
      var first, second := Item(f, 0, |f.payload|, 1), Item(f, 3, |f.payload|, 2);
      SendOrder([first, second]) == [first, second] && Removed([first, second], {0}, 5, 6, 6) == []
  {
    var first, second := Item(f, 0, |f.payload|, 1), Item(f, 3, |f.payload|, 2);
    OrderOfOneClass(first, second);
    FilterTwo(first, second, Live(6, 5));
    OnlyOneLive([first, second], second, {0}, 5, 6);
  }

  // ---------------------------------------------------------------------------------------------
  // The flush

  /** What the outside does during one flush. `direct` is asked for positions of the send order, `seal` and `udp` for
      positions in the list of sealed frames. Codecs are looked at at moments: moment `i` is when the first pass looks
      at position `i`, and the relay input is sealed after the first pass, one moment per frame. */
  datatype Outside = Outside(
    direct: nat -> bool,            // Send accepts the frame
    tx: (string, nat) -> bool,      // the peer's sending codec exists at that moment
    rx: (string, nat) -> bool,      // the peer's receiving codec exists at that moment
    seal: (nat, RoutedFrame) -> seq<Byte>,
    backoff: bool,
    udp: nat -> bool,               // the UDP relay accepts the frame
    httpConfigured: bool,
    httpAccepts: bool)

  /** A codec that exists stays. */
  ghost predicate GainsOnly(o: Outside) {
    forall peer, s: nat, t: nat :: s <= t && o.tx(peer, s) ==> o.tx(peer, t)
  }

  /** One clock reading per call that prunes. */
  datatype Clock = Clock(add: int, frames: int, stats: int, remove: int, removeEnd: int)

  /** Readings never go back. */
  predicate Monotonic(clock: Clock) {
    clock.add <= clock.frames <= clock.stats <= clock.remove <= clock.removeEnd
  }

  predicate IsCandidate(order: seq<Item>, o: Outside, i: nat)
    requires i < |order|
  {
    !o.direct(i) && o.tx(order[i].frame.dstDevice, i) && o.rx(order[i].frame.dstDevice, i)
  }

  /** Positions handed to the relay, in order. */
  function Candidates(order: seq<Item>, o: Outside, n: nat): seq<nat>
    requires n <= |order|
  {
    if n == 0 then []
    else if IsCandidate(order, o, n - 1) then Candidates(order, o, n - 1) + [n - 1]
    else Candidates(order, o, n - 1)
  }

  predicate RelayTakes(o: Outside, r: nat) {
    !o.backoff && (o.udp(r) || (o.httpConfigured && o.httpAccepts))
  }

  /** Some transport took the frame at position `i`. */
  predicate Accepted(order: seq<Item>, o: Outside, i: nat)
    requires i < |order|
  {
    var cands := Candidates(order, o, |order|);
    o.direct(i) || exists r :: 0 <= r < |cands| && cands[r] == i && RelayTakes(o, r)
  }

  function AcceptedPositions(order: seq<Item>, o: Outside): set<int> {
    set i | 0 <= i < |order| && Accepted(order, o, i)
  }

  lemma {:induction false} CandidatesInRange(order: seq<Item>, o: Outside, n: nat)
    requires n <= |order|
    ensures forall r :: 0 <= r < |Candidates(order, o, n)| ==>
      Candidates(order, o, n)[r] < n && IsCandidate(order, o, Candidates(order, o, n)[r])
  {
    if n > 0 {
      CandidatesInRange(order, o, n - 1);
    }
  }

  /** Positions before `n` that no direct send took and whose peer had both codecs when its turn came. */
  ghost function Offered(order: seq<Item>, o: Outside, n: nat): set<nat>
    requires n <= |order|
  {
    set j: nat |
      j < n && !o.direct(j) && o.tx(order[j].frame.dstDevice, j) && o.rx(order[j].frame.dstDevice, j)
  }

  lemma OfferedNext(order: seq<Item>, o: Outside, n: nat)
    requires n < |order|
    ensures Offered(order, o, n + 1) == Offered(order, o, n) + if IsCandidate(order, o, n) then {n} else {}
    ensures n !in Offered(order, o, n)
  {
  }

  /** Each position of `cands` is offered, and stands at the place given by how many come before it. */
  ghost predicate InPlace(order: seq<Item>, o: Outside, n: nat, cands: seq<nat>)
    requires n <= |order|
  {
    && |cands| == |Offered(order, o, n)|
    && (forall j :: j in Offered(order, o, n) ==> |Offered(order, o, j)| < |cands|)
    && (forall j :: j in Offered(order, o, n) ==> cands[|Offered(order, o, j)|] == j)
    && (forall r :: 0 <= r < |cands| ==> cands[r] in Offered(order, o, n) && |Offered(order, o, cands[r])| == r)
  }

  lemma InPlaceNext(order: seq<Item>, o: Outside, n: nat, cands: seq<nat>, next: seq<nat>)
    requires n < |order| && InPlace(order, o, n, cands)
    requires next == if IsCandidate(order, o, n) then cands + [n] else cands
    ensures InPlace(order, o, n + 1, next)
  {
    OfferedNext(order, o, n);
  }

  lemma CandidatesNext(order: seq<Item>, o: Outside, n: nat)
    requires n < |order|
    ensures Candidates(order, o, n + 1) ==
      if IsCandidate(order, o, n) then Candidates(order, o, n) + [n] else Candidates(order, o, n)
  {
  }

  lemma {:induction false} CandidatesAreOffered(order: seq<Item>, o: Outside, n: nat)
    requires n <= |order|
    ensures InPlace(order, o, n, Candidates(order, o, n))
  {
    if n == 0 {
      assert Offered(order, o, 0) == {};
    } else {
      CandidatesAreOffered(order, o, n - 1);
      CandidatesNext(order, o, n - 1);
      InPlaceNext(order, o, n - 1, Candidates(order, o, n - 1), Candidates(order, o, n));
    }
  }

  /** A position is accepted exactly when a direct send takes it, or it is offered to a relay that is not backing off
      and the UDP relay takes it at its place, or else the HTTP relay takes all. */
  lemma AcceptedExactly(order: seq<Item>, o: Outside, i: nat)
    requires i < |order|
    ensures i in AcceptedPositions(order, o) <==>
      || o.direct(i)
      || (&& i in Offered(order, o, |order|) && !o.backoff
          && (o.udp(|Offered(order, o, i)|) || (o.httpConfigured && o.httpAccepts)))
  {
    CandidatesAreOffered(order, o, |order|);
    if i in Offered(order, o, |order|) && RelayTakes(o, |Offered(order, o, i)|) {
      assert Candidates(order, o, |order|)[|Offered(order, o, i)|] == i;
    }
  }

  /** The sealed frames, from moment `start` on: a frame whose peer has no sending codec is skipped. */
  function SealAll(fs: seq<RoutedFrame>, o: Outside, start: nat): seq<RoutedFrame> {
    if fs == [] then []
    else
      var n := |fs| - 1;
      var rest := SealAll(fs[..n], o, start);
      if o.tx(fs[n].dstDevice, start + n) then rest + [fs[n].(payload := o.seal(|rest|, fs[n]))] else rest
  }

  method SealRelayFrames(fs: seq<RoutedFrame>, o: Outside, start: nat) returns (wire: seq<RoutedFrame>)
    ensures wire == SealAll(fs, o, start)
  {
    wire := [];
    for k := 0 to |fs|
      invariant wire == SealAll(fs[..k], o, start)
    {
      assert fs[..k + 1][..k] == fs[..k];
      if !o.tx(fs[k].dstDevice, start + k) {
        continue;
      }
      wire := wire + [fs[k].(payload := o.seal(|wire|, fs[k]))];
    }
    assert fs[..|fs|] == fs;
  }

  /** When every peer has a sending codec, nothing is skipped and positions line up. */
  lemma {:induction false} SealedAligned(fs: seq<RoutedFrame>, o: Outside, start: nat)
    requires forall k :: 0 <= k < |fs| ==> o.tx(fs[k].dstDevice, start + k)
    ensures |SealAll(fs, o, start)| == |fs|
    ensures forall k :: 0 <= k < |fs| ==> SealAll(fs, o, start)[k] == fs[k].(payload := o.seal(k, fs[k]))
  {
    if fs != [] {
      var n := |fs| - 1;
      assert forall k :: 0 <= k < n ==> fs[..n][k] == fs[k];
      SealedAligned(fs[..n], o, start);
    }
  }

  /** The first pass: direct sends, and the positions left for the relay. */
  method OfferDirect(order: seq<Item>, o: Outside) returns (delivered: set<int>, relay: seq<nat>)
    ensures delivered == set i | 0 <= i < |order| && o.direct(i)
    ensures relay == Candidates(order, o, |order|)
  {
    delivered, relay := {}, [];
    for i := 0 to |order|
      invariant delivered == set k | 0 <= k < i && o.direct(k)
      invariant relay == Candidates(order, o, i)
    {
      if o.direct(i) {
        delivered := delivered + {i};
        continue;
      }
      if !o.tx(order[i].frame.dstDevice, i) || !o.rx(order[i].frame.dstDevice, i) {
        continue;
      }
      relay := relay + [i];
    }
  }

  /** The relay input and its sealed form: because a candidate's codec stays, sealing skips nothing. */
  method SealCandidates(order: seq<Item>, relay: seq<nat>, o: Outside) returns (wire: seq<RoutedFrame>)
    requires GainsOnly(o)
    requires forall r :: 0 <= r < |relay| ==> relay[r] < |order| && IsCandidate(order, o, relay[r])
    ensures |wire| == |relay|
    ensures forall r :: 0 <= r < |relay| ==>
      wire[r] == order[relay[r]].frame.(payload := o.seal(r, order[relay[r]].frame))
  {
    var input := seq(|relay|, r requires 0 <= r < |relay| => order[relay[r]].frame);
    forall r | 0 <= r < |relay| ensures o.tx(input[r].dstDevice, |order| + r) {
      assert o.tx(input[r].dstDevice, relay[r]);
    }
    wire := SealRelayFrames(input, o, |order|);
    SealedAligned(input, o, |order|);
  }

  /** The UDP relay: which candidates it took, and whether it took all. */
  method OfferUDP(relay: seq<nat>, o: Outside, n: nat) returns (taken: set<int>, all: bool)
    requires n == |relay|
    ensures forall i :: i in taken <==> exists r :: 0 <= r < |relay| && relay[r] == i && o.udp(r)
    ensures all <==> forall r :: 0 <= r < |relay| ==> o.udp(r)
  {
    taken := {};
    var udpCount := 0;
    for r := 0 to n
      invariant udpCount <= r && (udpCount == r <==> forall k :: 0 <= k < r ==> o.udp(k))
      invariant forall i :: i in taken <==> exists k :: 0 <= k < r && relay[k] == i && o.udp(k)
    {
      if o.udp(r) {
        udpCount := udpCount + 1;
        taken := taken + {relay[r]};
      }
    }
    all := udpCount == n;
  }

  /** The second pass: which of the positions handed to the relay were taken by it. */
  method OfferRelay(order: seq<Item>, relay: seq<nat>, o: Outside)
    returns (taken: set<int>, wire: seq<RoutedFrame>)
    requires GainsOnly(o)
    requires forall r :: 0 <= r < |relay| ==> relay[r] < |order| && IsCandidate(order, o, relay[r])
    ensures forall i :: i in taken <==> exists r :: 0 <= r < |relay| && relay[r] == i && RelayTakes(o, r)
    ensures relay != [] && !o.backoff ==>
      && |wire| == |relay|
      && forall r :: 0 <= r < |relay| ==>
        wire[r] == order[relay[r]].frame.(payload := o.seal(r, order[relay[r]].frame))
  {
    taken, wire := {}, [];
    if |relay| == 0 || o.backoff {
      return;
    }
    wire := SealCandidates(order, relay, o);
    var all;
    taken, all := OfferUDP(relay, o, |wire|);
    if all || !o.httpConfigured || !o.httpAccepts {
      return;
    }
    taken := taken + set i | i in relay;
  }

  /** Sealed frames stay aligned with their candidates. */
  ghost predicate Aligned(order: seq<Item>, o: Outside, wire: seq<RoutedFrame>) {
    var cands := Candidates(order, o, |order|);
    cands != [] && !o.backoff ==>
      && |wire| == |cands|
      && forall r :: 0 <= r < |cands| && cands[r] < |order| ==>
        wire[r] == order[cands[r]].frame.(payload := o.seal(r, order[cands[r]].frame))
  }

  method Dispatch(order: seq<Item>, o: Outside) returns (accepted: set<int>, wire: seq<RoutedFrame>)
    requires GainsOnly(o)
    ensures accepted == AcceptedPositions(order, o)
    ensures Aligned(order, o, wire)
  {
    var delivered, relay := OfferDirect(order, o);
    CandidatesInRange(order, o, |order|);
    var taken;
    taken, wire := OfferRelay(order, relay, o);
    accepted := delivered + taken;
  }

  /** The frames pending when `Frames` is called. */
  function Pending(caps: Caps, before: Contents, batch: seq<RoutedFrame>, clock: Clock): seq<Item> {
    var added :=
      if batch == [] then before
      else AddAll(caps, Contents(Filter(before.items, Live(clock.add, caps.ttl)), before.nextID), batch, clock.add);
    Filter(added.items, Live(clock.frames, caps.ttl))
  }

  /** What expired by `early` has expired by `late`. */
  lemma {:induction false} LaterExpiry(s: seq<Item>, ttl: int, early: int, late: int)
    requires early <= late
    ensures Filter(Filter(s, Live(early, ttl)), Live(late, ttl)) == Filter(s, Live(late, ttl))
  {
    if s != [] {
      var n := |s| - 1;
      LaterExpiry(s[..n], ttl, early, late);
      FilterConcat(Filter(s[..n], Live(early, ttl)), [s[n]], Live(late, ttl));
    }
  }

  /** An extra look at the clock on the way makes no difference to what `Remove` leaves. */
  lemma PrunedBefore(s: seq<Item>, delivered: set<int>, ttl: int, early: int, now: int, later: int)
    requires early <= now
    ensures Removed(Filter(s, Live(early, ttl)), delivered, ttl, now, later) == Removed(s, delivered, ttl, now, later)
  {
    LaterExpiry(s, ttl, early, now);
  }

  /** What should be left: the frames that were not accepted and are still live at the last look at the clock, of which
      there are two exactly when something was accepted. */
  function Rightly(pending: seq<Item>, accepted: set<int>, ttl: int, clock: Clock): seq<Item> {
    Filter(Filter(pending, Without(IDsAt(SendOrder(pending), accepted))),
           Live(if accepted == {} then clock.remove else clock.removeEnd, ttl))
  }

  /** That is: of the pending frames exactly those stay whose position was not accepted and that have not expired. */
  lemma RightlyExactly(pending: seq<Item>, accepted: set<int>, ttl: int, clock: Clock, k: nat)
    requires Ordered(pending) && k < |SendOrder(pending)|
    ensures
      var x, last := SendOrder(pending)[k], if accepted == {} then clock.remove else clock.removeEnd;
      x in Rightly(pending, accepted, ttl, clock) <==> k !in accepted && (ttl <= 0 || last - x.at <= ttl)
  {
    var unsent := Without(IDsAt(SendOrder(pending), accepted));
    SendOrderMembers(pending);
    IDOfPosition(pending, accepted, k);
    FilterMembers(pending, unsent);
    FilterMembers(Filter(pending, unsent), Live(if accepted == {} then clock.remove else clock.removeEnd, ttl));
  }

  /** If places agree for the accepted positions, removal leaves what it should. */
  lemma RemovedRightly(pending: seq<Item>, accepted: set<int>, ttl: int, clock: Clock)
    requires Ordered(pending) && Monotonic(clock)
    requires PlacesAgree(SendOrder(pending), accepted, ttl, clock.remove)
    ensures Removed(pending, accepted, ttl, clock.remove, clock.removeEnd) == Rightly(pending, accepted, ttl, clock)
  {
    var unsent := Without(IDsAt(SendOrder(pending), accepted));
    PlacesDecide(pending, accepted, ttl, clock.remove);
    FiltersCommute(pending, unsent, Live(clock.remove, ttl));
    LaterExpiry(Filter(pending, unsent), ttl, clock.remove, clock.removeEnd);
    if accepted == {} {
      KeepAll(pending, unsent);
    }
  }

  lemma NothingPending(pending: seq<Item>, o: Outside, ttl: int, clock: Clock)
    requires SendOrder(pending) == []
    ensures pending == [] && AcceptedPositions([], o) == {}
    ensures Removed(pending, {}, ttl, clock.remove, clock.removeEnd) == []
  {
    SendOrderLength(pending);
  }

  lemma AddOneMembers(caps: Caps, q: Contents, f: RoutedFrame, now: int)
    ensures forall x :: x in AddOne(caps, q, f, now).items ==> x in q.items || x == NewItem(q, f, now)
  {
    var s := q.items + [NewItem(q, f, now)];
    var total := TrimTotal(caps, s);
    TrimTotalShrinks(caps, s);
    TrimPeerShrinks(caps, total, f.dstDevice);
    TrimSessionShrinks(caps, TrimPeer(caps, total, f.dstDevice), SessionOf(f));
  }

  /** Numbers are handed out in order, and what is new in the queue has a new one. */
  lemma {:induction false} AddAllNumbers(caps: Caps, q: Contents, fs: seq<RoutedFrame>, now: int)
    ensures AddAll(caps, q, fs, now).nextID == q.nextID + |fs|
    ensures forall x :: x in AddAll(caps, q, fs, now).items ==> x in q.items || x.id > q.nextID
  {
    if fs != [] {
      var n := |fs| - 1;
      AddAllNumbers(caps, q, fs[..n], now);
      var before := AddAll(caps, q, fs[..n], now);
      AddOneMembers(caps, before, fs[n], now);
    }
  }

  lemma PendingIsOldOrNew(caps: Caps, before: Contents, batch: seq<RoutedFrame>, clock: Clock)
    ensures forall x :: x in Pending(caps, before, batch, clock) ==> x in before.items || x.id > before.nextID
  {
    var start := Contents(Filter(before.items, Live(clock.add, caps.ttl)), before.nextID);
    FilterMembers(before.items, Live(clock.add, caps.ttl));
    AddAllNumbers(caps, start, batch, clock.add);
    FilterMembers((if batch == [] then before else AddAll(caps, start, batch, clock.add)).items,
                  Live(clock.frames, caps.ttl));
  }

  /** The first part of a flush: the batch joins the queue, and the pending frames are put in send order. */
  method Collect(q: LanPendingQueue, batch: seq<RoutedFrame>, clock: Clock) returns (order: seq<Item>)
    requires q.Valid()
    modifies q
    ensures q.Valid() && q.frames == Pending(q.caps, old(q.View()), batch, clock) && order == SendOrder(q.frames)
    ensures q.nextID == old(q.nextID) + |batch| && SentInOrder(order) && forall x :: x in order ==> x.id <= q.nextID
  {
    ghost var start := Contents(Filter(q.frames, Live(clock.add, q.caps.ttl)), q.nextID);
    AddAllNumbers(q.caps, start, batch, clock.add);
    if |batch| > 0 {
      q.Add(batch, clock.add);
    }
    order := q.Ordering(clock.frames);
    SendOrderIsStableSort(q.frames);
  }

  /** If peers only gain codecs, the relay is handed the sealed form of its own candidates, and the frames at the
      positions that some transport took are removed: whatever expires meanwhile, what is left is what `Removed` says
      of the accepted positions, and if places agree for these (if nothing expires, in particular), it is exactly the
      frames that no transport took and that are still live, in arrival order. */
  method Run(q: LanPendingQueue, batch: seq<RoutedFrame>, clock: Clock, o: Outside)
    returns (order: seq<Item>, wire: seq<RoutedFrame>)
    requires q.Valid() && GainsOnly(o) && Monotonic(clock)
    modifies q
    ensures q.Valid() && Aligned(order, o, wire) && SentInOrder(order)
    ensures q.nextID == old(q.nextID) + |batch| && forall x :: x in order ==> x.id <= q.nextID
    ensures
      var pending := Pending(q.caps, old(q.View()), batch, clock);
      var accepted := AcceptedPositions(order, o);
      && order == SendOrder(pending)
      && q.frames == Removed(pending, accepted, q.caps.ttl, clock.remove, clock.removeEnd)
      && (PlacesAgree(order, accepted, q.caps.ttl, clock.remove) ==>
            q.frames == Rightly(pending, accepted, q.caps.ttl, clock))
  {
    order := Collect(q, batch, clock);
    if PlacesAgree(order, AcceptedPositions(order, o), q.caps.ttl, clock.remove) {
      RemovedRightly(q.frames, AcceptedPositions(order, o), q.caps.ttl, clock);
    }
    if |order| == 0 {
      wire := [];
      NothingPending(q.frames, o, q.caps.ttl, clock);
      return;
    }
    ghost var frames := q.frames;
    q.Prune(clock.stats);
    var accepted;
    accepted, wire := Dispatch(order, o);
    q.Remove(accepted, clock.remove, clock.removeEnd);
    PrunedBefore(frames, accepted, q.caps.ttl, clock.stats, clock.remove, clock.removeEnd);
  }
}
