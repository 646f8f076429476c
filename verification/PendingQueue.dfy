/** The client's pending send queue: `lanPendingQueue` of `cmd/UDPTunnelLAN/packet_runtime.go`. A bounded queue in
    arrival order with a lifetime, caps on frames, bytes, frames per peer and frames per session, and eviction of
    the worst traffic class first, oldest first. Every clock reading is a parameter. */
module PendingQueue {
  import opened Basics

  datatype RoutedFrame = RoutedFrame(
    networkID: int, srcDevice: string, dstDevice: string, payload: seq<Byte>,
    protocol: nat, sourceIP: Option<nat>, destIP: Option<nat>, sourcePort: int, destPort: int, tcpSyn: bool)

  const ICMP: nat := 1
  const TCP: nat := 6
  const UDP: nat := 17

  datatype TrafficClass = Critical | Interactive | Throughput

  predicate IsInteractivePort(port: int) {
    port == 22 || port == 53 || port == 3389
  }

  function Classify(f: RoutedFrame): TrafficClass {
    if f.protocol == ICMP then Critical
    else if f.protocol == TCP && f.tcpSyn then Critical
    else if f.protocol == TCP &&
            (IsInteractivePort(f.sourcePort) || IsInteractivePort(f.destPort) || |f.payload| <= 256) then Interactive
    else if f.protocol == UDP && (f.sourcePort == 53 || f.destPort == 53 || |f.payload| <= 256) then Interactive
    else if |f.payload| <= 256 then Interactive
    else Throughput
  }

  /** Smaller is more urgent. */
  function Priority(f: RoutedFrame): nat {
    match Classify(f)
    case Critical => 0
    case Interactive => 1
    case Throughput => 2
  }

  /** ICMP and TCP connection requests first; then small frames, interactive TCP ports and DNS; then the rest. */
  lemma PriorityTable(f: RoutedFrame)
    ensures
      var urgent := f.protocol == 1 || (f.protocol == 6 && f.tcpSyn);
      var ports := {f.sourcePort, f.destPort};
      var brisk := |f.payload| <= 256 || (f.protocol == 6 && ports * {22, 53, 3389} != {}) ||
        (f.protocol == 17 && 53 in ports);
      Priority(f) == if urgent then 0 else if brisk then 1 else 2
  {
    var ports := {f.sourcePort, f.destPort};
    assert ports * {22, 53, 3389} != {} <==> IsInteractivePort(f.sourcePort) || IsInteractivePort(f.destPort) by {
      forall x: int | x in ports ensures x in ports * {22, 53, 3389} <==> IsInteractivePort(x) {
      }
    }
  }

  datatype SessionKey =
    | NoSession
    | Session(networkID: int, dst: string, protocol: nat, sourceIP: nat, destIP: nat, sourcePort: int, destPort: int)

  function SessionOf(f: RoutedFrame): SessionKey {
    if f.dstDevice == "" || (f.protocol != TCP && f.protocol != UDP) then NoSession
    else if f.sourcePort <= 0 || f.destPort <= 0 || f.sourceIP.None? || f.destIP.None? then NoSession
    else Session(f.networkID, f.dstDevice, f.protocol, f.sourceIP.value, f.destIP.value, f.sourcePort, f.destPort)
  }

  /** Sessions are TCP or UDP between two known addresses and ports, towards a named device. */
  predicate HasSession(f: RoutedFrame) {
    && f.dstDevice != "" && (f.protocol == 6 || f.protocol == 17)
    && f.sourcePort > 0 && f.destPort > 0 && f.sourceIP.Some? && f.destIP.Some?
  }

  /** Two frames are of one session exactly when network, device, protocol, addresses and ports all agree. */
  lemma SameSession(f: RoutedFrame, g: RoutedFrame)
    ensures SessionOf(f) == NoSession <==> !HasSession(f)
    ensures HasSession(f) && HasSession(g) ==>
      (SessionOf(f) == SessionOf(g) <==>
        g.(srcDevice := f.srcDevice, payload := f.payload, tcpSyn := f.tcpSyn) == f)
  {
  }

  datatype Item = Item(frame: RoutedFrame, at: int, size: nat, id: nat)

  /** A cap that is not positive is off, except `maxFrames`. */
  datatype Caps = Caps(maxFrames: nat, maxBytes: int, maxPerPeer: int, maxPerSession: int, ttl: int)

  // ---------------------------------------------------------------------------------------------
  // Filtering, counting, summing

  function Filter(s: seq<Item>, f: Item -> bool): (r: seq<Item>)
    ensures |r| <= |s|
  {
    if s == [] then []
    else
      var n := |s| - 1;
      if f(s[n]) then Filter(s[..n], f) + [s[n]] else Filter(s[..n], f)
  }

  lemma {:induction false} FilterMembers(s: seq<Item>, f: Item -> bool)
    ensures forall x :: x in Filter(s, f) <==> x in s && f(x)
  {
    if s != [] {
      var n := |s| - 1;
      FilterMembers(s[..n], f);
      assert s == s[..n] + [s[n]];
    }
  }

  lemma {:induction false} KeepAll(s: seq<Item>, f: Item -> bool)
    requires forall x :: x in s ==> f(x)
    ensures Filter(s, f) == s
  {
    if s != [] {
      KeepAll(s[..|s| - 1], f);
      assert s == s[..|s| - 1] + [s[|s| - 1]];
    }
  }

  function Sum(s: seq<Item>): nat {
    if s == [] then 0 else Sum(s[..|s| - 1]) + s[|s| - 1].size
  }

  predicate Ordered(s: seq<Item>) {
    forall i, j :: 0 <= i < j < |s| ==> s[i].id < s[j].id
  }

  function DropAt(s: seq<Item>, i: nat): seq<Item>
    requires i < |s|
  {
    s[..i] + s[i + 1..]
  }

  lemma FilterSnoc(s: seq<Item>, x: Item, f: Item -> bool)
    ensures Filter(s + [x], f) == Filter(s, f) + if f(x) then [x] else []
  {
    assert (s + [x])[..|s|] == s;
  }

  lemma {:induction false} FilterConcat(a: seq<Item>, b: seq<Item>, f: Item -> bool)
    ensures Filter(a + b, f) == Filter(a, f) + Filter(b, f)
  {
    if b == [] {
      assert a + b == a;
    } else {
      var n := |b| - 1;
      FilterConcat(a, b[..n], f);
      FilterSnoc(a + b[..n], b[n], f);
      FilterSnoc(b[..n], b[n], f);
      assert b[..n] + [b[n]] == b && a + b[..n] + [b[n]] == a + b;
      var last := if f(b[n]) then [b[n]] else [];
      assert Filter(a, f) + Filter(b[..n], f) + last == Filter(a, f) + (Filter(b[..n], f) + last);
    }
  }

  lemma {:induction false} SumConcat(a: seq<Item>, b: seq<Item>)
    ensures Sum(a + b) == Sum(a) + Sum(b)
  {
    if b == [] {
      assert a + b == a;
    } else {
      var n := |b| - 1;
      SumConcat(a, b[..n]);
      assert (a + b)[..|a + b| - 1] == a + b[..n];
    }
  }

  lemma DropAtCounts(s: seq<Item>, i: nat, f: Item -> bool)
    requires i < |s|
    ensures |Filter(DropAt(s, i), f)| == |Filter(s, f)| - if f(s[i]) then 1 else 0
    ensures Sum(DropAt(s, i)) == Sum(s) - s[i].size
  {
    assert s == s[..i] + ([s[i]] + s[i + 1..]);
    FilterConcat(s[..i], [s[i]] + s[i + 1..], f);
    FilterConcat([s[i]], s[i + 1..], f);
    FilterConcat(s[..i], s[i + 1..], f);
    SumConcat(s[..i], [s[i]] + s[i + 1..]);
    SumConcat([s[i]], s[i + 1..]);
    SumConcat(s[..i], s[i + 1..]);
  }

  lemma DropAtMembers(s: seq<Item>, i: nat)
    requires Ordered(s) && i < |s|
    ensures Ordered(DropAt(s, i))
    ensures forall x :: x in DropAt(s, i) <==> x in s && x != s[i]
  {
    var t := DropAt(s, i);
    forall x | x in s && x != s[i] ensures x in t {
      var k :| 0 <= k < |s| && s[k] == x;
      if k < i {
        assert t[k] == x;
      } else {
        assert t[k - 1] == x;
      }
    }
  }

  lemma {:induction false} FilterOrdered(s: seq<Item>, f: Item -> bool)
    requires Ordered(s)
    ensures Ordered(Filter(s, f))
  {
    if s != [] {
      var n := |s| - 1;
      FilterOrdered(s[..n], f);
      FilterMembers(s[..n], f);
      var r := Filter(s[..n], f);
      assert forall i :: 0 <= i < |r| ==> r[i] in s[..n];
    }
  }

  lemma AppendNewest(s: seq<Item>, x: Item)
    requires Ordered(s) && forall y :: y in s ==> y.id < x.id
    ensures Ordered(s + [x])
  {
    assert forall i :: 0 <= i < |s| ==> s[i] in s;
  }

  lemma {:induction false} OrderedSize(s: seq<Item>)
    requires Ordered(s)
    ensures |set x | x in s| == |s|
  {
    if s != [] {
      var n := |s| - 1;
      OrderedSize(s[..n]);
      assert forall x :: x in s <==> x in s[..n] || x == s[n];
      assert (set x | x in s) == (set x | x in s[..n]) + {s[n]};
    }
  }

  /** Counting positions and counting members agree when no item repeats. */
  lemma CountIsCardinality(s: seq<Item>, f: Item -> bool)
    requires Ordered(s)
    ensures |Filter(s, f)| == |set x | x in s && f(x)|
  {
    FilterOrdered(s, f);
    FilterMembers(s, f);
    OrderedSize(Filter(s, f));
    assert (set x | x in s && f(x)) == (set x | x in Filter(s, f));
  }

  // ---------------------------------------------------------------------------------------------
  // Expiry, eviction and insertion, as functions of the queue's contents

  function Live(now: int, ttl: int): Item -> bool {
    (x: Item) => ttl <= 0 || now - x.at <= ttl
  }

  function Any(): Item -> bool {
    (x: Item) => true
  }

  function OfPeer(peer: string): Item -> bool {
    (x: Item) => x.frame.dstDevice == peer
  }

  function OfSession(key: SessionKey): Item -> bool {
    (x: Item) => SessionOf(x.frame) == key
  }

  /** Position `i` holds the item to give up among those selected: worst class, and oldest within it. */
  predicate IsWorst(s: seq<Item>, f: Item -> bool, i: nat) {
    && i < |s| && f(s[i])
    && (forall j :: 0 <= j < |s| && f(s[j]) ==> Priority(s[j].frame) <= Priority(s[i].frame))
    && (forall j :: 0 <= j < i && f(s[j]) ==> Priority(s[j].frame) < Priority(s[i].frame))
  }

  function Worst(s: seq<Item>, f: Item -> bool): (w: nat)
    requires Filter(s, f) != []
    ensures IsWorst(s, f, w)
  {
    var n := |s| - 1;
    FilterMembers(s[..n], f);
    if Filter(s[..n], f) == [] then
      assert forall j :: 0 <= j < n ==> s[j] in s[..n];
      n
    else
      var w := Worst(s[..n], f);
      if f(s[n]) && Priority(s[n].frame) > Priority(s[w].frame) then n else w
  }

  lemma WorstIsUnique(s: seq<Item>, f: Item -> bool, i: nat)
    requires IsWorst(s, f, i) && Filter(s, f) != []
    ensures i == Worst(s, f)
  {
  }

  function TrimGroup(s: seq<Item>, f: Item -> bool, max: nat): (r: seq<Item>)
    ensures |Filter(r, f)| <= max
    decreases |s|
  {
    if |Filter(s, f)| > max then TrimGroup(DropAt(s, Worst(s, f)), f, max) else s
  }

  predicate OverTotal(caps: Caps, s: seq<Item>) {
    |s| > caps.maxFrames || (caps.maxBytes > 0 && Sum(s) > caps.maxBytes)
  }

  lemma {:induction false} FilterAny(s: seq<Item>)
    ensures Filter(s, Any()) == s
  {
    if s != [] {
      FilterAny(s[..|s| - 1]);
      assert s == s[..|s| - 1] + [s[|s| - 1]];
    }
  }

  function TrimTotal(caps: Caps, s: seq<Item>): (r: seq<Item>)
    ensures !OverTotal(caps, r)
    decreases |s|
  {
    FilterAny(s);
    if OverTotal(caps, s) then TrimTotal(caps, DropAt(s, Worst(s, Any()))) else s
  }

  datatype Contents = Contents(items: seq<Item>, nextID: nat)

  const EMPTY := Contents([], 0)

  function NewItem(q: Contents, f: RoutedFrame, now: int): Item {
    Item(f, now, |f.payload|, q.nextID + 1)
  }

  function TrimPeer(caps: Caps, s: seq<Item>, peer: string): seq<Item> {
    if caps.maxPerPeer <= 0 || peer == "" then s else TrimGroup(s, OfPeer(peer), caps.maxPerPeer)
  }

  function TrimSession(caps: Caps, s: seq<Item>, key: SessionKey): seq<Item> {
    if caps.maxPerSession <= 0 || key == NoSession then s else TrimGroup(s, OfSession(key), caps.maxPerSession)
  }

  function AddOne(caps: Caps, q: Contents, f: RoutedFrame, now: int): Contents {
    var total := TrimTotal(caps, q.items + [NewItem(q, f, now)]);
    Contents(TrimSession(caps, TrimPeer(caps, total, f.dstDevice), SessionOf(f)), q.nextID + 1)
  }

  function AddAll(caps: Caps, q: Contents, fs: seq<RoutedFrame>, now: int): Contents {
    if fs == [] then q
    else AddOne(caps, AddAll(caps, q, fs[..|fs| - 1], now), fs[|fs| - 1], now)
  }

  lemma AddAllNext(caps: Caps, q: Contents, fs: seq<RoutedFrame>, i: nat, now: int)
    requires i < |fs|
    ensures AddAll(caps, q, fs[..i + 1], now) == AddOne(caps, AddAll(caps, q, fs[..i], now), fs[i], now)
  {
    assert fs[..i + 1][..i] == fs[..i];
  }

  // ---------------------------------------------------------------------------------------------
  // Caps: after any insertion every cap holds at once, for every peer and every session

  ghost predicate WithinCaps(caps: Caps, s: seq<Item>) {
    && !OverTotal(caps, s)
    && (caps.maxPerPeer > 0 ==> forall peer :: peer != "" ==> |Filter(s, OfPeer(peer))| <= caps.maxPerPeer)
    && (caps.maxPerSession > 0 ==>
          forall key :: key != NoSession ==> |Filter(s, OfSession(key))| <= caps.maxPerSession)
  }

  /** `r` is what is left of `s` after giving up some items. */
  ghost predicate Shrunk(r: seq<Item>, s: seq<Item>) {
    && |r| <= |s| && Sum(r) <= Sum(s)
    && (forall f :: |Filter(r, f)| <= |Filter(s, f)|)
    && (forall x :: x in r ==> x in s)
    && (Ordered(s) ==> Ordered(r))
  }

  lemma DropAtShrinks(s: seq<Item>, i: nat)
    requires i < |s|
    ensures Shrunk(DropAt(s, i), s)
  {
    var r := DropAt(s, i);
    DropAtCounts(s, i, Any());
    forall f ensures |Filter(r, f)| <= |Filter(s, f)| {
      DropAtCounts(s, i, f);
    }
  }

  lemma {:induction false} TrimGroupShrinks(s: seq<Item>, f: Item -> bool, max: nat)
    ensures Shrunk(TrimGroup(s, f, max), s)
    decreases |s|
  {
    if |Filter(s, f)| > max {
      var w := Worst(s, f);
      DropAtShrinks(s, w);
      TrimGroupShrinks(DropAt(s, w), f, max);
    }
  }

  lemma {:induction false} TrimTotalShrinks(caps: Caps, s: seq<Item>)
    ensures Shrunk(TrimTotal(caps, s), s)
    decreases |s|
  {
    FilterAny(s);
    if OverTotal(caps, s) {
      var w := Worst(s, Any());
      DropAtShrinks(s, w);
      TrimTotalShrinks(caps, DropAt(s, w));
    }
  }

  lemma {:induction false} FilterShrinks(s: seq<Item>, f: Item -> bool)
    ensures Shrunk(Filter(s, f), s)
  {
    if s != [] {
      var n := |s| - 1;
      assert s == s[..n] + [s[n]];
      FilterShrinks(s[..n], f);
      var rest := Filter(s[..n], f);
      forall g ensures |Filter(Filter(s, f), g)| <= |Filter(s, g)| {
        FilterConcat(rest, [s[n]], g);
        FilterConcat(s[..n], [s[n]], g);
      }
      SumConcat(rest, [s[n]]);
      FilterMembers(s, f);
      if Ordered(s) {
        FilterOrdered(s, f);
      }
    }
  }

  lemma ShrunkWithinCaps(caps: Caps, r: seq<Item>, s: seq<Item>)
    requires Shrunk(r, s) && WithinCaps(caps, s)
    ensures WithinCaps(caps, r)
  {
  }

  lemma GroupGrowsByOwn(s: seq<Item>, x: Item, f: Item -> bool)
    ensures |Filter(s + [x], f)| == |Filter(s, f)| + if f(x) then 1 else 0
  {
    assert (s + [x])[..|s|] == s;
  }

  lemma TrimPeerKeepsCap(caps: Caps, s: seq<Item>, x: Item, peer: string)
    requires caps.maxPerPeer > 0 && peer != "" && |Filter(s, OfPeer(peer))| <= caps.maxPerPeer
    ensures forall b :: Shrunk(b, s + [x]) ==>
      |Filter(TrimPeer(caps, b, x.frame.dstDevice), OfPeer(peer))| <= caps.maxPerPeer
  {
    forall b | Shrunk(b, s + [x])
      ensures |Filter(TrimPeer(caps, b, x.frame.dstDevice), OfPeer(peer))| <= caps.maxPerPeer
    {
      GroupGrowsByOwn(s, x, OfPeer(peer));
      TrimGroupShrinks(b, OfPeer(x.frame.dstDevice), caps.maxPerPeer);
    }
  }

  lemma TrimSessionKeepsCap(caps: Caps, s: seq<Item>, x: Item, key: SessionKey)
    requires caps.maxPerSession > 0 && key != NoSession && |Filter(s, OfSession(key))| <= caps.maxPerSession
    ensures forall c :: Shrunk(c, s + [x]) ==>
      |Filter(TrimSession(caps, c, SessionOf(x.frame)), OfSession(key))| <= caps.maxPerSession
  {
    forall c | Shrunk(c, s + [x])
      ensures |Filter(TrimSession(caps, c, SessionOf(x.frame)), OfSession(key))| <= caps.maxPerSession
    {
      GroupGrowsByOwn(s, x, OfSession(key));
      TrimGroupShrinks(c, OfSession(SessionOf(x.frame)), caps.maxPerSession);
    }
  }

  lemma TrimPeerShrinks(caps: Caps, s: seq<Item>, peer: string)
    ensures Shrunk(TrimPeer(caps, s, peer), s)
  {
    if caps.maxPerPeer > 0 {
      TrimGroupShrinks(s, OfPeer(peer), caps.maxPerPeer);
    }
  }

  lemma TrimSessionShrinks(caps: Caps, s: seq<Item>, key: SessionKey)
    ensures Shrunk(TrimSession(caps, s, key), s)
  {
    if caps.maxPerSession > 0 {
      TrimGroupShrinks(s, OfSession(key), caps.maxPerSession);
    }
  }

  /** One insertion re-establishes every cap at once, for every peer and every session. */
  lemma AddOneKeepsCaps(caps: Caps, q: Contents, f: RoutedFrame, now: int)
    requires WithinCaps(caps, q.items)
    ensures WithinCaps(caps, AddOne(caps, q, f, now).items)
  {
    var x := NewItem(q, f, now);
    var b := TrimTotal(caps, q.items + [x]);
    var c := TrimPeer(caps, b, f.dstDevice);
    TrimTotalShrinks(caps, q.items + [x]);
    TrimPeerShrinks(caps, b, f.dstDevice);
    TrimSessionShrinks(caps, c, SessionOf(f));
    if caps.maxPerPeer > 0 {
      forall peer | peer != "" ensures |Filter(c, OfPeer(peer))| <= caps.maxPerPeer {
        TrimPeerKeepsCap(caps, q.items, x, peer);
      }
    }
    if caps.maxPerSession > 0 {
      forall key | key != NoSession
        ensures |Filter(TrimSession(caps, c, SessionOf(f)), OfSession(key))| <= caps.maxPerSession
      {
        TrimSessionKeepsCap(caps, q.items, x, key);
      }
    }
  }

  // ---------------------------------------------------------------------------------------------
  // Send order and removal by position

  function OfPriority(p: nat): Item -> bool {
    (x: Item) => Priority(x.frame) == p
  }

  /** The stable sort by priority. */
  function SendOrder(s: seq<Item>): seq<Item> {
    Filter(s, OfPriority(0)) + Filter(s, OfPriority(1)) + Filter(s, OfPriority(2))
  }

  function IDsAt(order: seq<Item>, positions: set<int>): set<nat> {
    set i | i in positions && 0 <= i < |order| :: order[i].id
  }

  function Without(ids: set<nat>): Item -> bool {
    (x: Item) => x.id !in ids
  }

  /** What `Remove` leaves: positions are looked up in the send order of what is live at `now`, and a last look at
      the clock happens at `later`. */
  function Removed(s: seq<Item>, delivered: set<int>, ttl: int, now: int, later: int): seq<Item> {
    var live := Filter(s, Live(now, ttl));
    if delivered == {} then live
    else Filter(Filter(live, Without(IDsAt(SendOrder(live), delivered))), Live(later, ttl))
  }

  /** How many of the frames that `Remove` takes out had been delivered; the others expired. */
  function RemovedCount(s: seq<Item>, delivered: set<int>, ttl: int, now: int): nat {
    var live := Filter(s, Live(now, ttl));
    |live| - |Filter(live, Without(IDsAt(SendOrder(live), delivered)))|
  }

  // ---------------------------------------------------------------------------------------------
  // The queue

  datatype Stats = Stats(added: nat, dropped: nat, expired: nat)

  /** Arrival order, ids handed out so far, and sizes. */
  ghost predicate WellNumbered(s: seq<Item>, nextID: nat) {
    Ordered(s) && forall x :: x in s ==> x.id <= nextID && x.size == |x.frame.payload|
  }

  lemma AppendWellNumbered(s: seq<Item>, nextID: nat, x: Item)
    requires WellNumbered(s, nextID) && x.id == nextID + 1 && x.size == |x.frame.payload|
    ensures WellNumbered(s + [x], nextID + 1)
    ensures Sum(s + [x]) == Sum(s) + x.size
  {
    AppendNewest(s, x);
    assert (s + [x])[..|s|] == s;
  }

  class LanPendingQueue {
    const caps: Caps
    var bytes: int
    var frames: seq<Item>
    var nextID: nat
    var stats: Stats
    ghost var removed: nat

    /** Byte count, numbering and conservation; the caps may be exceeded in the middle of an insertion. */
    ghost predicate Consistent()
      reads this
    {
      && bytes == Sum(frames)
      && WellNumbered(frames, nextID)
      && stats.added == |frames| + stats.dropped + stats.expired + removed
    }

    ghost predicate Valid()
      reads this
    {
      Consistent() && WithinCaps(caps, frames)
    }

    ghost function View(): Contents
      reads this
    {
      Contents(frames, nextID)
    }

    constructor (caps: Caps)
      ensures Valid() && this.caps == caps && View() == EMPTY && stats == Stats(0, 0, 0) && removed == 0
    {
      this.caps := caps;
      bytes, frames, nextID, stats, removed := 0, [], 0, Stats(0, 0, 0), 0;
      assert forall f :: Filter([], f) == [];
    }

    /** Replacing the frames by fewer of them keeps the invariant, once the counters follow. */
    twostate lemma StillConsistent()
      requires old(Consistent()) && Shrunk(frames, old(frames)) && nextID == old(nextID)
      requires bytes == Sum(frames) && stats.added == old(stats.added)
      requires |frames| + stats.dropped + stats.expired + removed
            == |old(frames)| + old(stats.dropped) + old(stats.expired) + old(removed)
      ensures Consistent()
    {
    }

    twostate lemma StillValidFiltered(f: Item -> bool)
      requires old(Valid()) && frames == Filter(old(frames), f) && nextID == old(nextID)
      requires bytes == Sum(frames) && stats.added == old(stats.added)
      requires |frames| + stats.dropped + stats.expired + removed
            == |old(frames)| + old(stats.dropped) + old(stats.expired) + old(removed)
      ensures Valid()
    {
      FilterShrinks(old(frames), f);
      StillConsistent();
      ShrunkWithinCaps(caps, frames, old(frames));
    }

    /** The compaction loop of `prune`: the live frames, their size, and how many expired. */
    method Survivors(now: int) returns (next: seq<Item>, size: nat, gone: nat)
      requires caps.ttl > 0
      ensures next == Filter(frames, Live(now, caps.ttl)) && size == Sum(next) && gone == |frames| - |next|
    {
      next, size, gone := [], 0, 0;
      for i := 0 to |frames|
        invariant next == Filter(frames[..i], Live(now, caps.ttl)) && size == Sum(next) && gone == i - |next|
      {
        assert frames[..i + 1][..i] == frames[..i];
        if now - frames[i].at > caps.ttl {
          gone := gone + 1;
        } else {
          assert (next + [frames[i]])[..|next|] == next;
          next := next + [frames[i]];
          size := size + frames[i].size;
        }
      }
      assert frames[..|frames|] == frames;
    }

    method Prune(now: int)
      requires Valid()
      modifies this
      ensures Valid()
      ensures frames == Filter(old(frames), Live(now, caps.ttl))
      ensures forall x :: x in frames <==> x in old(frames) && (caps.ttl <= 0 || now - x.at <= caps.ttl)
      ensures stats == old(stats).(expired := old(stats.expired) + |old(frames)| - |frames|)
      ensures nextID == old(nextID) && removed == old(removed)
    {
      FilterMembers(frames, Live(now, caps.ttl));
      if caps.ttl <= 0 {
        KeepAll(frames, Live(now, caps.ttl));
        return;
      }
      var next, size, gone := Survivors(now);
      stats := stats.(expired := stats.expired + gone);
      frames, bytes := next, size;
      StillValidFiltered(Live(now, caps.ttl));
    }

    method DropFrameAt(index: nat)
      requires Consistent()
      modifies this
      ensures Consistent()
      ensures nextID == old(nextID) && removed == old(removed)
      ensures index < |old(frames)| ==>
        && frames == DropAt(old(frames), index)
        && stats == old(stats).(dropped := old(stats.dropped) + 1)
      ensures index >= |old(frames)| ==> frames == old(frames) && stats == old(stats)
    {
      if index >= |frames| {
        return;
      }
      DropAtCounts(frames, index, Any());
      DropAtShrinks(frames, index);
      bytes := bytes - frames[index].size;
      stats := stats.(dropped := stats.dropped + 1);
      frames := frames[..index] + frames[index + 1..];
      StillConsistent();
    }

    method DropCandidateIndex() returns (index: nat)
      ensures frames == [] ==> index == 0
      ensures frames != [] ==> IsWorst(frames, Any(), index)
    {
      if |frames| == 0 {
        return 0;
      }
      index := 0;
      for i := 1 to |frames|
        invariant index < i
        invariant forall j :: 0 <= j < i ==> Priority(frames[j].frame) <= Priority(frames[index].frame)
        invariant forall j :: 0 <= j < index ==> Priority(frames[j].frame) < Priority(frames[index].frame)
      {
        if Priority(frames[i].frame) > Priority(frames[index].frame) {
          index := i;
        }
      }
    }

    method DropMatchingCandidateIndex(f: Item -> bool) returns (index: nat)
      ensures Filter(frames, f) == [] ==> index == 0
      ensures Filter(frames, f) != [] ==> IsWorst(frames, f, index)
    {
      var found := -1;
      for i := 0 to |frames|
        invariant -1 <= found < i
        invariant found < 0 ==> forall j :: 0 <= j < i ==> !f(frames[j])
        invariant found >= 0 ==> f(frames[found])
        invariant found >= 0 ==>
          forall j :: 0 <= j < i && f(frames[j]) ==> Priority(frames[j].frame) <= Priority(frames[found].frame)
        invariant found >= 0 ==>
          forall j :: 0 <= j < found && f(frames[j]) ==> Priority(frames[j].frame) < Priority(frames[found].frame)
      {
        if f(frames[i]) && (found < 0 || Priority(frames[i].frame) > Priority(frames[found].frame)) {
          found := i;
        }
      }
      FilterMembers(frames, f);
      if found < 0 {
        assert |Filter(frames, f)| > 0 ==> Filter(frames, f)[0] in Filter(frames, f);
        return 0;
      }
      assert frames[found] in frames;
      return found;
    }

    method CountMatching(f: Item -> bool) returns (n: nat)
      ensures n == |Filter(frames, f)|
    {
      n := 0;
      for i := 0 to |frames|
        invariant n == |Filter(frames[..i], f)|
      {
        assert frames[..i + 1][..i] == frames[..i];
        if f(frames[i]) {
          n := n + 1;
        }
      }
      assert frames[..|frames|] == frames;
    }

    method Trim()
      requires Consistent()
      modifies this
      ensures Consistent()
      ensures frames == TrimTotal(caps, old(frames))
      ensures nextID == old(nextID) && removed == old(removed)
      ensures stats == old(stats).(dropped := stats.dropped)
    {
      while |frames| > caps.maxFrames || (caps.maxBytes > 0 && bytes > caps.maxBytes)
        invariant Consistent()
        invariant TrimTotal(caps, frames) == TrimTotal(caps, old(frames))
        invariant nextID == old(nextID) && removed == old(removed)
        invariant stats == old(stats).(dropped := stats.dropped)
        decreases |frames|
      {
        var index := DropCandidateIndex();
        FilterAny(frames);
        WorstIsUnique(frames, Any(), index);
        DropFrameAt(index);
      }
    }

    method TrimMatching(f: Item -> bool, max: nat)
      requires Consistent()
      modifies this
      ensures Consistent()
      ensures frames == TrimGroup(old(frames), f, max)
      ensures nextID == old(nextID) && removed == old(removed)
      ensures stats == old(stats).(dropped := stats.dropped)
    {
      var n := CountMatching(f);
      while n > max
        invariant Consistent()
        invariant n == |Filter(frames, f)|
        invariant TrimGroup(frames, f, max) == TrimGroup(old(frames), f, max)
        invariant nextID == old(nextID) && removed == old(removed)
        invariant stats == old(stats).(dropped := stats.dropped)
        decreases |frames|
      {
        var index := DropMatchingCandidateIndex(f);
        WorstIsUnique(frames, f, index);
        DropFrameAt(index);
        n := CountMatching(f);
      }
    }

    method TrimToPeerCap(peer: string)
      requires Consistent()
      modifies this
      ensures Consistent()
      ensures frames == TrimPeer(caps, old(frames), peer)
      ensures nextID == old(nextID) && removed == old(removed)
      ensures stats == old(stats).(dropped := stats.dropped)
    {
      if caps.maxPerPeer <= 0 || peer == "" {
        return;
      }
      TrimMatching(OfPeer(peer), caps.maxPerPeer);
    }

    method TrimToSessionCap(key: SessionKey)
      requires Consistent()
      modifies this
      ensures Consistent()
      ensures frames == TrimSession(caps, old(frames), key)
      ensures nextID == old(nextID) && removed == old(removed)
      ensures stats == old(stats).(dropped := stats.dropped)
    {
      if caps.maxPerSession <= 0 || key == NoSession {
        return;
      }
      TrimMatching(OfSession(key), caps.maxPerSession);
    }

    twostate lemma StillConsistentAppended(x: Item)
      requires old(Consistent()) && frames == old(frames) + [x] && nextID == old(nextID) + 1
      requires x.id == nextID && x.size == |x.frame.payload| && bytes == old(bytes) + x.size
      requires stats == old(stats).(added := old(stats.added) + 1) && removed == old(removed)
      ensures Consistent()
    {
      AppendWellNumbered(old(frames), old(nextID), x);
    }

    method Append(f: RoutedFrame, now: int)
      requires Consistent()
      modifies this
      ensures Consistent()
      ensures frames == old(frames) + [NewItem(old(View()), f, now)] && nextID == old(nextID) + 1
      ensures stats == old(stats).(added := old(stats.added) + 1) && removed == old(removed)
    {
      nextID := nextID + 1;
      var size := |f.payload|;
      frames := frames + [Item(f, now, size, nextID)];
      bytes := bytes + size;
      stats := stats.(added := stats.added + 1);
      StillConsistentAppended(Item(f, now, size, nextID));
    }

    method AddFrame(f: RoutedFrame, now: int)
      requires Valid()
      modifies this
      ensures Valid()
      ensures View() == AddOne(caps, old(View()), f, now)
      ensures stats.added == old(stats.added) + 1 && removed == old(removed) && stats.expired == old(stats.expired)
    {
      ghost var before := View();
      Append(f, now);
      Trim();
      TrimToPeerCap(f.dstDevice);
      TrimToSessionCap(SessionOf(f));
      AddOneKeepsCaps(caps, before, f, now);
    }

    method Add(fs: seq<RoutedFrame>, now: int)
      requires Valid()
      modifies this
      ensures Valid()
      ensures View() == AddAll(caps, Contents(Filter(old(frames), Live(now, caps.ttl)), old(nextID)), fs, now)
      ensures stats.added == old(stats.added) + |fs| && removed == old(removed)
      ensures stats.expired == old(stats.expired) + |old(frames)| - |Filter(old(frames), Live(now, caps.ttl))|
    {
      Prune(now);
      ghost var start, expired := View(), stats.expired;
      for i := 0 to |fs|
        invariant Valid()
        invariant View() == AddAll(caps, start, fs[..i], now)
        invariant stats.added == old(stats.added) + i && removed == old(removed) && stats.expired == expired
      {
        AddAllNext(caps, start, fs, i, now);
        AddFrame(fs[i], now);
      }
      assert fs[..|fs|] == fs;
    }

    method Ordering(now: int) returns (order: seq<Item>)
      requires Valid()
      modifies this
      ensures Valid()
      ensures frames == Filter(old(frames), Live(now, caps.ttl)) && order == SendOrder(frames)
      ensures stats == old(stats).(expired := old(stats.expired) + |old(frames)| - |frames|)
      ensures nextID == old(nextID) && removed == old(removed)
    {
      Prune(now);
      order := SendOrder(frames);
    }

    /** The compaction loop of `Remove`: the frames to keep, and their size. */
    method Kept(ids: set<nat>) returns (next: seq<Item>, size: nat)
      ensures next == Filter(frames, Without(ids)) && size == Sum(next)
    {
      next, size := [], 0;
      for i := 0 to |frames|
        invariant next == Filter(frames[..i], Without(ids)) && size == Sum(next)
      {
        assert frames[..i + 1][..i] == frames[..i];
        if frames[i].id !in ids {
          assert (next + [frames[i]])[..|next|] == next;
          next := next + [frames[i]];
          size := size + frames[i].size;
        }
      }
      assert frames[..|frames|] == frames;
    }

    method DeleteByID(ids: set<nat>)
      requires Valid()
      modifies this
      ensures Valid()
      ensures frames == Filter(old(frames), Without(ids))
      ensures nextID == old(nextID) && stats == old(stats)
      ensures removed == old(removed) + |old(frames)| - |frames|
    {
      var next, size := Kept(ids);
      removed := removed + |frames| - |next|;
      frames, bytes := next, size;
      StillValidFiltered(Without(ids));
    }

    method Remove(delivered: set<int>, now: int, later: int)
      requires Valid()
      modifies this
      ensures Valid()
      ensures frames == Removed(old(frames), delivered, caps.ttl, now, later)
      ensures nextID == old(nextID)
      ensures stats.added == old(stats.added) && stats.dropped == old(stats.dropped)
      ensures removed == old(removed) + RemovedCount(old(frames), delivered, caps.ttl, now)
    {
      if delivered == {} {
        Prune(now);
        KeepAll(frames, Without(IDsAt(SendOrder(frames), {})));
        return;
      }
      var order := Ordering(now);
      var ids := IDsAt(order, delivered);
      DeleteByID(ids);
      Prune(later);
    }
  }
}
