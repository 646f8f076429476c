/** Who leaves the pending queue when all of its caps are on: what each stage of an insertion keeps, in terms of ranks,
    and in which order the stages come. */
module Stages {
  import opened PendingQueue
  import opened Eviction

  ghost function Items(s: seq<Item>): set<Item> {
    set x | x in s
  }

  lemma ItemsJoined(s: seq<Item>, x: Item)
    ensures Items(s + [x]) == Items(s) + {x}
  {
  }

  lemma SumJoined(s: seq<Item>, x: Item)
    ensures Sum(s + [x]) == Sum(s) + x.size
  {
    assert (s + [x])[..|s|] == s;
  }

  lemma Rejoined(s: seq<Item>)
    requires s != []
    ensures s == s[..|s| - 1] + [s[|s| - 1]]
  {
  }

  lemma EarlierIsLess(s: seq<Item>)
    requires Ordered(s) && s != []
    ensures Ordered(s[..|s| - 1]) && forall y :: y in s[..|s| - 1] ==> y.id < s[|s| - 1].id
  {
  }

  /** The last of an ordered sequence, and the rest. */
  lemma LastOf(s: seq<Item>, rest: seq<Item>, x: Item)
    requires Ordered(s) && s != [] && rest == s[..|s| - 1] && x == s[|s| - 1]
    ensures s == rest + [x] && Ordered(rest) && forall y :: y in Items(rest) ==> y.id < x.id
    ensures Items(s) == Items(rest) + {x} && Sum(s) == Sum(rest) + x.size
  {
    Rejoined(s);
    EarlierIsLess(s);
    ItemsJoined(rest, x);
    SumJoined(rest, x);
  }

  /** Those of the selected items that outrank `y`. */
  ghost function Better(a: set<Item>, f: Item -> bool, y: Item): set<Item> {
    set z | z in a && f(z) && Outranks(z, y)
  }

  /** Of the selected items the best `max`, and all others. */
  ghost function BestOf(a: set<Item>, f: Item -> bool, max: nat): (r: set<Item>)
    ensures r <= a
  {
    set y | y in a && (f(y) ==> |Better(a, f, y)| < max)
  }

  function AtOrAbove(y: Item): Item -> bool {
    (z: Item) => z == y || Outranks(z, y)
  }

  /** `y`, together with all that outranks it, exceeds neither the cap on frames nor the cap on bytes. */
  ghost predicate Fits(caps: Caps, s: seq<Item>, y: Item) {
    var part := Filter(s, AtOrAbove(y));
    |part| <= caps.maxFrames && (caps.maxBytes > 0 ==> Sum(part) <= caps.maxBytes)
  }

  /** The best items, as many as fit. */
  ghost function Fitting(caps: Caps, s: seq<Item>): (r: set<Item>)
    ensures r <= Items(s)
  {
    set y | y in s && Fits(caps, s, y)
  }

  // ---------------------------------------------------------------------------------------------
  // One stage

  lemma UnselectedIsNeutral(a: seq<Item>, x: Item, b: seq<Item>, f: Item -> bool)
    requires !f(x)
    ensures Filter(a + [x] + b, f) == Filter(a + b, f)
  {
    FilterConcat(a + [x], b, f);
    FilterSnoc(a, x, f);
    FilterConcat(a, b, f);
  }

  lemma CutAt(s: seq<Item>, i: nat, a: seq<Item>, b: seq<Item>)
    requires i < |s| && a == s[..i] && b == s[i + 1..]
    ensures s == a + [s[i]] + b && DropAt(s, i) == a + b
  {
  }

  lemma DropKeepsOthers(s: seq<Item>, i: nat, f: Item -> bool)
    requires i < |s| && !f(s[i])
    ensures Filter(DropAt(s, i), f) == Filter(s, f)
  {
    CutAt(s, i, s[..i], s[i + 1..]);
    UnselectedIsNeutral(s[..i], s[i], s[i + 1..], f);
  }

  /** All of a group but its worst outrank the worst. */
  lemma BetterThanWorst(s: seq<Item>, f: Item -> bool, w: nat)
    requires Ordered(s) && IsWorst(s, f, w)
    ensures |Better(Items(s), f, s[w])| == |Filter(s, f)| - 1
  {
    var group := set z | z in s && f(z);
    CountIsCardinality(s, f);
    forall z | z in group - {s[w]} ensures Outranks(z, s[w]) {
      WorstIsOutranked(s, f, w, z);
    }
    assert s[w] in group && Better(Items(s), f, s[w]) == group - {s[w]};
  }

  lemma BetterIsFewer(s: seq<Item>, f: Item -> bool, y: Item)
    requires Ordered(s) && y in s && f(y)
    ensures |Better(Items(s), f, y)| < |Filter(s, f)|
  {
    var group := set z | z in s && f(z);
    CountIsCardinality(s, f);
    assert y in group;
    SubsetSize(Better(Items(s), f, y), group - {y});
  }

  lemma BestWithoutWorst(s: seq<Item>, f: Item -> bool, max: nat, w: nat, r: seq<Item>)
    requires Ordered(s) && IsWorst(s, f, w) && |Filter(s, f)| > max && r == DropAt(s, w)
    ensures Ordered(r) && BestOf(Items(r), f, max) == BestOf(Items(s), f, max)
  {
    DropAtMembers(s, w);
    BetterThanWorst(s, f, w);
    forall y | y in r && f(y) ensures Better(Items(r), f, y) == Better(Items(s), f, y) {
      WorstIsOutranked(s, f, w, y);
    }
  }

  /** A cap on a group keeps the best of the group and touches nothing else. */
  lemma {:induction false} GroupExactly(s: seq<Item>, f: Item -> bool, max: nat)
    requires Ordered(s)
    ensures Ordered(TrimGroup(s, f, max)) && Items(TrimGroup(s, f, max)) == BestOf(Items(s), f, max)
    decreases |s|
  {
    if |Filter(s, f)| > max {
      var w := Worst(s, f);
      BestWithoutWorst(s, f, max, w, DropAt(s, w));
      GroupExactly(DropAt(s, w), f, max);
    } else {
      forall y | y in s && f(y) ensures |Better(Items(s), f, y)| < max {
        BetterIsFewer(s, f, y);
      }
    }
  }

  lemma WorstDoesNotFit(caps: Caps, s: seq<Item>, w: nat)
    requires Ordered(s) && IsWorst(s, Any(), w) && OverTotal(caps, s)
    ensures !Fits(caps, s, s[w])
  {
    forall z | z in s ensures AtOrAbove(s[w])(z) {
      if z != s[w] {
        WorstIsOutranked(s, Any(), w, z);
      }
    }
    KeepAll(s, AtOrAbove(s[w]));
  }

  lemma OthersFitAlike(caps: Caps, s: seq<Item>, w: nat, y: Item)
    requires Ordered(s) && IsWorst(s, Any(), w) && y in s && y != s[w]
    ensures Fits(caps, DropAt(s, w), y) <==> Fits(caps, s, y)
  {
    WorstIsOutranked(s, Any(), w, y);
    DropKeepsOthers(s, w, AtOrAbove(y));
  }

  lemma FittingWithoutWorst(caps: Caps, s: seq<Item>, w: nat, r: seq<Item>)
    requires Ordered(s) && IsWorst(s, Any(), w) && OverTotal(caps, s) && r == DropAt(s, w)
    ensures Ordered(r) && Fitting(caps, r) == Fitting(caps, s)
  {
    DropAtMembers(s, w);
    WorstDoesNotFit(caps, s, w);
    forall y | y in r ensures Fits(caps, r, y) <==> Fits(caps, s, y) {
      OthersFitAlike(caps, s, w, y);
    }
  }

  /** The caps on frames and bytes keep the best items, as many as fit: the item at which the bytes run out leaves, and
      so does everything it outranks, however small. */
  lemma {:induction false} TotalExactly(caps: Caps, s: seq<Item>)
    requires Ordered(s)
    ensures Ordered(TrimTotal(caps, s)) && Items(TrimTotal(caps, s)) == Fitting(caps, s)
    decreases |s|
  {
    FilterAny(s);
    if OverTotal(caps, s) {
      var w := Worst(s, Any());
      FittingWithoutWorst(caps, s, w, DropAt(s, w));
      TotalExactly(caps, DropAt(s, w));
    } else {
      forall y | y in s ensures Fits(caps, s, y) {
        FilterShrinks(s, AtOrAbove(y));
      }
    }
  }

  // ---------------------------------------------------------------------------------------------
  // An insertion: everything first, then the newcomer's peer, then its session

  ghost function KeptOfPeer(caps: Caps, a: set<Item>, peer: string): (r: set<Item>)
    ensures r <= a
  {
    if caps.maxPerPeer > 0 && peer != "" then BestOf(a, OfPeer(peer), caps.maxPerPeer) else a
  }

  ghost function KeptOfSession(caps: Caps, a: set<Item>, key: SessionKey): (r: set<Item>)
    ensures r <= a
  {
    if caps.maxPerSession > 0 && key != NoSession then BestOf(a, OfSession(key), caps.maxPerSession) else a
  }

  lemma PeerStage(caps: Caps, s: seq<Item>, peer: string, r: seq<Item>)
    requires Ordered(s) && r == TrimPeer(caps, s, peer)
    ensures Ordered(r) && Items(r) == KeptOfPeer(caps, Items(s), peer)
  {
    if caps.maxPerPeer > 0 {
      GroupExactly(s, OfPeer(peer), caps.maxPerPeer);
    }
  }

  lemma SessionStage(caps: Caps, s: seq<Item>, key: SessionKey, r: seq<Item>)
    requires Ordered(s) && r == TrimSession(caps, s, key)
    ensures Ordered(r) && Items(r) == KeptOfSession(caps, Items(s), key)
  {
    if caps.maxPerSession > 0 {
      GroupExactly(s, OfSession(key), caps.maxPerSession);
    }
  }

  lemma StillWellNumbered(r: seq<Item>, s: seq<Item>, nextID: nat)
    requires WellNumbered(s, nextID) && Ordered(r) && Items(r) <= Items(s)
    ensures WellNumbered(r, nextID)
  {
    assert forall x :: x in r ==> x in Items(r);
  }

  lemma NewItemIs(q: Contents, f: RoutedFrame, now: int)
    ensures NewItem(q, f, now) == Item(f, now, |f.payload|, q.nextID + 1)
  {
  }

  /** The stages by name. */
  lemma AddOneStages(caps: Caps, q: Contents, f: RoutedFrame, now: int, t: seq<Item>, u: seq<Item>)
    requires t == TrimTotal(caps, q.items + [NewItem(q, f, now)]) && u == TrimPeer(caps, t, f.dstDevice)
    ensures AddOne(caps, q, f, now) == Contents(TrimSession(caps, u, SessionOf(f)), q.nextID + 1)
  {
  }

  /** Under all caps at once: of the queue and the newcomer the best stay that fit; of these the best of the newcomer's
      peer; of these the best of its session. */
  lemma AddOneExactly(caps: Caps, q: Contents, f: RoutedFrame, now: int, s: seq<Item>, r: Contents)
    requires WellNumbered(q.items, q.nextID) && r == AddOne(caps, q, f, now)
    requires s == q.items + [Item(f, now, |f.payload|, q.nextID + 1)]
    ensures r.nextID == q.nextID + 1 && WellNumbered(r.items, r.nextID)
    ensures Items(r.items) == KeptOfSession(caps, KeptOfPeer(caps, Fitting(caps, s), f.dstDevice), SessionOf(f))
  {
    NewItemIs(q, f, now);
    AppendWellNumbered(q.items, q.nextID, NewItem(q, f, now));
    var t := TrimTotal(caps, s);
    var u := TrimPeer(caps, t, f.dstDevice);
    AddOneStages(caps, q, f, now, t, u);
    TotalExactly(caps, s);
    PeerStage(caps, t, f.dstDevice, u);
    SessionStage(caps, u, SessionOf(f), r.items);
    StillWellNumbered(r.items, s, r.nextID);
  }

  // ---------------------------------------------------------------------------------------------
  // One at a time

  /** The item given up is the worst of those selected, if there are too many. */
  ghost predicate GivesUpWorst(s: seq<Item>, f: Item -> bool, tooMany: bool, r: seq<Item>) {
    if tooMany then exists w :: IsWorst(s, f, w) && r == DropAt(s, w) else r == s
  }

  lemma OneTooMany(s: seq<Item>, f: Item -> bool, max: nat)
    requires |Filter(s, f)| <= max + 1
    ensures GivesUpWorst(s, f, |Filter(s, f)| > max, TrimGroup(s, f, max))
  {
    TrimOnce(s, f, max);
    if |Filter(s, f)| > max {
      assert IsWorst(s, f, Worst(s, f));
    }
  }

  lemma NoItems(s: seq<Item>)
    ensures s == [] <==> Items(s) == {}
  {
    if s != [] {
      assert s[0] in Items(s);
    }
  }

  lemma SameLast(a: set<Item>, x: Item, b: set<Item>, y: Item)
    requires a + {x} == b + {y} && (forall z :: z in a ==> z.id < x.id) && (forall z :: z in b ==> z.id < y.id)
    ensures x == y && a == b
  {
    assert x in b + {y} && y in a + {x};
    assert a == a + {x} - {x} && b == b + {y} - {y};
  }

  lemma {:induction false} ItemsDetermine(a: seq<Item>, b: seq<Item>)
    requires Ordered(a) && Ordered(b) && Items(a) == Items(b)
    ensures a == b
  {
    NoItems(a);
    NoItems(b);
    if a != [] {
      var x, y := a[|a| - 1], b[|b| - 1];
      var front, rest := a[..|a| - 1], b[..|b| - 1];
      LastOf(a, front, x);
      LastOf(b, rest, y);
      SameLast(Items(front), x, Items(rest), y);
      ItemsDetermine(front, rest);
    }
  }

  lemma GivesUpOne(q: seq<Item>, x: Item, t: seq<Item>, f: Item -> bool, max: nat)
    requires |Filter(q, f)| <= max && Shrunk(t, q + [x])
    ensures GivesUpWorst(t, f, |Filter(t, f)| > max, TrimGroup(t, f, max))
    ensures Shrunk(TrimGroup(t, f, max), q + [x])
  {
    GroupGrowsByOwn(q, x, f);
    assert |Filter(t, f)| <= |Filter(q + [x], f)|;
    OneTooMany(t, f, max);
    TrimGroupShrinks(t, f, max);
  }

  lemma GivesUpIsUnique(t: seq<Item>, f: Item -> bool, max: nat, u: seq<Item>, v: seq<Item>)
    requires GivesUpWorst(t, f, |Filter(t, f)| > max, u) && GivesUpWorst(t, f, |Filter(t, f)| > max, v)
    ensures u == v
  {
    if |Filter(t, f)| > max {
      var i :| IsWorst(t, f, i) && u == DropAt(t, i);
      var j :| IsWorst(t, f, j) && v == DropAt(t, j);
      WorstIsUnique(t, f, i);
      WorstIsUnique(t, f, j);
    }
  }

  lemma PeerGivesUp(caps: Caps, q: seq<Item>, x: Item, t: seq<Item>, peer: string, u: seq<Item>)
    requires WithinCaps(caps, q) && Shrunk(t, q + [x])
    requires GivesUpWorst(t, OfPeer(peer),
      caps.maxPerPeer > 0 && peer != "" && |Filter(t, OfPeer(peer))| > caps.maxPerPeer, u)
    ensures u == TrimPeer(caps, t, peer) && Shrunk(u, q + [x])
  {
    if caps.maxPerPeer > 0 && peer != "" {
      GivesUpOne(q, x, t, OfPeer(peer), caps.maxPerPeer);
      GivesUpIsUnique(t, OfPeer(peer), caps.maxPerPeer, u, TrimGroup(t, OfPeer(peer), caps.maxPerPeer));
    }
  }

  lemma SessionGivesUp(caps: Caps, q: seq<Item>, x: Item, u: seq<Item>, key: SessionKey, r: seq<Item>)
    requires WithinCaps(caps, q) && Shrunk(u, q + [x]) && r == TrimSession(caps, u, key)
    ensures GivesUpWorst(u, OfSession(key),
      caps.maxPerSession > 0 && key != NoSession && |Filter(u, OfSession(key))| > caps.maxPerSession, r)
  {
    if caps.maxPerSession > 0 && key != NoSession {
      GivesUpOne(q, x, u, OfSession(key), caps.maxPerSession);
    }
  }

  /** In a queue within its caps: once the best are there that fit, the worst of the newcomer's peer leaves exactly when
      the peer has then one frame too many, and after that the worst of its session exactly when the session has. */
  lemma OneOfEachLeaves(caps: Caps, q: Contents, f: RoutedFrame, now: int, s: seq<Item>, t: seq<Item>, u: seq<Item>)
    requires WellNumbered(q.items, q.nextID) && WithinCaps(caps, q.items)
    requires s == q.items + [Item(f, now, |f.payload|, q.nextID + 1)]
    requires Ordered(t) && Items(t) == Fitting(caps, s)
    requires GivesUpWorst(t, OfPeer(f.dstDevice),
      caps.maxPerPeer > 0 && f.dstDevice != "" && |Filter(t, OfPeer(f.dstDevice))| > caps.maxPerPeer, u)
    ensures GivesUpWorst(u, OfSession(SessionOf(f)),
      caps.maxPerSession > 0 && SessionOf(f) != NoSession &&
      |Filter(u, OfSession(SessionOf(f)))| > caps.maxPerSession, AddOne(caps, q, f, now).items)
  {
    var x := NewItem(q, f, now);
    NewItemIs(q, f, now);
    AppendWellNumbered(q.items, q.nextID, x);
    TotalExactly(caps, s);
    ItemsDetermine(t, TrimTotal(caps, s));
    TrimTotalShrinks(caps, s);
    PeerGivesUp(caps, q.items, x, t, f.dstDevice, u);
    AddOneStages(caps, q, f, now, t, u);
    SessionGivesUp(caps, q.items, x, u, SessionOf(f), TrimSession(caps, u, SessionOf(f)));
  }

  /** Without a cap on bytes, the worst of all leaves first exactly when there is one frame too many. */
  lemma OneOfAllLeaves(caps: Caps, q: Contents, f: RoutedFrame, now: int, s: seq<Item>, t: seq<Item>)
    requires WellNumbered(q.items, q.nextID) && WithinCaps(caps, q.items) && caps.maxBytes <= 0
    requires s == q.items + [Item(f, now, |f.payload|, q.nextID + 1)]
    requires Ordered(t) && Items(t) == Fitting(caps, s)
    ensures GivesUpWorst(s, Any(), |s| > caps.maxFrames, t)
  {
    NewItemIs(q, f, now);
    AppendWellNumbered(q.items, q.nextID, NewItem(q, f, now));
    TotalExactly(caps, s);
    ItemsDetermine(t, TrimTotal(caps, s));
    TotalIsGroupOfAll(caps, s);
    FilterAny(s);
    OneTooMany(s, Any(), caps.maxFrames);
  }

  // ---------------------------------------------------------------------------------------------
  // The order of the stages

  lemma FilterOfThree(a: Item, b: Item, c: Item, f: Item -> bool)
    ensures Filter([a, b, c], f) ==
      (if f(a) then [a] else []) + (if f(b) then [b] else []) + (if f(c) then [c] else [])
  {
    FilterSnoc([], a, f);
    FilterSnoc([a], b, f);
    FilterSnoc([a, b], c, f);
    assert [] + [a] == [a] && [a] + [b] == [a, b] && [a, b] + [c] == [a, b, c];
  }

  lemma FilterOfTwo(a: Item, b: Item, f: Item -> bool)
    ensures Filter([a, b], f) == (if f(a) then [a] else []) + (if f(b) then [b] else [])
  {
    FilterSnoc([], a, f);
    FilterSnoc([a], b, f);
    assert [] + [a] == [a] && [a] + [b] == [a, b];
  }

  /** One too many of those selected: the one known to be the worst leaves. */
  lemma KnownWorstLeaves(s: seq<Item>, f: Item -> bool, max: nat, w: nat, r: seq<Item>)
    requires |Filter(s, f)| == max + 1 && IsWorst(s, f, w) && r == DropAt(s, w)
    ensures TrimGroup(s, f, max) == r
  {
    WorstIsUnique(s, f, w);
    TrimOnce(s, f, max);
  }

  /** Three frames of one class for one peer, the two newer ones of one session and the oldest of another; two frames
      allowed per peer and one per session. */
  predicate ThreeOfTwoSessions(caps: Caps, a: Item, b: Item, c: Item, peer: string, key: SessionKey) {
    && caps.maxPerPeer == 2 && caps.maxPerSession == 1 && peer != "" && key != NoSession
    && a.frame.dstDevice == b.frame.dstDevice == c.frame.dstDevice == peer
    && SessionOf(a.frame) != key && SessionOf(b.frame) == SessionOf(c.frame) == key
    && Priority(a.frame) == Priority(b.frame) == Priority(c.frame)
  }

  /** First the peer gives up the oldest, then the session gives up the middle one. */
  lemma PeerFirst(caps: Caps, a: Item, b: Item, c: Item, peer: string, key: SessionKey)
    requires ThreeOfTwoSessions(caps, a, b, c, peer, key)
    ensures TrimSession(caps, TrimPeer(caps, [a, b, c], peer), key) == [c]
  {
    FilterOfThree(a, b, c, OfPeer(peer));
    FilterOfTwo(b, c, OfSession(key));
    KnownWorstLeaves([a, b, c], OfPeer(peer), 2, 0, [b, c]);
    KnownWorstLeaves([b, c], OfSession(key), 1, 0, [c]);
  }

  /** The other way round the session gives up the middle one, and the oldest stays. */
  lemma SessionFirst(caps: Caps, a: Item, b: Item, c: Item, peer: string, key: SessionKey)
    requires ThreeOfTwoSessions(caps, a, b, c, peer, key)
    ensures TrimPeer(caps, TrimSession(caps, [a, b, c], key), peer) == [a, c]
  {
    FilterOfThree(a, b, c, OfSession(key));
    FilterOfTwo(a, c, OfPeer(peer));
    KnownWorstLeaves([a, b, c], OfSession(key), 1, 1, [a, c]);
  }

  /** So in a queue that holds two such frames the third leaves only itself, and the order of the stages matters. */
  lemma OrderMatters(caps: Caps, q: Contents, f: RoutedFrame, now: int, a: Item, b: Item, c: Item, key: SessionKey)
    requires caps.maxFrames >= 3 && caps.maxBytes <= 0 && q.items == [a, b] && c == NewItem(q, f, now)
    requires ThreeOfTwoSessions(caps, a, b, c, f.dstDevice, key)
    ensures AddOne(caps, q, f, now).items == [c]
    ensures TrimPeer(caps, TrimSession(caps, TrimTotal(caps, [a, b, c]), key), f.dstDevice) == [a, c]
  {
    assert [a, b] + [c] == [a, b, c] && !OverTotal(caps, [a, b, c]);
    PeerFirst(caps, a, b, c, f.dstDevice, key);
    SessionFirst(caps, a, b, c, f.dstDevice, key);
  }

  // ---------------------------------------------------------------------------------------------
  // Whole runs under all caps

  /** One more arrival. */
  lemma NextOfRun(caps: Caps, arrivals: seq<Arrival>, q: Contents, x: Item, r: Contents)
    requires arrivals != [] && x == LastItem(arrivals) && q == RunAdds(caps, arrivals[..|arrivals| - 1])
    requires WellNumbered(q.items, q.nextID) && q.nextID == |arrivals| - 1 && r == RunAdds(caps, arrivals)
    ensures WellNumbered(r.items, r.nextID) && r.nextID == |arrivals| && Ordered(q.items + [x])
    ensures Items(r.items) ==
      KeptOfSession(caps, KeptOfPeer(caps, Fitting(caps, q.items + [x]), x.frame.dstDevice), SessionOf(x.frame))
  {
    AppendWellNumbered(q.items, q.nextID, x);
    AddOneExactly(caps, q, x.frame, x.at, q.items + [x], r);
  }

  lemma HistoryItems(arrivals: seq<Arrival>, x: Item)
    requires arrivals != [] && x == LastItem(arrivals)
    ensures Items(History(arrivals)) == Items(History(arrivals[..|arrivals| - 1])) + {x}
  {
    HistoryLast(arrivals);
    ItemsJoined(History(arrivals[..|arrivals| - 1]), x);
  }

  /** What is left after any run is in arrival order, and every item is one of its history. */
  lemma {:induction false} RunIsFromHistory(caps: Caps, arrivals: seq<Arrival>, q: Contents)
    requires q == RunAdds(caps, arrivals)
    ensures WellNumbered(q.items, q.nextID) && q.nextID == |arrivals| && Items(q.items) <= Items(History(arrivals))
  {
    if arrivals != [] {
      var before, x := arrivals[..|arrivals| - 1], LastItem(arrivals);
      var p := RunAdds(caps, before);
      RunIsFromHistory(caps, before, p);
      NextOfRun(caps, arrivals, p, x, q);
      HistoryItems(arrivals, x);
      ItemsJoined(p.items, x);
    }
  }

  lemma {:induction false} PartWeighsLess(a: seq<Item>, b: seq<Item>)
    requires Ordered(a) && Ordered(b) && Items(a) <= Items(b)
    ensures |a| <= |b| && Sum(a) <= Sum(b)
    decreases |b|
  {
    NoItems(a);
    NoItems(b);
    if a != [] {
      var m, n := |a| - 1, |b| - 1;
      LastOf(a, a[..m], a[m]);
      LastOf(b, b[..n], b[n]);
      if a[m] == b[n] {
        PartWeighsLess(a[..m], b[..n]);
      } else {
        assert a[m] in Items(b[..n]) && b[n] !in Items(a);
        PartWeighsLess(a, b[..n]);
      }
    }
  }

  lemma FitsInPart(caps: Caps, s: seq<Item>, all: seq<Item>, y: Item)
    requires Ordered(s) && Ordered(all) && Items(s) <= Items(all) && Fits(caps, all, y)
    ensures Fits(caps, s, y)
  {
    var f := AtOrAbove(y);
    FilterMembers(s, f);
    FilterMembers(all, f);
    FilterOrdered(s, f);
    FilterOrdered(all, f);
    assert forall x :: x in s ==> x in Items(s);
    PartWeighsLess(Filter(s, f), Filter(all, f));
  }

  /** No cap in force, held against the whole history, has used up its room with items that outrank `y`. */
  ghost predicate GoodEnough(caps: Caps, all: seq<Item>, y: Item) {
    && Fits(caps, all, y)
    && (caps.maxPerPeer > 0 && y.frame.dstDevice != "" ==> |Above(PerPeer, all, y)| < caps.maxPerPeer)
    && (caps.maxPerSession > 0 && SessionOf(y.frame) != NoSession ==> |Above(PerSession, all, y)| < caps.maxPerSession)
  }

  lemma StaysInBest(a: set<Item>, f: Item -> bool, max: nat, above: set<Item>, y: Item)
    requires y in a && (f(y) ==> Better(a, f, y) <= above && |above| < max)
    ensures y in BestOf(a, f, max)
  {
    if f(y) {
      SubsetSize(Better(a, f, y), above);
    }
  }

  lemma GoodEnoughStays(caps: Caps, s: seq<Item>, f: RoutedFrame, all: seq<Item>, y: Item)
    requires Ordered(s) && Ordered(all) && Items(s) <= Items(all) && y in Items(s) && GoodEnough(caps, all, y)
    ensures y in KeptOfSession(caps, KeptOfPeer(caps, Fitting(caps, s), f.dstDevice), SessionOf(f))
  {
    FitsInPart(caps, s, all, y);
    var a := Fitting(caps, s);
    var b := KeptOfPeer(caps, a, f.dstDevice);
    if caps.maxPerPeer > 0 && f.dstDevice != "" {
      StaysInBest(a, OfPeer(f.dstDevice), caps.maxPerPeer, Above(PerPeer, all, y), y);
    }
    if caps.maxPerSession > 0 && SessionOf(f) != NoSession {
      StaysInBest(b, OfSession(SessionOf(f)), caps.maxPerSession, Above(PerSession, all, y), y);
    }
  }

  lemma {:induction false} HistoryOrdered(arrivals: seq<Arrival>)
    ensures Ordered(History(arrivals))
  {
    if arrivals != [] {
      var before := arrivals[..|arrivals| - 1];
      HistoryOrdered(before);
      HistoryNumbers(before);
      HistoryLast(arrivals);
      AppendNewest(History(before), LastItem(arrivals));
    }
  }

  lemma {:induction false} HistoryPrefix(arrivals: seq<Arrival>, n: nat)
    requires n <= |arrivals|
    ensures Items(History(arrivals[..n])) <= Items(History(arrivals))
  {
    if n == |arrivals| {
      assert arrivals[..n] == arrivals;
    } else {
      var m := |arrivals| - 1;
      HistoryPrefix(arrivals[..m], n);
      assert arrivals[..m][..n] == arrivals[..n];
      HistoryItems(arrivals, LastItem(arrivals));
    }
  }

  lemma GoodEnoughStaysNext(caps: Caps, upto: seq<Arrival>, q: Contents, all: seq<Item>, y: Item)
    requires upto != [] && q == RunAdds(caps, upto[..|upto| - 1])
    requires Ordered(all) && Items(History(upto)) <= Items(all) && GoodEnough(caps, all, y)
    requires y in Items(q.items) || y == LastItem(upto)
    ensures y in Items(RunAdds(caps, upto).items)
  {
    var x := LastItem(upto);
    RunIsFromHistory(caps, upto[..|upto| - 1], q);
    NextOfRun(caps, upto, q, x, RunAdds(caps, upto));
    HistoryItems(upto, x);
    ItemsJoined(q.items, x);
    GoodEnoughStays(caps, q.items + [x], x.frame, all, y);
  }

  lemma {:induction false} GoodEnoughSoFar(caps: Caps, part: seq<Arrival>, all: seq<Item>, y: Item)
    requires Ordered(all) && Items(History(part)) <= Items(all) && GoodEnough(caps, all, y)
    requires y in Items(History(part))
    ensures y in Items(RunAdds(caps, part).items)
  {
    if part != [] {
      var before := part[..|part| - 1];
      HistoryItems(part, LastItem(part));
      if y in Items(History(before)) {
        GoodEnoughSoFar(caps, before, all, y);
      }
      GoodEnoughStaysNext(caps, part, RunAdds(caps, before), all, y);
    }
  }

  /** Under all caps at once: a frame that fewer competitors than every cap allows outrank, over the whole history, is
      in the queue from its arrival to the end of the run. */
  lemma GoodEnoughIsKept(caps: Caps, arrivals: seq<Arrival>, n: nat, y: Item)
    requires n <= |arrivals| && y in History(arrivals[..n]) && GoodEnough(caps, History(arrivals), y)
    ensures y in RunAdds(caps, arrivals[..n]).items
  {
    HistoryPrefix(arrivals, n);
    HistoryOrdered(arrivals);
    assert y in Items(History(arrivals[..n]));
    GoodEnoughSoFar(caps, arrivals[..n], History(arrivals), y);
  }
}
