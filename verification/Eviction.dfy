/** Online eviction is offline selection: when one cap of the pending queue is the only limit in force, what survives
    any sequence of insertions is exactly what a look over the whole history would have picked. */
module Eviction {
  import opened PendingQueue

  /** The cap in force, and so what competes with what: everything, one peer's frames, or one session's frames. */
  datatype Cap = Total | PerPeer | PerSession

  function Group(cap: Cap, x: Item): Item -> bool {
    match cap
    case Total => Any()
    case PerPeer => OfPeer(x.frame.dstDevice)
    case PerSession => OfSession(SessionOf(x.frame))
  }

  /** Frames the cap does not count. */
  predicate Exempt(cap: Cap, x: Item) {
    || (cap.PerPeer? && x.frame.dstDevice == "")
    || (cap.PerSession? && SessionOf(x.frame) == NoSession)
  }

  /** Better class first, then newer. */
  predicate Outranks(x: Item, y: Item) {
    || Priority(x.frame) < Priority(y.frame)
    || (Priority(x.frame) == Priority(y.frame) && x.id > y.id)
  }

  /** Everything ever added that competes with `y` and beats it. */
  ghost function Above(cap: Cap, all: seq<Item>, y: Item): set<Item> {
    set z | z in all && Group(cap, y)(z) && Outranks(z, y)
  }

  /** The cap is used up by items that outrank `y`. */
  ghost predicate Beaten(cap: Cap, n: nat, q: seq<Item>, y: Item) {
    && |Filter(q, Group(cap, y))| == n
    && forall z :: z in q && Group(cap, y)(z) ==> Outranks(z, y)
  }

  /** `q` is the part of the history `all` worth keeping under a cap of `n`. */
  ghost predicate IsTop(cap: Cap, n: nat, all: seq<Item>, q: seq<Item>) {
    && Ordered(all) && Ordered(q)
    && (forall y :: y in q ==> y in all)
    && (forall y :: y in all && Exempt(cap, y) ==> y in q)
    && (forall y :: !Exempt(cap, y) ==> |Filter(q, Group(cap, y))| <= n)
    && (forall y :: y in all && y !in q ==> Beaten(cap, n, q, y))
  }

  lemma {:induction false} SubsetSize(a: set<Item>, b: set<Item>)
    requires a <= b
    ensures |a| <= |b|
  {
    if a != {} {
      var x :| x in a;
      SubsetSize(a - {x}, b - {x});
    }
  }

  lemma Grouped(cap: Cap, x: Item, y: Item)
    ensures Group(cap, x)(y) <==> Group(cap, y)(x)
    ensures Group(cap, x)(y) ==> Group(cap, x) == Group(cap, y) && (Exempt(cap, x) <==> Exempt(cap, y))
  {
  }

  lemma KeptIsFewAbove(cap: Cap, n: nat, all: seq<Item>, q: seq<Item>, y: Item)
    requires IsTop(cap, n, all, q) && y in q && !Exempt(cap, y)
    ensures |Above(cap, all, y)| < n
  {
    var group := set z | z in q && Group(cap, y)(z);
    CountIsCardinality(q, Group(cap, y));
    assert y in group;
    forall z | z in Above(cap, all, y) ensures z in group - {y} {
      Grouped(cap, y, z);
    }
    SubsetSize(Above(cap, all, y), group - {y});
  }

  lemma DroppedIsManyAbove(cap: Cap, n: nat, all: seq<Item>, q: seq<Item>, y: Item)
    requires IsTop(cap, n, all, q) && y in all && y !in q
    ensures |Above(cap, all, y)| >= n
  {
    var group := set z | z in q && Group(cap, y)(z);
    CountIsCardinality(q, Group(cap, y));
    assert group <= Above(cap, all, y);
    SubsetSize(group, Above(cap, all, y));
  }

  lemma RankDecides(cap: Cap, n: nat, all: seq<Item>, q: seq<Item>, y: Item)
    requires IsTop(cap, n, all, q) && y in all && !Exempt(cap, y)
    ensures y in q <==> |Above(cap, all, y)| < n
  {
    if y in q {
      KeptIsFewAbove(cap, n, all, q, y);
    } else {
      DroppedIsManyAbove(cap, n, all, q, y);
    }
  }

  function Insert(cap: Cap, n: nat, q: seq<Item>, x: Item): seq<Item> {
    if Exempt(cap, x) then q + [x] else TrimGroup(q + [x], Group(cap, x), n)
  }

  lemma TrimOnce(s: seq<Item>, f: Item -> bool, n: nat)
    requires |Filter(s, f)| <= n + 1
    ensures TrimGroup(s, f, n) == if |Filter(s, f)| > n then DropAt(s, Worst(s, f)) else s
  {
    if |Filter(s, f)| > n {
      DropAtCounts(s, Worst(s, f), f);
    }
  }

  /** The worst of a group is outranked by every other member of it. */
  lemma WorstIsOutranked(s: seq<Item>, f: Item -> bool, w: nat, z: Item)
    requires Ordered(s) && IsWorst(s, f, w) && z in s && f(z) && z != s[w]
    ensures Outranks(z, s[w])
  {
    var k :| 0 <= k < |s| && s[k] == z;
  }

  lemma CountJoined(cap: Cap, q: seq<Item>, x: Item, y: Item)
    ensures |Filter(q + [x], Group(cap, y))| == |Filter(q, Group(cap, y))| + if Group(cap, y)(x) then 1 else 0
    ensures Group(cap, y)(x) ==> Group(cap, x) == Group(cap, y) && (Exempt(cap, x) <==> Exempt(cap, y))
  {
    GroupGrowsByOwn(q, x, Group(cap, y));
    Grouped(cap, x, y);
  }

  /** A dropped item stays beaten when a newcomer finds room. */
  lemma StaysBeaten(cap: Cap, n: nat, all: seq<Item>, q: seq<Item>, x: Item, y: Item)
    requires IsTop(cap, n, all, q) && y in all && y !in q
    requires !Exempt(cap, x) ==> |Filter(q, Group(cap, x))| < n
    ensures Beaten(cap, n, q + [x], y)
  {
    CountJoined(cap, q, x, y);
    assert Beaten(cap, n, q, y);
  }

  /** Room left in the group, or no cap for it: the newcomer just joins. */
  lemma JoinKeepsTop(cap: Cap, n: nat, all: seq<Item>, q: seq<Item>, x: Item)
    requires IsTop(cap, n, all, q) && forall y :: y in all ==> y.id < x.id
    requires !Exempt(cap, x) ==> |Filter(q, Group(cap, x))| < n
    ensures IsTop(cap, n, all + [x], q + [x])
  {
    AppendNewest(all, x);
    AppendNewest(q, x);
    forall y: Item | !Exempt(cap, y) ensures |Filter(q + [x], Group(cap, y))| <= n {
      CountJoined(cap, q, x, y);
    }
    forall y | y in all + [x] && y !in q + [x] ensures Beaten(cap, n, q + [x], y) {
      StaysBeaten(cap, n, all, q, x, y);
    }
  }

  /** One joins the group and one of the group leaves: every count stays. */
  lemma CountReplaced(cap: Cap, q: seq<Item>, x: Item, w: nat, y: Item)
    requires w < |q + [x]| && Group(cap, x)((q + [x])[w])
    ensures |Filter(DropAt(q + [x], w), Group(cap, y))| == |Filter(q, Group(cap, y))|
  {
    GroupGrowsByOwn(q, x, Group(cap, y));
    DropAtCounts(q + [x], w, Group(cap, y));
    Grouped(cap, x, y);
    Grouped(cap, (q + [x])[w], y);
    Grouped(cap, x, (q + [x])[w]);
  }

  lemma ReplacedOutranked(cap: Cap, n: nat, all: seq<Item>, q: seq<Item>, x: Item, w: nat, y: Item)
    requires IsTop(cap, n, all, q) && Ordered(q + [x])
    requires IsWorst(q + [x], Group(cap, x), w)
    requires y in all + [x] && (y !in q + [x] || y == (q + [x])[w])
    ensures forall z :: z in q + [x] && z != (q + [x])[w] && Group(cap, y)(z) ==> Outranks(z, y)
  {
    var s := q + [x];
    forall z | z in s && z != s[w] && Group(cap, y)(z) ensures Outranks(z, y) {
      Grouped(cap, y, z);
      Grouped(cap, x, s[w]);
      if y == s[w] {
        WorstIsOutranked(s, Group(cap, x), w, z);
      } else if z == x {
        WorstIsOutranked(s, Group(cap, x), w, z);
        assert s[w] in q && Outranks(s[w], y);
      }
    }
  }

  lemma ReplacedBeaten(
    cap: Cap, n: nat, all: seq<Item>, q: seq<Item>, x: Item, w: nat, r: seq<Item>, y: Item)
    requires IsTop(cap, n, all, q) && Ordered(q + [x]) && |Filter(q, Group(cap, x))| == n
    requires IsWorst(q + [x], Group(cap, x), w) && r == DropAt(q + [x], w)
    requires y in all + [x] && y !in r
    ensures Beaten(cap, n, r, y)
  {
    var s := q + [x];
    DropAtMembers(s, w);
    CountReplaced(cap, q, x, w, y);
    Grouped(cap, x, y);
    ReplacedOutranked(cap, n, all, q, x, w, y);
  }

  /** The group is full: the newcomer joins and the worst of the group leaves. */
  lemma ReplaceKeepsTop(cap: Cap, n: nat, all: seq<Item>, q: seq<Item>, x: Item, w: nat, r: seq<Item>)
    requires IsTop(cap, n, all, q) && forall y :: y in all ==> y.id < x.id
    requires !Exempt(cap, x) && |Filter(q, Group(cap, x))| == n
    requires IsWorst(q + [x], Group(cap, x), w) && r == DropAt(q + [x], w)
    ensures IsTop(cap, n, all + [x], r)
  {
    AppendNewest(all, x);
    AppendNewest(q, x);
    DropAtMembers(q + [x], w);
    forall y: Item ensures |Filter(r, Group(cap, y))| == |Filter(q, Group(cap, y))| {
      CountReplaced(cap, q, x, w, y);
    }
    forall y | y in all + [x] && y !in r ensures Beaten(cap, n, r, y) {
      ReplacedBeaten(cap, n, all, q, x, w, r, y);
    }
    Grouped(cap, x, (q + [x])[w]);
  }

  lemma InsertKeepsTop(cap: Cap, n: nat, all: seq<Item>, q: seq<Item>, x: Item)
    requires IsTop(cap, n, all, q) && forall y :: y in all ==> y.id < x.id
    ensures IsTop(cap, n, all + [x], Insert(cap, n, q, x))
  {
    GroupGrowsByOwn(q, x, Group(cap, x));
    if Exempt(cap, x) || |Filter(q, Group(cap, x))| < n {
      JoinKeepsTop(cap, n, all, q, x);
    } else {
      TrimOnce(q + [x], Group(cap, x), n);
      var w := Worst(q + [x], Group(cap, x));
      ReplaceKeepsTop(cap, n, all, q, x, w, DropAt(q + [x], w));
    }
  }

  // ---------------------------------------------------------------------------------------------
  // Whole histories

  type Arrival = (RoutedFrame, int)

  /** Every frame ever added, with the stamp and the id the queue gave it. */
  function History(arrivals: seq<Arrival>): seq<Item> {
    if arrivals == [] then []
    else
      var n := |arrivals| - 1;
      History(arrivals[..n]) + [Item(arrivals[n].0, arrivals[n].1, |arrivals[n].0.payload|, n + 1)]
  }

  function RunAdds(caps: Caps, arrivals: seq<Arrival>): Contents {
    if arrivals == [] then EMPTY
    else
      var n := |arrivals| - 1;
      AddOne(caps, RunAdds(caps, arrivals[..n]), arrivals[n].0, arrivals[n].1)
  }

  function Stamped(fs: seq<RoutedFrame>, now: int): seq<Arrival> {
    seq(|fs|, i requires 0 <= i < |fs| => (fs[i], now))
  }

  lemma RunSnoc(caps: Caps, arrivals: seq<Arrival>, f: RoutedFrame, now: int)
    ensures RunAdds(caps, arrivals + [(f, now)]) == AddOne(caps, RunAdds(caps, arrivals), f, now)
  {
    assert (arrivals + [(f, now)])[..|arrivals|] == arrivals;
  }

  lemma StampedSnoc(arrivals: seq<Arrival>, fs: seq<RoutedFrame>, now: int)
    requires fs != []
    ensures
      var n := |fs| - 1;
      arrivals + Stamped(fs, now) == arrivals + Stamped(fs[..n], now) + [(fs[n], now)]
  {
  }

  /** A batch given to `Add` is a run of single insertions. */
  lemma {:induction false} BatchExtendsRun(caps: Caps, arrivals: seq<Arrival>, fs: seq<RoutedFrame>, now: int)
    ensures AddAll(caps, RunAdds(caps, arrivals), fs, now) == RunAdds(caps, arrivals + Stamped(fs, now))
  {
    if fs == [] {
      assert arrivals + Stamped(fs, now) == arrivals;
    } else {
      var n := |fs| - 1;
      var before := arrivals + Stamped(fs[..n], now);
      BatchExtendsRun(caps, arrivals, fs[..n], now);
      RunSnoc(caps, before, fs[n], now);
      StampedSnoc(arrivals, fs, now);
    }
  }

  /** `cap`, set to `n`, is the only limit that `total` insertions can meet. */
  predicate OnlyLimit(caps: Caps, cap: Cap, n: nat, total: nat) {
    && caps.maxBytes <= 0
    && (if cap.Total? then caps.maxFrames == n else caps.maxFrames >= total)
    && (if cap.PerPeer? then caps.maxPerPeer == n > 0 else caps.maxPerPeer <= 0)
    && (if cap.PerSession? then caps.maxPerSession == n > 0 else caps.maxPerSession <= 0)
  }

  lemma {:induction false} TotalIsGroupOfAll(caps: Caps, s: seq<Item>)
    requires caps.maxBytes <= 0
    ensures TrimTotal(caps, s) == TrimGroup(s, Any(), caps.maxFrames)
    decreases |s|
  {
    FilterAny(s);
    if |s| > caps.maxFrames {
      TotalIsGroupOfAll(caps, DropAt(s, Worst(s, Any())));
    }
  }

  lemma AddOneIsInsert(caps: Caps, cap: Cap, n: nat, q: Contents, f: RoutedFrame, now: int)
    requires OnlyLimit(caps, cap, n, |q.items| + 1)
    ensures AddOne(caps, q, f, now).items == Insert(cap, n, q.items, NewItem(q, f, now))
  {
    var s := q.items + [NewItem(q, f, now)];
    TotalIsGroupOfAll(caps, s);
    FilterAny(s);
  }

  lemma NothingIsTop(cap: Cap, n: nat)
    ensures IsTop(cap, n, [], [])
  {
    assert forall y: Item :: Filter([], Group(cap, y)) == [];
  }

  lemma InsertGrowsByAtMostOne(cap: Cap, n: nat, q: seq<Item>, x: Item)
    ensures |Insert(cap, n, q, x)| <= |q| + 1
  {
    TrimGroupShrinks(q + [x], Group(cap, x), n);
  }

  /** The item that the last arrival of a run becomes. */
  function LastItem(arrivals: seq<Arrival>): Item
    requires arrivals != []
  {
    var (f, now) := arrivals[|arrivals| - 1];
    Item(f, now, |f.payload|, |arrivals|)
  }

  /** A run under the one cap. */
  function RunInserts(cap: Cap, n: nat, arrivals: seq<Arrival>): seq<Item> {
    if arrivals == [] then []
    else Insert(cap, n, RunInserts(cap, n, arrivals[..|arrivals| - 1]), LastItem(arrivals))
  }

  lemma {:induction false} HistoryNumbers(arrivals: seq<Arrival>)
    ensures forall y :: y in History(arrivals) ==> y.id <= |arrivals|
  {
    if arrivals != [] {
      HistoryNumbers(arrivals[..|arrivals| - 1]);
    }
  }

  lemma HistoryLast(arrivals: seq<Arrival>)
    requires arrivals != []
    ensures History(arrivals) == History(arrivals[..|arrivals| - 1]) + [LastItem(arrivals)]
  {
  }

  /** What a run under one cap leaves is the best part of its history. */
  lemma {:induction false} RunIsTop(cap: Cap, n: nat, arrivals: seq<Arrival>)
    ensures IsTop(cap, n, History(arrivals), RunInserts(cap, n, arrivals))
  {
    if arrivals == [] {
      NothingIsTop(cap, n);
    } else {
      var before := arrivals[..|arrivals| - 1];
      RunIsTop(cap, n, before);
      HistoryNumbers(before);
      HistoryLast(arrivals);
      InsertKeepsTop(cap, n, History(before), RunInserts(cap, n, before), LastItem(arrivals));
    }
  }

  lemma OnlyLimitOfFewer(caps: Caps, cap: Cap, n: nat, total: nat, fewer: nat)
    requires OnlyLimit(caps, cap, n, total) && fewer <= total
    ensures OnlyLimit(caps, cap, n, fewer)
  {
  }

  lemma {:induction false} RunInsertsSize(cap: Cap, n: nat, arrivals: seq<Arrival>)
    ensures |RunInserts(cap, n, arrivals)| <= |arrivals|
  {
    if arrivals != [] {
      var before := arrivals[..|arrivals| - 1];
      RunInsertsSize(cap, n, before);
      InsertGrowsByAtMostOne(cap, n, RunInserts(cap, n, before), LastItem(arrivals));
    }
  }

  /** Two runs that start alike and go on by the same step are the same. */
  lemma {:induction false} SameRuns(
    run: seq<Arrival> -> Contents, other: seq<Arrival> -> Contents, step: (Contents, Arrival) -> Contents,
    arrivals: seq<Arrival>, m: nat)
    requires m <= |arrivals| && run([]) == other([])
    requires forall k :: 0 <= k < |arrivals| ==> run(arrivals[..k + 1]) == step(run(arrivals[..k]), arrivals[k])
    requires forall k :: 0 <= k < |arrivals| ==> other(arrivals[..k + 1]) == step(other(arrivals[..k]), arrivals[k])
    ensures run(arrivals[..m]) == other(arrivals[..m])
  {
    if m == 0 {
      assert arrivals[..0] == [];
    } else {
      SameRuns(run, other, step, arrivals, m - 1);
    }
  }

  lemma RunAddsNext(caps: Caps, arrivals: seq<Arrival>, k: nat)
    requires k < |arrivals|
    ensures RunAdds(caps, arrivals[..k + 1]) ==
      AddOne(caps, RunAdds(caps, arrivals[..k]), arrivals[k].0, arrivals[k].1)
  {
    assert arrivals[..k + 1][..k] == arrivals[..k];
  }

  lemma RunInsertsLast(cap: Cap, n: nat, arrivals: seq<Arrival>, k: nat, items: seq<Item>, x: Item)
    requires k < |arrivals| && items == RunInserts(cap, n, arrivals[..k])
    requires x == Item(arrivals[k].0, arrivals[k].1, |arrivals[k].0.payload|, k + 1)
    ensures RunInserts(cap, n, arrivals[..k + 1]) == Insert(cap, n, items, x)
  {
    assert arrivals[..k + 1][..k] == arrivals[..k];
  }

  lemma AddOneContents(caps: Caps, cap: Cap, n: nat, q: Contents, f: RoutedFrame, now: int)
    requires OnlyLimit(caps, cap, n, |q.items| + 1)
    ensures AddOne(caps, q, f, now) == Contents(Insert(cap, n, q.items, NewItem(q, f, now)), q.nextID + 1)
  {
    AddOneIsInsert(caps, cap, n, q, f, now);
  }

  lemma RunInsertsNext(
    caps: Caps, cap: Cap, n: nat, arrivals: seq<Arrival>, k: nat, q: Contents, q': Contents)
    requires k < |arrivals| && OnlyLimit(caps, cap, n, |arrivals|)
    requires q == Contents(RunInserts(cap, n, arrivals[..k]), k)
    requires q' == Contents(RunInserts(cap, n, arrivals[..k + 1]), k + 1)
    ensures q' == AddOne(caps, q, arrivals[k].0, arrivals[k].1)
  {
    var (f, now) := arrivals[k];
    RunInsertsSize(cap, n, arrivals[..k]);
    OnlyLimitOfFewer(caps, cap, n, |arrivals|, |q.items| + 1);
    AddOneContents(caps, cap, n, q, f, now);
    RunInsertsLast(cap, n, arrivals, k, q.items, NewItem(q, f, now));
  }

  /** When one cap is the only limit, runs of the queue's insertion are runs under that cap. */
  lemma RunUnderOneCap(caps: Caps, cap: Cap, n: nat, arrivals: seq<Arrival>)
    requires OnlyLimit(caps, cap, n, |arrivals|)
    ensures RunAdds(caps, arrivals) == Contents(RunInserts(cap, n, arrivals), |arrivals|)
  {
    var run := (xs: seq<Arrival>) => RunAdds(caps, xs);
    var other := (xs: seq<Arrival>) => Contents(RunInserts(cap, n, xs), |xs|);
    var step := (q: Contents, a: Arrival) => AddOne(caps, q, a.0, a.1);
    forall k | 0 <= k < |arrivals|
      ensures run(arrivals[..k + 1]) == step(run(arrivals[..k]), arrivals[k])
      ensures other(arrivals[..k + 1]) == step(other(arrivals[..k]), arrivals[k])
    {
      RunAddsNext(caps, arrivals, k);
      RunInsertsNext(caps, cap, n, arrivals, k, other(arrivals[..k]), other(arrivals[..k + 1]));
    }
    SameRuns(run, other, step, arrivals, |arrivals|);
    assert arrivals[..|arrivals|] == arrivals;
  }

  /** After any sequence of insertions the queue holds, in arrival order, exactly the frames that fewer than `n`
      competitors of the whole history outrank (and those the cap does not count). */
  lemma OnlineIsOffline(caps: Caps, cap: Cap, n: nat, arrivals: seq<Arrival>)
    requires OnlyLimit(caps, cap, n, |arrivals|)
    ensures
      var q, all := RunAdds(caps, arrivals).items, History(arrivals);
      && Ordered(q)
      && forall y :: y in q <==> y in all && (Exempt(cap, y) || |Above(cap, all, y)| < n)
  {
    var q, all := RunInserts(cap, n, arrivals), History(arrivals);
    RunUnderOneCap(caps, cap, n, arrivals);
    RunIsTop(cap, n, arrivals);
    forall y | y in all && !Exempt(cap, y) ensures y in q <==> |Above(cap, all, y)| < n {
      RankDecides(cap, n, all, q, y);
    }
  }

  // ---------------------------------------------------------------------------------------------
  // The queue object

  type Batch = (seq<RoutedFrame>, int)

  /** All frames of the batches, each with the time of its batch. */
  function Arrivals(batches: seq<Batch>): seq<Arrival> {
    if batches == [] then []
    else
      var n := |batches| - 1;
      Arrivals(batches[..n]) + Stamped(batches[n].0, batches[n].1)
  }

  /** Any sequence of calls of `Add` on a new queue without a lifetime, when one cap is the only limit. */
  method AddBatches(q: LanPendingQueue, batches: seq<Batch>, ghost cap: Cap, ghost n: nat)
    requires q.Valid() && q.View() == EMPTY && q.caps.ttl <= 0
    requires OnlyLimit(q.caps, cap, n, |Arrivals(batches)|)
    modifies q
    ensures q.Valid() && Ordered(q.frames)
    ensures forall y :: y in q.frames <==>
      y in History(Arrivals(batches)) && (Exempt(cap, y) || |Above(cap, History(Arrivals(batches)), y)| < n)
  {
    for i := 0 to |batches|
      invariant q.Valid() && q.View() == RunAdds(q.caps, Arrivals(batches[..i]))
    {
      var (fs, now) := batches[i];
      KeepAll(q.frames, Live(now, q.caps.ttl));
      BatchExtendsRun(q.caps, Arrivals(batches[..i]), fs, now);
      assert batches[..i + 1][..i] == batches[..i];
      q.Add(fs, now);
    }
    assert batches[..|batches|] == batches;
    OnlineIsOffline(q.caps, cap, n, Arrivals(batches));
  }
}
