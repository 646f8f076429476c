/** The server's store-and-forward relay, `lanPacketRelay` of `internal/server/lan_packet_relay.go`: one bounded FIFO
    per device that loses its oldest frame on overflow. */
module RelayQueue {

  const MAX_BATCH: nat := 64

  datatype Frame = Frame(networkID: int, src: string, dst: string, typ: int, payload: string, queuedAt: int)

  datatype State = State(byDevice: map<string, seq<Frame>>, dropped: nat)

  const EMPTY := State(map[], 0)

  function QueueOf(m: map<string, seq<Frame>>, d: string): seq<Frame> {
    if d in m then m[d] else []
  }

  // ---------------------------------------------------------------------------------------------
  // Steps

  function Limited(limit: nat, q: seq<Frame>): seq<Frame> {
    if |q| > limit then q[|q| - limit..] else q
  }

  function Enqueue(limit: nat, s: State, f: Frame): State {
    var q := QueueOf(s.byDevice, f.dst) + [f];
    State(s.byDevice[f.dst := Limited(limit, q)], s.dropped + |q| - |Limited(limit, q)|)
  }

  /** How many frames a poll takes from a queue of length `n`. */
  function BatchSize(max: int, n: nat): nat {
    var m := if max <= 0 || max > MAX_BATCH then MAX_BATCH else max;
    if m > n then n else m
  }

  function Batch(s: State, d: string, max: int): seq<Frame> {
    var q := QueueOf(s.byDevice, d);
    q[..BatchSize(max, |q|)]
  }

  function Poll(s: State, d: string, max: int): State {
    var q := QueueOf(s.byDevice, d);
    var n := BatchSize(max, |q|);
    if |q| == 0 then s
    else if n == |q| then s.(byDevice := s.byDevice - {d})
    else s.(byDevice := s.byDevice[d := q[n..]])
  }

  datatype Event = EvEnqueue(frame: Frame) | EvPoll(device: string, max: int)

  function Step(limit: nat, s: State, e: Event): State {
    match e
    case EvEnqueue(f) => Enqueue(limit, s, f)
    case EvPoll(d, max) => Poll(s, d, max)
  }

  function Run(limit: nat, events: seq<Event>): State {
    if events == [] then EMPTY else Step(limit, Run(limit, events[..|events| - 1]), events[|events| - 1])
  }

  // ---------------------------------------------------------------------------------------------
  // Histories

  /** Everything enqueued for `d`, in order. */
  function Sent(events: seq<Event>, d: string): seq<Frame> {
    if events == [] then []
    else
      var n := |events| - 1;
      var before := Sent(events[..n], d);
      if events[n].EvEnqueue? && events[n].frame.dst == d then before + [events[n].frame] else before
  }

  /** Everything polls returned for `d`, in order. */
  function Received(limit: nat, events: seq<Event>, d: string): seq<Frame> {
    if events == [] then []
    else
      var n := |events| - 1;
      var before := Received(limit, events[..n], d);
      if events[n].EvPoll? && events[n].device == d
      then before + Batch(Run(limit, events[..n]), d, events[n].max)
      else before
  }

  /** `a` is `b` with some elements left out. */
  predicate Subsequence(a: seq<Frame>, b: seq<Frame>)
    decreases |b|
  {
    || a == []
    || (&& b != []
        && (|| (a[|a| - 1] == b[|b| - 1] && Subsequence(a[..|a| - 1], b[..|b| - 1]))
            || Subsequence(a, b[..|b| - 1])))
  }

  lemma SubsequenceGrows(a: seq<Frame>, b: seq<Frame>, x: Frame)
    requires Subsequence(a, b)
    ensures Subsequence(a, b + [x]) && Subsequence(a + [x], b + [x])
  {
    assert (b + [x])[..|b|] == b && (a + [x])[..|a|] == a;
  }

  lemma {:induction false} SubsequenceDrop(a: seq<Frame>, b: seq<Frame>, i: nat)
    requires Subsequence(a, b) && i < |a|
    ensures Subsequence(a[..i] + a[i + 1..], b)
    decreases |b|
  {
    var a' := a[..i] + a[i + 1..];
    var b' := b[..|b| - 1];
    assert b' + [b[|b| - 1]] == b;
    if Subsequence(a, b') {
      SubsequenceDrop(a, b', i);
      SubsequenceGrows(a', b', b[|b| - 1]);
    } else if i == |a| - 1 {
      assert a' == a[..|a| - 1];
      SubsequenceGrows(a', b', b[|b| - 1]);
    } else {
      var s := a[..|a| - 1];
      SubsequenceDrop(s, b', i);
      var s' := s[..i] + s[i + 1..];
      SubsequenceGrows(s', b', b[|b| - 1]);
      assert s' + [b[|b| - 1]] == a';
    }
  }

  lemma {:induction false} SubsequenceLength(a: seq<Frame>, b: seq<Frame>)
    requires Subsequence(a, b)
    ensures |a| <= |b| && (|a| == |b| ==> a == b)
    decreases |b|
  {
    if a != [] {
      if Subsequence(a, b[..|b| - 1]) {
        SubsequenceLength(a, b[..|b| - 1]);
      } else {
        SubsequenceLength(a[..|a| - 1], b[..|b| - 1]);
        assert a == a[..|a| - 1] + [a[|a| - 1]] && b == b[..|b| - 1] + [b[|b| - 1]];
      }
    }
  }

  /** On overflow the oldest waiting frame leaves. */
  lemma LimitedByOne(limit: nat, q: seq<Frame>, f: Frame)
    requires limit > 0 && |q| <= limit
    ensures Limited(limit, q + [f]) == if |q| < limit then q + [f] else q[1..] + [f]
  {
  }

  lemma WithoutOldest(out: seq<Frame>, q: seq<Frame>, f: Frame)
    requires q != []
    ensures
      var all := out + q + [f];
      all[..|out|] + all[|out| + 1..] == out + (q[1..] + [f])
  {
    var all := out + q + [f];
    assert all[..|out|] == out && all[|out| + 1..] == q[1..] + [f];
  }

  /** One more frame: it joins, and on overflow the oldest waiting frame leaves. */
  lemma EnqueueKeepsFifo(limit: nat, out: seq<Frame>, q: seq<Frame>, sent: seq<Frame>, f: Frame)
    requires limit > 0 && |q| <= limit && Subsequence(out + q, sent)
    ensures Limited(limit, q + [f]) == if |q| < limit then q + [f] else q[1..] + [f]
    ensures Subsequence(out + Limited(limit, q + [f]), sent + [f])
  {
    LimitedByOne(limit, q, f);
    SubsequenceGrows(out + q, sent, f);
    if |q| < limit {
      assert out + (q + [f]) == out + q + [f];
    } else {
      SubsequenceDrop(out + q + [f], sent + [f], |out|);
      WithoutOldest(out, q, f);
    }
  }

  lemma PollKeepsQueue(s: State, d: string, max: int, e: string)
    ensures QueueOf(Poll(s, d, max).byDevice, e) ==
      if e == d then QueueOf(s.byDevice, d)[BatchSize(max, |QueueOf(s.byDevice, d)|)..] else QueueOf(s.byDevice, e)
  {
  }

  /** What was polled for `d`, followed by what is queued for it. */
  function Seen(limit: nat, events: seq<Event>, d: string): seq<Frame> {
    Received(limit, events, d) + QueueOf(Run(limit, events).byDevice, d)
  }

  lemma SplitConcat(out: seq<Frame>, q: seq<Frame>, k: nat)
    requires k <= |q|
    ensures out + q[..k] + q[k..] == out + q
  {
  }

  lemma PollStep(limit: nat, events: seq<Event>, d: string)
    requires events != [] && events[|events| - 1].EvPoll?
    ensures Seen(limit, events, d) == Seen(limit, events[..|events| - 1], d)
    ensures Sent(events, d) == Sent(events[..|events| - 1], d)
    ensures |QueueOf(Run(limit, events).byDevice, d)| <= |QueueOf(Run(limit, events[..|events| - 1]).byDevice, d)|
  {
    var n := |events| - 1;
    var s := Run(limit, events[..n]);
    var q, out := QueueOf(s.byDevice, d), Received(limit, events[..n], d);
    PollKeepsQueue(s, events[n].device, events[n].max, d);
    if events[n].device == d {
      SplitConcat(out, q, BatchSize(events[n].max, |q|));
    }
  }

  lemma EnqueueStep(limit: nat, events: seq<Event>, d: string)
    requires events != [] && events[|events| - 1].EvEnqueue?
    ensures
      var before, f := events[..|events| - 1], events[|events| - 1].frame;
      && Received(limit, events, d) == Received(limit, before, d)
      && Sent(events, d) == Sent(before, d) + (if f.dst == d then [f] else [])
      && QueueOf(Run(limit, events).byDevice, d) ==
         var q := QueueOf(Run(limit, before).byDevice, d);
         if f.dst == d then Limited(limit, q + [f]) else q
  {
  }

  /** For every device, in every run: the queue respects the limit, and what was polled followed by what is queued is
      what was enqueued with some frames left out. */
  lemma {:induction false} FifoWithLoss(limit: nat, events: seq<Event>, d: string)
    requires limit > 0
    ensures |QueueOf(Run(limit, events).byDevice, d)| <= limit
    ensures Subsequence(Seen(limit, events, d), Sent(events, d))
  {
    if events != [] {
      var n := |events| - 1;
      FifoWithLoss(limit, events[..n], d);
      if events[n].EvPoll? {
        PollStep(limit, events, d);
      } else {
        EnqueueStep(limit, events, d);
        if events[n].frame.dst == d {
          EnqueueKeepsFifo(limit, Received(limit, events[..n], d), QueueOf(Run(limit, events[..n]).byDevice, d),
                           Sent(events[..n], d), events[n].frame);
        }
      }
    }
  }

  // ---------------------------------------------------------------------------------------------
  // Conservation over all devices

  ghost function Waiting(m: map<string, seq<Frame>>): nat {
    if m == map[] then 0
    else
      var d :| d in m;
      |m[d]| + Waiting(m - {d})
  }

  lemma {:induction false} WaitingWithout(m: map<string, seq<Frame>>, d: string)
    requires d in m
    ensures Waiting(m) == |m[d]| + Waiting(m - {d})
    decreases |m|
  {
    var e :| e in m && Waiting(m) == |m[e]| + Waiting(m - {e});
    if e != d {
      WaitingWithout(m - {e}, d);
      WaitingWithout(m - {d}, e);
      assert m - {e} - {d} == m - {d} - {e};
    }
  }

  lemma WaitingUpdated(m: map<string, seq<Frame>>, d: string, q: seq<Frame>)
    ensures Waiting(m[d := q]) == Waiting(m) - |QueueOf(m, d)| + |q|
  {
    WaitingWithout(m[d := q], d);
    assert m[d := q] - {d} == m - {d};
    if d in m {
      WaitingWithout(m, d);
    } else {
      assert m - {d} == m;
    }
  }

  function EnqueuedCount(events: seq<Event>): nat {
    if events == [] then 0
    else EnqueuedCount(events[..|events| - 1]) + if events[|events| - 1].EvEnqueue? then 1 else 0
  }

  function PolledCount(limit: nat, events: seq<Event>): nat {
    if events == [] then 0
    else
      var n := |events| - 1;
      PolledCount(limit, events[..n]) +
      if events[n].EvPoll? then |Batch(Run(limit, events[..n]), events[n].device, events[n].max)| else 0
  }

  /** No frame is created or forgotten: enqueued = polled + waiting + dropped. */
  lemma {:induction false} Conservation(limit: nat, events: seq<Event>)
    ensures
      var s := Run(limit, events);
      EnqueuedCount(events) == PolledCount(limit, events) + Waiting(s.byDevice) + s.dropped
  {
    if events != [] {
      var n := |events| - 1;
      Conservation(limit, events[..n]);
      var s := Run(limit, events[..n]);
      match events[n]
      case EvEnqueue(f) =>
        WaitingUpdated(s.byDevice, f.dst, Limited(limit, QueueOf(s.byDevice, f.dst) + [f]));
      case EvPoll(d, max) =>
        var q := QueueOf(s.byDevice, d);
        var k := BatchSize(max, |q|);
        if |q| > 0 {
          if k == |q| {
            WaitingWithout(s.byDevice, d);
          } else {
            WaitingUpdated(s.byDevice, d, q[k..]);
          }
        }
    }
  }

  lemma {:induction false} NothingLost(limit: nat, events: seq<Event>, d: string)
    requires Run(limit, events).dropped == 0
    ensures |Seen(limit, events, d)| == |Sent(events, d)|
  {
    if events != [] {
      NothingLost(limit, events[..|events| - 1], d);
    }
  }

  /** Frames are lost only by overflow: with nothing dropped, a device sees exactly what was sent to it, in order. */
  lemma LosslessWithoutDrops(limit: nat, events: seq<Event>, d: string)
    requires limit > 0 && Run(limit, events).dropped == 0
    ensures Seen(limit, events, d) == Sent(events, d)
  {
    FifoWithLoss(limit, events, d);
    NothingLost(limit, events, d);
    SubsequenceLength(Seen(limit, events, d), Sent(events, d));
  }

  // ---------------------------------------------------------------------------------------------
  // The relay object

  /** What holds after any interleaving of calls: every queue respects the limit, what a device polled followed by
      what is queued for it is what was enqueued for it with some frames left out, and no frame is unaccounted for. */
  ghost predicate Sound(limit: nat, history: seq<Event>, s: State) {
    && (forall d :: |QueueOf(s.byDevice, d)| <= limit)
    && (forall d :: Subsequence(Received(limit, history, d) + QueueOf(s.byDevice, d), Sent(history, d)))
    && EnqueuedCount(history) == PolledCount(limit, history) + Waiting(s.byDevice) + s.dropped
  }

  lemma RunIsSound(limit: nat, history: seq<Event>)
    requires limit > 0
    ensures Sound(limit, history, Run(limit, history))
  {
    Conservation(limit, history);
    forall d ensures |QueueOf(Run(limit, history).byDevice, d)| <= limit
             ensures Subsequence(Seen(limit, history, d), Sent(history, d))
    {
      FifoWithLoss(limit, history, d);
    }
  }

  lemma RunSnoc(limit: nat, history: seq<Event>, e: Event)
    ensures Run(limit, history + [e]) == Step(limit, Run(limit, history), e)
  {
    assert (history + [e])[..|history|] == history;
  }

  lemma EnqueueEffect(limit: nat, s: State, f: Frame)
    requires limit > 0 && |QueueOf(s.byDevice, f.dst)| <= limit
    ensures
      var q, s' := QueueOf(s.byDevice, f.dst), Enqueue(limit, s, f);
      && QueueOf(s'.byDevice, f.dst) == (if |q| < limit then q + [f] else q[1..] + [f])
      && s'.dropped == (if |q| < limit then s.dropped else s.dropped + 1)
      && forall d :: d != f.dst ==> QueueOf(s'.byDevice, d) == QueueOf(s.byDevice, d)
  {
    LimitedByOne(limit, QueueOf(s.byDevice, f.dst), f);
  }

  lemma PollTakesOldest(s: State, d: string, max: int)
    ensures
      var q, out, rest := QueueOf(s.byDevice, d), Batch(s, d, max), QueueOf(Poll(s, d, max).byDevice, d);
      && out + rest == q && (out == [] ==> q == [])
      && |out| <= MAX_BATCH && (0 < max ==> |out| <= max)
      && (rest != [] ==> |out| == if 0 < max <= MAX_BATCH then max else MAX_BATCH)
    ensures forall e :: e != d ==> QueueOf(Poll(s, d, max).byDevice, e) == QueueOf(s.byDevice, e)
  {
    PollKeepsQueue(s, d, max, d);
    forall e | e != d ensures QueueOf(Poll(s, d, max).byDevice, e) == QueueOf(s.byDevice, e) {
      PollKeepsQueue(s, d, max, e);
    }
  }

  class LanPacketRelay {
    const limit: nat
    var byDevice: map<string, seq<Frame>>
    var dropped: nat
    ghost var history: seq<Event>

    ghost function View(): State
      reads this
    {
      State(byDevice, dropped)
    }

    /** The state is that of the calls made so far. */
    ghost predicate Valid()
      reads this
    {
      limit > 0 && View() == Run(limit, history) && Sound(limit, history, View())
    }

    ghost function Queue(d: string): seq<Frame>
      reads this
    {
      QueueOf(byDevice, d)
    }

    constructor (limit: int)
      ensures Valid() && this.limit == (if limit <= 0 then 256 else limit) && history == []
    {
      this.limit := if limit <= 0 then 256 else limit;
      byDevice, dropped, history := map[], 0, [];
      new;
      RunIsSound(this.limit, []);
    }

    /** A step of the model, recorded, keeps the invariant. */
    twostate lemma Recorded(e: Event)
      requires old(Valid()) && View() == Step(limit, old(View()), e) && history == old(history) + [e]
      ensures Valid()
    {
      RunSnoc(limit, old(history), e);
      RunIsSound(limit, history);
    }

    method Store(f: Frame)
      modifies this`byDevice, this`dropped
      ensures View() == Enqueue(limit, old(View()), f)
    {
      var q := (if f.dst in byDevice then byDevice[f.dst] else []) + [f];
      if |q| > limit {
        dropped := dropped + |q| - limit;
        q := q[|q| - limit..];
      }
      byDevice := byDevice[f.dst := q];
    }

    /** Only the frame's own queue changes; it loses its oldest frame exactly when it was full. */
    method EnqueueFrame(frame: Frame, now: int)
      requires Valid()
      modifies this
      ensures Valid() && history == old(history) + [EvEnqueue(frame.(queuedAt := now))]
      ensures |old(Queue(frame.dst))| < limit ==>
        Queue(frame.dst) == old(Queue(frame.dst)) + [frame.(queuedAt := now)] && dropped == old(dropped)
      ensures |old(Queue(frame.dst))| == limit ==>
        Queue(frame.dst) == old(Queue(frame.dst))[1..] + [frame.(queuedAt := now)] && dropped == old(dropped) + 1
      ensures forall d :: d != frame.dst ==> Queue(d) == old(Queue(d))
    {
      var f := frame.(queuedAt := now);
      EnqueueEffect(limit, View(), f);
      Store(f);
      history := history + [EvEnqueue(f)];
      Recorded(EvEnqueue(f));
    }

    method TakeBatch(device: string, max: int) returns (out: seq<Frame>)
      modifies this`byDevice
      ensures View() == Poll(old(View()), device, max) && out == Batch(old(View()), device, max)
    {
      var q := if device in byDevice then byDevice[device] else [];
      if |q| == 0 {
        return [];
      }
      var n: int := max;
      if n <= 0 || n > MAX_BATCH {
        n := MAX_BATCH;
      }
      if n > |q| {
        n := |q|;
      }
      out := q[..n];
      if n == |q| {
        byDevice := byDevice - {device};
      } else {
        byDevice := byDevice[device := q[n..]];
      }
    }

    /** The device's oldest frames leave its queue, in order, at most 64 at a time and at least one if there is any. */
    method PollDevice(device: string, max: int) returns (out: seq<Frame>, remaining: nat, lost: nat)
      requires Valid()
      modifies this
      ensures Valid() && history == old(history) + [EvPoll(device, max)]
      ensures out + Queue(device) == old(Queue(device)) && (out == [] ==> old(Queue(device)) == [])
      ensures |out| <= 64 && (0 < max ==> |out| <= max)
      ensures Queue(device) != [] ==> |out| == if 0 < max <= 64 then max else 64
      ensures forall d :: d != device ==> Queue(d) == old(Queue(d))
      ensures remaining == |Queue(device)| && lost == dropped == old(dropped)
    {
      PollTakesOldest(View(), device, max);
      out := TakeBatch(device, max);
      history := history + [EvPoll(device, max)];
      Recorded(EvPoll(device, max));
      remaining := if device in byDevice then |byDevice[device]| else 0;
      lost := dropped;
    }
  }
}
