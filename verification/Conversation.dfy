/** Device to device: two devices agree on keys, one seals payloads and the other opens what the network hands it.
    Frames may be lost, repeated and overtaken. */
module Conversation {
  import opened Basics
  import opened Replay
  import opened Session

  /** The number of seal `k` of a new codec; the counter starts at one and wraps. */
  function Number(k: nat): nat {
    SealNumber(1, k)
  }

  predicate FirstArrival(arrivals: seq<nat>, j: nat)
    requires j < |arrivals|
  {
    forall i :: 0 <= i < j ==> Number(arrivals[i]) != Number(arrivals[j])
  }

  /** No frame with a number 64 or more above has overtaken arrival `j`. */
  predicate Timely(arrivals: seq<nat>, j: nat)
    requires j < |arrivals|
  {
    forall i :: 0 <= i < j ==> Number(arrivals[i]) < Number(arrivals[j]) + WINDOW_SIZE
  }

  /** Step `j`, at which frame `arrivals[j]` arrives, delivers. */
  predicate Delivers(arrivals: seq<nat>, j: nat)
    requires j < |arrivals|
  {
    Number(arrivals[j]) != 0 && FirstArrival(arrivals, j) && Timely(arrivals, j)
  }

  /** What the receiver gets at step `j`: decided by the order of arrivals alone. */
  function Received(payloads: seq<Bytes>, arrivals: seq<nat>, j: nat): Outcome
    requires j < |arrivals| && arrivals[j] < |payloads|
  {
    if Delivers(arrivals, j) then Payload(payloads[arrivals[j]]) else Session.Replay
  }

  /** As long as the counter has not wrapped, a seal's number is its place in the run of seals. */
  lemma NumberIsPlace(k: nat)
    requires k + 1 < U64
    ensures Number(k) == k + 1
  {
    SealNumberWraps(1, k);
  }

  /** Then first arrivals are those of the frame, and timely means not overtaken by a frame sealed 64 or more later. */
  lemma BeforeWrapping(arrivals: seq<nat>, j: nat)
    requires j < |arrivals| && forall i :: 0 <= i < |arrivals| ==> arrivals[i] + 1 < U64
    ensures Delivers(arrivals, j) <==>
      forall i :: 0 <= i < j ==> arrivals[i] != arrivals[j] && arrivals[i] < arrivals[j] + WINDOW_SIZE
  {
    forall i | 0 <= i < |arrivals| ensures Number(arrivals[i]) == arrivals[i] + 1 {
      NumberIsPlace(arrivals[i]);
    }
  }

  /** Step `j` presents payload `arrivals[j]`, under its number and authentic. */
  predicate Carries(p: Params, payloads: seq<Bytes>, arrivals: seq<nat>, frames: seq<Bytes>, j: nat) {
    && j < |arrivals| == |frames| && arrivals[j] < |payloads| && |frames[j]| >= HEADER_LEN
    && Read(p, frames[j]) == Numbered(Number(arrivals[j]), true)
    && Decrypt(p, frames[j]) == Some(payloads[arrivals[j]])
  }

  function Numbers(arrivals: seq<nat>): seq<Arrival> {
    seq(|arrivals|, j requires 0 <= j < |arrivals| => Numbered(Number(arrivals[j]), true))
  }

  lemma NumbersDecide(arrivals: seq<nat>, j: nat)
    requires j < |arrivals|
    ensures VerdictAt(Numbers(arrivals), j) == if Delivers(arrivals, j) then Delivered else Replayed
  {
    HonestDelivery(Numbers(arrivals), j);
    var xs := Numbers(arrivals);
    assert forall i :: 0 <= i <= j ==> xs[i] == Numbered(Number(arrivals[i]), true);
    assert FirstOfNumber(xs, j) <==> FirstArrival(arrivals, j);
    assert InTime(xs, j) <==> Timely(arrivals, j);
  }

  /** Each arrival is delivered exactly when it is the first of its number, not zero, and timely, and then as the
      payload that was sealed; every other arrival is refused as a replay. */
  lemma ArrivalDecides(p: Params, payloads: seq<Bytes>, arrivals: seq<nat>, frames: seq<Bytes>, j: nat)
    requires j < |arrivals| == |frames|
    requires forall i :: 0 <= i < |arrivals| ==> Carries(p, payloads, arrivals, frames, i)
    ensures arrivals[j] < |payloads| && OutcomeAt(p, frames, j) == Received(payloads, arrivals, j)
  {
    var xs := Reads(p, frames);
    forall i | 0 <= i < |arrivals| ensures xs[i] == Numbers(arrivals)[i] {
      assert Carries(p, payloads, arrivals, frames, i);
    }
    assert xs == Numbers(arrivals);
    assert Carries(p, payloads, arrivals, frames, j);
    StateIsAfter(p, frames, j);
    NumbersDecide(arrivals, j);
  }

  function FirstIndex(arrivals: seq<nat>, k: nat, m: nat): (j: nat)
    requires m < |arrivals| && arrivals[m] == k
    ensures j <= m && arrivals[j] == k && forall i :: 0 <= i < j ==> arrivals[i] != k
  {
    if i :| 0 <= i < m && arrivals[i] == k then FirstIndex(arrivals, k, i) else m
  }

  /** Payload `k` is delivered at step `j` and at no other. */
  ghost predicate OnlyAt(payloads: seq<Bytes>, arrivals: seq<nat>, k: nat, j: nat)
    requires k < |payloads|
  {
    && j < |arrivals| && arrivals[j] == k && Received(payloads, arrivals, j) == Payload(payloads[k])
    && forall i :: 0 <= i < |arrivals| && i != j && arrivals[i] == k ==>
         Received(payloads, arrivals, i) == Session.Replay
  }

  /** If no frame is overtaken by one sealed 64 or more later before it first arrives, every payload that arrives at all
      is delivered exactly once, as long as the counter has not wrapped. */
  lemma DeliveredExactlyOnce(payloads: seq<Bytes>, arrivals: seq<nat>, k: nat)
    requires forall i :: 0 <= i < |arrivals| ==> arrivals[i] + 1 < U64
    requires forall i, j :: 0 <= i < j < |arrivals| && arrivals[j] !in arrivals[..j] ==>
      arrivals[i] < arrivals[j] + WINDOW_SIZE
    requires k in arrivals && k < |payloads|
    ensures exists j :: OnlyAt(payloads, arrivals, k, j)
  {
    var m :| 0 <= m < |arrivals| && arrivals[m] == k;
    var j := FirstIndex(arrivals, k, m);
    BeforeWrapping(arrivals, j);
    forall i | 0 <= i < |arrivals| && i != j && arrivals[i] == k ensures !Delivers(arrivals, i) {
      BeforeWrapping(arrivals, i);
      assert i > j;
    }
    assert OnlyAt(payloads, arrivals, k, j);
  }

  // ---------------------------------------------------------------------------------------------
  // How often what was sealed several times is delivered

  /** Seals made for `x`, where `origin[i]` is what seal `i` was made for. */
  ghost function SealsOf<T(!new)>(origin: seq<T>, x: T): set<nat> {
    set i: nat | i < |origin| && origin[i] == x
  }

  /** Seal `i` arrives first of its number and in time. */
  ghost predicate ArrivesInTime(arrivals: seq<nat>, i: nat) {
    exists j :: 0 <= j < |arrivals| && arrivals[j] == i && Delivers(arrivals, j)
  }

  /** Steps that deliver a seal made for `x`. */
  ghost function DeliveriesOf<T(!new)>(payloads: seq<Bytes>, origin: seq<T>, arrivals: seq<nat>, x: T): set<nat>
    requires |origin| == |payloads| && forall j :: 0 <= j < |arrivals| ==> arrivals[j] < |payloads|
  {
    set j: nat | j < |arrivals| && Received(payloads, arrivals, j).Payload? && origin[arrivals[j]] == x
  }

  lemma {:induction false} InjectiveImage(steps: set<nat>, arrivals: seq<nat>)
    requires forall j :: j in steps ==> j < |arrivals|
    requires forall i, j :: i in steps && j in steps && arrivals[i] == arrivals[j] ==> i == j
    ensures |steps| == |set j | j in steps :: arrivals[j]|
  {
    if steps != {} {
      var j :| j in steps;
      InjectiveImage(steps - {j}, arrivals);
      var rest := set k | k in steps - {j} :: arrivals[k];
      assert (set k | k in steps :: arrivals[k]) == rest + {arrivals[j]};
    }
  }

  lemma DeliveryIsUnique(arrivals: seq<nat>, i: nat, j: nat)
    requires i < |arrivals| && j < |arrivals| && arrivals[i] == arrivals[j]
    requires Delivers(arrivals, i) && Delivers(arrivals, j)
    ensures i == j
  {
    assert FirstArrival(arrivals, i) && FirstArrival(arrivals, j);
  }

  /** A seal for `x` is delivered at some step exactly when it arrives in time. */
  lemma DeliveredSeal<T(!new)>(payloads: seq<Bytes>, origin: seq<T>, arrivals: seq<nat>, x: T, i: nat)
    requires |origin| == |payloads| && forall j :: 0 <= j < |arrivals| ==> arrivals[j] < |payloads|
    ensures (exists j :: j in DeliveriesOf(payloads, origin, arrivals, x) && arrivals[j] == i) <==>
      i in SealsOf(origin, x) && ArrivesInTime(arrivals, i)
  {
    if j :| j in DeliveriesOf(payloads, origin, arrivals, x) && arrivals[j] == i {
      assert Delivers(arrivals, j);
    }
    if i in SealsOf(origin, x) && ArrivesInTime(arrivals, i) {
      var j :| 0 <= j < |arrivals| && arrivals[j] == i && Delivers(arrivals, j);
      assert j in DeliveriesOf(payloads, origin, arrivals, x);
    }
  }

  /** At-most-once is a matter of seals, not of payloads: something that was sealed several times, because its first
      transport failed, is delivered exactly as often as it has seals that arrive first of their number and in time. */
  lemma DeliveriesAreTimelySeals<T(!new)>(payloads: seq<Bytes>, origin: seq<T>, arrivals: seq<nat>, x: T)
    requires |origin| == |payloads| && forall j :: 0 <= j < |arrivals| ==> arrivals[j] < |payloads|
    ensures |DeliveriesOf(payloads, origin, arrivals, x)| ==
      |set i | i in SealsOf(origin, x) && ArrivesInTime(arrivals, i)|
  {
    var steps := DeliveriesOf(payloads, origin, arrivals, x);
    var seals := set i | i in SealsOf(origin, x) && ArrivesInTime(arrivals, i);
    forall i, j | i in steps && j in steps && arrivals[i] == arrivals[j] ensures i == j {
      DeliveryIsUnique(arrivals, i, j);
    }
    InjectiveImage(steps, arrivals);
    var image := set j | j in steps :: arrivals[j];
    forall i ensures i in image <==> i in seals {
      if i >= 0 {
        DeliveredSeal(payloads, origin, arrivals, x, i);
      }
    }
    assert image == seals;
  }

  /** A frame kept after a failed post and sealed again is delivered twice if both seals arrive. */
  lemma ResealedIsDeliveredTwice(payload: Bytes)
    ensures DeliveriesOf([payload, payload], ["frame", "frame"], [0, 1], "frame") == {0, 1}
  {
    BeforeWrapping([0, 1], 0);
    BeforeWrapping([0, 1], 1);
  }

  // ---------------------------------------------------------------------------------------------
  // The codecs at both ends

  lemma Delayed(p: Params, payloads: seq<Bytes>, arrivals: seq<nat>, frames: seq<Bytes>, j: nat)
    requires p.aead.Lawful() && p.networkID < U64
    requires j < |arrivals| == |frames| && arrivals[j] < |payloads|
    requires frames[j] == SealedFrames(p, 1, payloads)[arrivals[j]]
    ensures Carries(p, payloads, arrivals, frames, j)
  {
    var k := arrivals[j];
    SealedFrameAt(p, 1, payloads, k);
    SealNumberWraps(1, k);
    SealedFrameReads(p, Number(k), payloads[k], frames[j]);
  }

  /** The receiver's calls of Open on the sealed frames, in the order in which they arrive. */
  method OpenDelayed(receiver: Codec, payloads: seq<Bytes>, sealed: seq<Bytes>, arrivals: seq<nat>)
    returns (outcomes: seq<Outcome>)
    requires receiver.Valid() && receiver.replay.seen == NOTHING_SEEN
    requires receiver.p.aead.Lawful() && receiver.p.networkID < U64
    requires sealed == SealedFrames(receiver.p, 1, payloads)
    requires forall j :: 0 <= j < |arrivals| ==> arrivals[j] < |payloads|
    modifies receiver.replay
    ensures |outcomes| == |arrivals|
    ensures forall j :: 0 <= j < |arrivals| ==> outcomes[j] == Received(payloads, arrivals, j)
  {
    var frames := seq(|arrivals|, j requires 0 <= j < |arrivals| => sealed[arrivals[j]]);
    outcomes := OpenAll(receiver, frames);
    forall j | 0 <= j < |arrivals| ensures Carries(receiver.p, payloads, arrivals, frames, j) {
      Delayed(receiver.p, payloads, arrivals, frames, j);
    }
    forall j | 0 <= j < |arrivals| ensures outcomes[j] == Received(payloads, arrivals, j) {
      ArrivalDecides(receiver.p, payloads, arrivals, frames, j);
      OutcomesIndexed(receiver.p, frames, |frames|, j);
    }
  }

  /** One direction of the conversation, on new codecs. */
  method Exchange(tx: Params, rx: Params, payloads: seq<Bytes>, arrivals: seq<nat>) returns (outcomes: seq<Outcome>)
    requires tx == rx && tx.aead.Lawful() && tx.networkID < U64 && tx.typ != 0
    requires forall j :: 0 <= j < |arrivals| ==> arrivals[j] < |payloads|
    ensures |outcomes| == |arrivals|
    ensures forall j :: 0 <= j < |arrivals| ==> outcomes[j] == Received(payloads, arrivals, j)
  {
    var sender := new Codec(tx.aead, tx.key, tx.networkID, tx.typ);
    var receiver := new Codec(rx.aead, rx.key, rx.networkID, rx.typ);
    var sealed := SealAll(sender, payloads);
    outcomes := OpenDelayed(receiver, payloads, sealed, arrivals);
  }

  /** Both devices derive codecs or neither does; then the receiver's calls of Open give exactly what the order of
      arrivals says. */
  method Converse(
    kx: KeyExchange, aead: Aead, privateA: Bytes, privateB: Bytes, a: Bytes, b: Bytes,
    payloads: seq<Bytes>, arrivals: seq<nat>)
    returns (outcomes: Option<seq<Outcome>>)
    requires kx.Lawful() && aead.Lawful() && a != b
    requires forall j :: 0 <= j < |arrivals| ==> arrivals[j] < |payloads|
    ensures outcomes.Some? <==> CodecsFromX25519(kx, aead, privateA, kx.public(privateB), a, b).Some?
    ensures outcomes.Some? ==> |outcomes.value| == |arrivals|
    ensures outcomes.Some? ==>
      forall j :: 0 <= j < |arrivals| ==> outcomes.value[j] == Received(payloads, arrivals, j)
  {
    MirroredCodecs(kx, aead, privateA, privateB, a, b);
    var atA := CodecsFromX25519(kx, aead, privateA, kx.public(privateB), a, b);
    var atB := CodecsFromX25519(kx, aead, privateB, kx.public(privateA), b, a);
    if atA.None? || atB.None? {
      return None;
    }
    var results := Exchange(atA.value.tx, atB.value.rx, payloads, arrivals);
    return Some(results);
  }
}
