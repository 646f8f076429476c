/** The packet session of `internal/packet/session.go` and its key agreement in
    `cmd/UDPTunnelLAN/packet_runtime.go`: frames carry a sequence number, are sealed with an AEAD keyed per
    direction, and every transport of a peer feeds one receive codec.

    The AEAD, HKDF and X25519 are parameters, constrained only by the laws stated in `Aead.Lawful` and
    `KeyExchange.Lawful`. The network is an arbitrary sequence of byte strings. */
module Session {
  import opened Basics
  import opened Bits
  import opened Replay

  // ---------------------------------------------------------------------------------------------
  // Frames

  const MAGIC: Bytes := [0x55, 0x44, 0x50, 0x4C]
  const FRAME_VERSION: Byte := 1
  const TYPE_IPV4: Byte := 1
  const HEADER_LEN: nat := 24
  const OVERHEAD: nat := 16

  /** `seal(key, nonce, plaintext, additional)` and `open(key, nonce, ciphertext, additional)`. */
  datatype Aead = Aead(
    seal: (Bytes, Bytes, Bytes, Bytes) -> Bytes,
    open: (Bytes, Bytes, Bytes, Bytes) -> Option<Bytes>)
  {
    ghost predicate Lawful() {
      forall key, nonce, plain, header ::
        && |seal(key, nonce, plain, header)| == |plain| + OVERHEAD
        && open(key, nonce, seal(key, nonce, plain, header), header) == Some(plain)
    }
  }

  /** The unchanging part of a codec. */
  datatype Params = Params(aead: Aead, key: Bytes, networkID: nat, typ: Byte)

  function Header(p: Params, n: nat): (header: Bytes)
    ensures |header| == HEADER_LEN
  {
    MAGIC + [FRAME_VERSION, p.typ, 0, 0] + BigEndian(p.networkID, U64_LEN) + BigEndian(n, U64_LEN)
  }

  /** Only the low 32 bits of the sequence number enter the nonce. */
  function NonceFrom(networkID: nat, n: nat): Bytes {
    BigEndian(networkID, U64_LEN) + BigEndian(Wrap32(n), 4)
  }

  function SealFrame(p: Params, n: nat, payload: Bytes): Bytes {
    Header(p, n) + p.aead.seal(p.key, NonceFrom(p.networkID, n), payload, Header(p, n))
  }

  predicate WellFormed(p: Params, frame: Bytes) {
    && |frame| >= HEADER_LEN + OVERHEAD
    && frame[..4] == MAGIC
    && frame[4] == FRAME_VERSION
    && frame[5] == p.typ
    && FromBigEndian(frame[8..16]) == p.networkID
  }

  function SequenceOf(frame: Bytes): nat
    requires |frame| >= HEADER_LEN
  {
    FromBigEndian(frame[16..24])
  }

  function Decrypt(p: Params, frame: Bytes): Option<Bytes>
    requires |frame| >= HEADER_LEN
  {
    p.aead.open(p.key, NonceFrom(p.networkID, SequenceOf(frame)), frame[HEADER_LEN..], frame[..HEADER_LEN])
  }

  datatype Outcome = Payload(bytes: Bytes) | BadFrame | Replay

  function Read(p: Params, frame: Bytes): Arrival {
    if !WellFormed(p, frame) then Malformed else Numbered(SequenceOf(frame), Decrypt(p, frame).Some?)
  }

  /** What `Open` returns in state `s`. */
  function Result(p: Params, s: Seen, frame: Bytes): Outcome {
    match VerdictOf(s, Read(p, frame))
    case Refused => BadFrame
    case Replayed => Replay
    case Delivered => Payload(Decrypt(p, frame).value)
  }

  /** A 64-bit counter goes up by one. */
  function NextNumber(n: nat): nat {
    if n + 1 == U64 then 0 else n + 1
  }

  class Codec {
    const p: Params
    var nextSeq: nat
    const replay: ReplayWindow

    ghost predicate Valid()
      reads this, replay
    {
      replay.Valid() && nextSeq < U64
    }

    constructor (aead: Aead, key: Bytes, networkID: nat, typ: Byte)
      ensures Valid() && fresh(replay) && replay.seen == NOTHING_SEEN && nextSeq == 1
      ensures p == Params(aead, key, networkID, if typ == 0 then TYPE_IPV4 else typ)
    {
      p := Params(aead, key, networkID, if typ == 0 then TYPE_IPV4 else typ);
      nextSeq := 1;
      replay := new ReplayWindow();
    }

    method Seal(payload: Bytes) returns (frame: Bytes)
      requires Valid()
      modifies this`nextSeq
      ensures Valid()
      ensures frame == SealFrame(p, old(nextSeq), payload)
      ensures nextSeq == NextNumber(old(nextSeq))
    {
      var n := nextSeq;
      nextSeq := NextNumber(nextSeq);
      var header := Header(p, n);
      frame := header + p.aead.seal(p.key, NonceFrom(p.networkID, n), payload, header);
    }

    method Open(frame: Bytes) returns (outcome: Outcome)
      requires Valid()
      modifies replay
      ensures Valid()
      ensures replay.seen == Receive(old(replay.seen), Read(p, frame))
      ensures outcome == Result(p, old(replay.seen), frame)
    {
      if |frame| < HEADER_LEN + OVERHEAD || frame[..4] != MAGIC || frame[4] != FRAME_VERSION {
        return BadFrame;
      }
      if frame[5] != p.typ {
        return BadFrame;
      }
      if FromBigEndian(frame[8..16]) != p.networkID {
        return BadFrame;
      }
      var n := SequenceOf(frame);
      var ok := replay.Accept(n);
      if !ok {
        return Replay;
      }
      var plain := p.aead.open(p.key, NonceFrom(p.networkID, n), frame[HEADER_LEN..], frame[..HEADER_LEN]);
      match plain
      case None =>
        replay.Rollback(n);
        assert old(replay.seen).delivered + {n} - {n} == old(replay.seen).delivered;
        return BadFrame;
      case Some(bytes) =>
        return Payload(bytes);
    }
  }

  // ---------------------------------------------------------------------------------------------
  // Runs: any sequence of frames presented to one receive codec

  function Reads(p: Params, frames: seq<Bytes>): seq<Arrival> {
    seq(|frames|, i requires 0 <= i < |frames| => Read(p, frames[i]))
  }

  /** The codec's memory after the first `j` frames of the run. */
  function StateAt(p: Params, frames: seq<Bytes>, j: nat): Seen
    requires j <= |frames|
  {
    if j == 0 then NOTHING_SEEN else Receive(StateAt(p, frames, j - 1), Read(p, frames[j - 1]))
  }

  /** The result of the `j`-th call of `Open` in the run. */
  function OutcomeAt(p: Params, frames: seq<Bytes>, j: nat): Outcome
    requires j < |frames|
  {
    Result(p, StateAt(p, frames, j), frames[j])
  }

  lemma {:induction false} StateIsAfter(p: Params, frames: seq<Bytes>, j: nat)
    requires j <= |frames|
    ensures StateAt(p, frames, j) == After(Reads(p, frames)[..j])
  {
    if j > 0 {
      StateIsAfter(p, frames, j - 1);
      assert Reads(p, frames)[..j][..j - 1] == Reads(p, frames)[..j - 1];
    }
  }

  /** The results of the first `j` calls. */
  function Outcomes(p: Params, frames: seq<Bytes>, j: nat): (r: seq<Outcome>)
    requires j <= |frames|
    ensures |r| == j
  {
    if j == 0 then [] else Outcomes(p, frames, j - 1) + [OutcomeAt(p, frames, j - 1)]
  }

  lemma {:induction false} OutcomesIndexed(p: Params, frames: seq<Bytes>, n: nat, j: nat)
    requires j < n <= |frames|
    ensures Outcomes(p, frames, n)[j] == OutcomeAt(p, frames, j)
  {
    if j < n - 1 {
      OutcomesIndexed(p, frames, n - 1, j);
    }
  }

  /** Any run of a new codec is the run of the model. */
  method OpenAll(codec: Codec, frames: seq<Bytes>) returns (outcomes: seq<Outcome>)
    requires codec.Valid() && codec.replay.seen == NOTHING_SEEN
    modifies codec.replay
    ensures codec.Valid() && codec.replay.seen == StateAt(codec.p, frames, |frames|)
    ensures outcomes == Outcomes(codec.p, frames, |frames|)
  {
    outcomes := [];
    for j := 0 to |frames|
      invariant codec.Valid() && codec.replay.seen == StateAt(codec.p, frames, j)
      invariant outcomes == Outcomes(codec.p, frames, j)
    {
      var outcome := codec.Open(frames[j]);
      outcomes := outcomes + [outcome];
    }
  }

  // ---------------------------------------------------------------------------------------------
  // Sender to receiver

  /** Where the parts of a frame are. */
  lemma FrameLayout(magic: Bytes, version: Bytes, network: Bytes, number: Bytes, body: Bytes)
    requires |magic| == |version| == 4 && |network| == |number| == 8
    ensures
      var header := magic + version + network + number;
      var frame := header + body;
      && frame[..4] == magic && frame[4..8] == version && frame[4] == version[0] && frame[5] == version[1]
      && frame[8..16] == network && frame[16..24] == number
      && frame[..HEADER_LEN] == header && frame[HEADER_LEN..] == body
  {
  }

  lemma SealedFrameIsWellFormed(p: Params, n: nat, payload: Bytes)
    requires p.aead.Lawful() && p.networkID < U64 && n < U64
    ensures
      var frame := SealFrame(p, n, payload);
      WellFormed(p, frame) && SequenceOf(frame) == n && Decrypt(p, frame) == Some(payload)
  {
    var header, nonce := Header(p, n), NonceFrom(p.networkID, n);
    var body := p.aead.seal(p.key, nonce, payload, header);
    assert |body| == |payload| + OVERHEAD && p.aead.open(p.key, nonce, body, header) == Some(payload);
    Pow256Of8();
    BigEndianRoundTrip(p.networkID, U64_LEN);
    BigEndianRoundTrip(n, U64_LEN);
    FrameLayout(MAGIC, [FRAME_VERSION, p.typ, 0, 0], BigEndian(p.networkID, U64_LEN), BigEndian(n, U64_LEN), body);
  }

  /** The same of any copy of the frame. */
  lemma SealedFrameReads(p: Params, n: nat, payload: Bytes, frame: Bytes)
    requires p.aead.Lawful() && p.networkID < U64 && n < U64 && frame == SealFrame(p, n, payload)
    ensures Read(p, frame) == Numbered(n, true) && |frame| >= HEADER_LEN && Decrypt(p, frame) == Some(payload)
  {
    SealedFrameIsWellFormed(p, n, payload);
  }

  /** The bytes of a sealed frame: "UDPL", version 1, the type, two zero bytes, the network and the number with the
      high byte first, and the payload sealed with all of these as additional data. */
  lemma SealedLayout(p: Params, n: nat, payload: Bytes)
    ensures
      var frame := SealFrame(p, n, payload);
      && |frame| >= 24 && frame[..4] == [0x55, 0x44, 0x50, 0x4C] && frame[4..8] == [1, p.typ, 0, 0]
      && HighFirst(frame[8..16], p.networkID) && HighFirst(frame[16..24], n)
      && frame[24..] == p.aead.seal(p.key, NonceFrom(p.networkID, n), payload, frame[..24])
  {
    var network, number := BigEndian(p.networkID, 8), BigEndian(n, 8);
    var body := p.aead.seal(p.key, NonceFrom(p.networkID, n), payload, Header(p, n));
    FrameLayout(MAGIC, [FRAME_VERSION, p.typ, 0, 0], network, number, body);
    BigEndianDigits(p.networkID, 8);
    BigEndianDigits(n, 8);
  }

  /** The nonce is the network, followed by the low four bytes of the number. */
  lemma NonceLayout(networkID: nat, n: nat)
    ensures
      var nonce := NonceFrom(networkID, n);
      |nonce| == 12 && HighFirst(nonce[..8], networkID) && HighFirst(nonce[8..], n % 0x1_0000_0000)
  {
    BigEndianDigits(networkID, 8);
    BigEndianDigits(Wrap32(n), 4);
    assert NonceFrom(networkID, n)[..8] == BigEndian(networkID, 8);
    assert NonceFrom(networkID, n)[8..] == BigEndian(Wrap32(n), 4);
  }

  /** A frame is looked at further exactly when it is long enough and has the magic, the version, the type and the
      network of the codec; its number is then the one in its bytes 16 to 23. */
  lemma WellFormedExactly(p: Params, frame: Bytes)
    requires p.networkID < U64
    ensures WellFormed(p, frame) <==>
      |frame| >= 40 && frame[..6] == [0x55, 0x44, 0x50, 0x4C, 1, p.typ] && frame[8..16] == BigEndian(p.networkID, 8)
    ensures |frame| >= 40 ==> frame[16..24] == BigEndian(SequenceOf(frame), 8)
  {
    Pow256Of8();
    BigEndianRoundTrip(p.networkID, 8);
    if |frame| >= 40 {
      FromBigEndianRoundTrip(frame[8..16]);
      FromBigEndianRoundTrip(frame[16..24]);
      assert frame[..6] == frame[..4] + [frame[4], frame[5]];
    }
  }

  /** The outcome of every call, whatever bytes are presented: a frame that is not well-formed is bad, a number that is
      not new is a replay, and otherwise decryption decides. */
  lemma OutcomeExactly(p: Params, frames: seq<Bytes>, j: nat)
    requires j < |frames|
    ensures OutcomeAt(p, frames, j) ==
      if !WellFormed(p, frames[j]) then BadFrame
      else if !IsNew(Reads(p, frames), j, SequenceOf(frames[j])) then Replay
      else match Decrypt(p, frames[j])
        case None => BadFrame
        case Some(payload) => Payload(payload)
  {
    StateIsAfter(p, frames, j);
    VerdictExactly(Reads(p, frames), j);
  }

  /** A sealed payload that reaches the receiver opens to itself exactly when its number is within the window of
      the highest presented and has not been delivered before, in any order and among any other frames; otherwise it is
      refused as a replay. */
  lemma SealedDelivery(p: Params, frames: seq<Bytes>, j: nat, n: nat, payload: Bytes)
    requires p.aead.Lawful() && p.networkID < U64 && 0 < n < U64
    requires j < |frames| && frames[j] == SealFrame(p, n, payload)
    ensures
      var xs := Reads(p, frames);
      OutcomeAt(p, frames, j) ==
        if n + WINDOW_SIZE > HighestPresented(xs[..j]) && !(exists i :: 0 <= i < j && DeliveredAt(xs, i, n))
        then Payload(payload)
        else Replay
  {
    SealedFrameIsWellFormed(p, n, payload);
    StateIsAfter(p, frames, j);
    DeliveryExactly(Reads(p, frames), j);
  }

  /** The only frames that authenticate are sealed ones, listed as pairs of sequence number and payload. */
  ghost predicate OnlySealedAuthenticate(p: Params, frames: seq<Bytes>, sealed: set<(nat, Bytes)>) {
    forall j :: 0 <= j < |frames| && Read(p, frames[j]).Numbered? && Read(p, frames[j]).authentic ==>
      exists s :: s in sealed && frames[j] == SealFrame(p, s.0, s.1)
  }

  /** If only sealed frames authenticate, whatever is delivered is a payload that was sealed, under the number it
      was sealed with. */
  lemma DeliveredWasSealed(p: Params, frames: seq<Bytes>, sealed: set<(nat, Bytes)>, j: nat)
    requires p.aead.Lawful() && p.networkID < U64
    requires forall s :: s in sealed ==> s.0 < U64
    requires OnlySealedAuthenticate(p, frames, sealed)
    requires j < |frames| && OutcomeAt(p, frames, j).Payload?
    ensures (SequenceOf(frames[j]), OutcomeAt(p, frames, j).bytes) in sealed
  {
    assert Read(p, frames[j]).Numbered? && Read(p, frames[j]).authentic;
    var s :| s in sealed && frames[j] == SealFrame(p, s.0, s.1);
    SealedFrameIsWellFormed(p, s.0, s.1);
  }

  /** A sealed frame that arrives twice, say over the UDP relay and over the HTTP relay, is delivered once: if its
      first arrival is within the window, the number is delivered by then and the second arrival is refused. */
  lemma SentTwiceDeliveredOnce(p: Params, frames: seq<Bytes>, i: nat, j: nat, n: nat, payload: Bytes)
    requires p.aead.Lawful() && p.networkID < U64 && 0 < n < U64
    requires i < j < |frames| && frames[i] == frames[j] == SealFrame(p, n, payload)
    requires n + WINDOW_SIZE > HighestPresented(Reads(p, frames)[..i])
    ensures OutcomeAt(p, frames, j) == Replay
    ensures exists k :: 0 <= k <= i && DeliveredAt(Reads(p, frames), k, n)
  {
    var xs := Reads(p, frames);
    SealedFrameIsWellFormed(p, n, payload);
    DeliveryExactly(xs, i);
    assert (exists k :: 0 <= k < i && DeliveredAt(xs, k, n)) || DeliveredAt(xs, i, n);
    SealedDelivery(p, frames, j, n, payload);
  }

  // ---------------------------------------------------------------------------------------------
  // Runs of Seal

  /** The counter of a codec that stood at `first`, after `i` seals. */
  function SealNumber(first: nat, i: nat): nat {
    if i == 0 then first else NextNumber(SealNumber(first, i - 1))
  }

  lemma WrappedStep(x: nat, y: nat)
    requires y == Wrap64(x)
    ensures NextNumber(y) == Wrap64(x + 1)
  {
  }

  lemma {:induction false} SealNumberWraps(first: nat, i: nat)
    requires first < U64
    ensures SealNumber(first, i) == Wrap64(first + i)
  {
    if i > 0 {
      SealNumberWraps(first, i - 1);
      WrappedStep(first + i - 1, SealNumber(first, i - 1));
    }
  }

  /** The payloads sealed one after the other, from the number `first` on. */
  function SealedFrames(p: Params, first: nat, payloads: seq<Bytes>): (frames: seq<Bytes>)
    ensures |frames| == |payloads|
  {
    if payloads == [] then []
    else
      var n := |payloads| - 1;
      SealedFrames(p, first, payloads[..n]) + [SealFrame(p, SealNumber(first, n), payloads[n])]
  }

  lemma {:induction false} SealedFrameAt(p: Params, first: nat, payloads: seq<Bytes>, i: nat)
    requires i < |payloads|
    ensures SealedFrames(p, first, payloads)[i] == SealFrame(p, SealNumber(first, i), payloads[i])
  {
    if i < |payloads| - 1 {
      SealedFrameAt(p, first, payloads[..|payloads| - 1], i);
    }
  }

  /** The frames of any run of Seal carry consecutive numbers. */
  method SealAll(codec: Codec, payloads: seq<Bytes>) returns (frames: seq<Bytes>)
    requires codec.Valid()
    modifies codec`nextSeq
    ensures codec.Valid() && codec.nextSeq == SealNumber(old(codec.nextSeq), |payloads|)
    ensures frames == SealedFrames(codec.p, old(codec.nextSeq), payloads)
  {
    frames := [];
    for i := 0 to |payloads|
      invariant codec.Valid() && codec.nextSeq == SealNumber(old(codec.nextSeq), i)
      invariant frames == SealedFrames(codec.p, old(codec.nextSeq), payloads[..i])
    {
      var frame := codec.Seal(payloads[i]);
      assert payloads[..i + 1][..i] == payloads[..i];
      frames := frames + [frame];
    }
    assert payloads[..|payloads|] == payloads;
  }

  lemma LowBitsOfWrapped(x: nat)
    ensures Wrap32(Wrap64(x)) == Wrap32(x)
  {
  }

  lemma CongruentWhenApart(x: nat, y: nat)
    requires x <= y
    ensures Wrap32(x) == Wrap32(y) <==> Wrap32(y - x) == 0
  {
  }

  lemma SealNumbersCongruent(first: nat, i: nat, j: nat)
    requires first < U64 && i <= j
    ensures Wrap32(SealNumber(first, i)) == Wrap32(SealNumber(first, j)) <==> Wrap32(j - i) == 0
  {
    SealNumberWraps(first, i);
    SealNumberWraps(first, j);
    LowBitsOfWrapped(first + i);
    LowBitsOfWrapped(first + j);
    CongruentWhenApart(first + i, first + j);
  }

  /** The nonce determines the sequence number modulo 2^32, and nothing more. */
  lemma NonceDetermines(networkID: nat, m: nat, n: nat)
    ensures NonceFrom(networkID, m) == NonceFrom(networkID, n) <==> Wrap32(m) == Wrap32(n)
  {
    Pow256Of8();
    BigEndianRoundTrip(Wrap32(m), 4);
    BigEndianRoundTrip(Wrap32(n), 4);
    var x, y := NonceFrom(networkID, m), NonceFrom(networkID, n);
    assert x[8..] == BigEndian(Wrap32(m), 4) && y[8..] == BigEndian(Wrap32(n), 4);
  }

  /** Two seals of a run of `SealAll` share a nonce exactly when a multiple of 2^32 seals lies between them, so any
      2^32 consecutive seals use distinct nonces, and the next one repeats the first. */
  lemma NonceReuse(networkID: nat, first: nat, i: nat, j: nat)
    requires first < U64 && i <= j
    ensures NonceFrom(networkID, SealNumber(first, i)) == NonceFrom(networkID, SealNumber(first, j))
       <==> Wrap32(j - i) == 0
  {
    NonceDetermines(networkID, SealNumber(first, i), SealNumber(first, j));
    SealNumbersCongruent(first, i, j);
  }

  // ---------------------------------------------------------------------------------------------
  // Key agreement

  /** `public(private)`, `agree(private, public)` (None when the exchange is refused) and
      `hkdf(secret, salt, info)`. */
  datatype KeyExchange = KeyExchange(
    public: Bytes -> Bytes,
    agree: (Bytes, Bytes) -> Option<Bytes>,
    hkdf: (Bytes, Bytes, Bytes) -> Bytes)
  {
    ghost predicate Lawful() {
      && (forall a :: |public(a)| == 32)
      && (forall a, b :: agree(a, public(b)) == agree(b, public(a)))
    }
  }

  datatype SessionKeys = SessionKeys(ab: Bytes, ba: Bytes)

  function Text(s: string): Bytes {
    seq(|s|, i requires 0 <= i < |s| => s[i] as int % 256)
  }

  const INFO_AB: Bytes := Text("udp-tunnel-lan/session/v1/a-to-b")
  const INFO_BA: Bytes := Text("udp-tunnel-lan/session/v1/b-to-a")
  const SESSION_ID: Bytes := Text("x25519-v1")

  function Salt(networkID: nat, sessionID: Bytes, deviceA: Bytes, deviceB: Bytes): Bytes {
    var (first, second) := if Less(deviceB, deviceA) then (deviceB, deviceA) else (deviceA, deviceB);
    BigEndian(networkID, U64_LEN) + [0] + sessionID + [0] + first + [0] + second
  }

  function DeriveSessionKeys(
    kx: KeyExchange, secret: Bytes, networkID: nat, sessionID: Bytes, deviceA: Bytes, deviceB: Bytes)
    : Option<SessionKeys>
  {
    if secret == [] then None
    else
      var salt := Salt(networkID, sessionID, deviceA, deviceB);
      Some(SessionKeys(kx.hkdf(secret, salt, INFO_AB), kx.hkdf(secret, salt, INFO_BA)))
  }

  datatype PeerCodecs = PeerCodecs(tx: Params, rx: Params)

  function CodecsFromX25519(
    kx: KeyExchange, aead: Aead, selfPrivate: Bytes, peerPublic: Bytes, self: Bytes, peer: Bytes)
    : Option<PeerCodecs>
  {
    if |peerPublic| != 32 then None
    else match kx.agree(selfPrivate, peerPublic)
      case None => None
      case Some(secret) =>
        match DeriveSessionKeys(kx, secret, 0, SESSION_ID, self, peer)
        case None => None
        case Some(keys) =>
          if Less(self, peer)
          then Some(PeerCodecs(Params(aead, keys.ab, 0, TYPE_IPV4), Params(aead, keys.ba, 0, TYPE_IPV4)))
          else Some(PeerCodecs(Params(aead, keys.ba, 0, TYPE_IPV4), Params(aead, keys.ab, 0, TYPE_IPV4)))
  }

  /** Two distinct devices derive mirrored codecs, or both fail. */
  lemma MirroredCodecs(kx: KeyExchange, aead: Aead, privateA: Bytes, privateB: Bytes, a: Bytes, b: Bytes)
    requires kx.Lawful() && a != b
    ensures
      var atA := CodecsFromX25519(kx, aead, privateA, kx.public(privateB), a, b);
      var atB := CodecsFromX25519(kx, aead, privateB, kx.public(privateA), b, a);
      && (atA.Some? <==> atB.Some?)
      && (atA.Some? ==> atA.value.tx == atB.value.rx && atA.value.rx == atB.value.tx)
  {
    LessIsTotal(a, b);
    assert kx.agree(privateA, kx.public(privateB)) == kx.agree(privateB, kx.public(privateA));
  }
}
