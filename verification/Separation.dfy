/** What keeps the two directions of a session apart, one pair of devices from another, and a frame from every codec and
    every header but its own. HKDF and the AEAD are free of collisions exactly as far as each statement asks. */
module Separation {
  import opened Basics
  import opened Replay
  import opened Session

  /** Equal keys of one secret and one salt have equal labels. */
  ghost predicate TellsLabels(kx: KeyExchange) {
    forall secret, salt, i, j :: kx.hkdf(secret, salt, i) == kx.hkdf(secret, salt, j) ==> i == j
  }

  /** Equal keys have equal salts. */
  ghost predicate TellsSalts(kx: KeyExchange) {
    forall x, y, s, t, i, j :: kx.hkdf(x, s, i) == kx.hkdf(y, t, j) ==> s == t
  }

  /** What is sealed here opens only under its own key, nonce and header. */
  ghost predicate Binds(aead: Aead, key: Bytes, nonce: Bytes, plain: Bytes, header: Bytes) {
    forall k, n, h :: aead.open(k, n, aead.seal(key, nonce, plain, header), h).Some? ==>
      k == key && n == nonce && h == header
  }

  // ---------------------------------------------------------------------------------------------
  // Labels and directions

  lemma LabelsDiffer()
    ensures INFO_AB != INFO_BA
  {
    assert INFO_AB[26] == 'a' as int && INFO_BA[26] == 'b' as int;
  }

  /** When codecs are made, and under which keys: the device whose id comes first sends under the a-to-b key. */
  lemma CodecsExactly(kx: KeyExchange, aead: Aead, private: Bytes, public: Bytes, self: Bytes, peer: Bytes)
    ensures
      var codecs, secret := CodecsFromX25519(kx, aead, private, public, self, peer), kx.agree(private, public);
      var salt := Salt(0, SESSION_ID, self, peer);
      && (codecs.Some? <==> |public| == 32 && secret.Some? && secret.value != [])
      && (codecs.Some? ==>
            var ab, ba := kx.hkdf(secret.value, salt, INFO_AB), kx.hkdf(secret.value, salt, INFO_BA);
            && codecs.value.tx == Params(aead, if Less(self, peer) then ab else ba, 0, 1)
            && codecs.value.rx == Params(aead, if Less(self, peer) then ba else ab, 0, 1))
  {
  }

  /** No device sends under the key it receives under. */
  lemma DirectionsDiffer(kx: KeyExchange, aead: Aead, private: Bytes, public: Bytes, self: Bytes, peer: Bytes)
    requires TellsLabels(kx)
    ensures
      var codecs := CodecsFromX25519(kx, aead, private, public, self, peer);
      codecs.Some? ==> codecs.value.tx.key != codecs.value.rx.key
  {
    CodecsExactly(kx, aead, private, public, self, peer);
    LabelsDiffer();
  }

  /** Key and nonce of the seal after `i` others, on a new sending codec. */
  function KeyAndNonce(p: Params, i: nat): (Bytes, Bytes) {
    (p.key, NonceFrom(p.networkID, SealNumber(1, i)))
  }

  /** Of all seals of two devices for each other, two share key and nonce exactly when they go the same way and a
      multiple of 2^32 seals lies between them. */
  lemma SealsShareNothing(
    kx: KeyExchange, aead: Aead, privateA: Bytes, privateB: Bytes, a: Bytes, b: Bytes, i: nat, j: nat)
    requires kx.Lawful() && TellsLabels(kx) && a != b && i <= j
    requires CodecsFromX25519(kx, aead, privateA, kx.public(privateB), a, b).Some?
    ensures
      var atA := CodecsFromX25519(kx, aead, privateA, kx.public(privateB), a, b);
      var atB := CodecsFromX25519(kx, aead, privateB, kx.public(privateA), b, a);
      && atB.Some?
      && KeyAndNonce(atA.value.tx, i) != KeyAndNonce(atB.value.tx, j)
      && KeyAndNonce(atA.value.tx, j) != KeyAndNonce(atB.value.tx, i)
      && (KeyAndNonce(atA.value.tx, i) == KeyAndNonce(atA.value.tx, j) <==> Wrap32(j - i) == 0)
  {
    MirroredCodecs(kx, aead, privateA, privateB, a, b);
    DirectionsDiffer(kx, aead, privateA, kx.public(privateB), a, b);
    NonceReuse(CodecsFromX25519(kx, aead, privateA, kx.public(privateB), a, b).value.tx.networkID, 1, i, j);
  }

  // ---------------------------------------------------------------------------------------------
  // Salts and pairs of devices

  predicate NulFree(id: Bytes) {
    0 !in id
  }

  /** The two ids as an unordered pair. */
  predicate SamePair(a: Bytes, b: Bytes, c: Bytes, d: Bytes) {
    (a == c && b == d) || (a == d && b == c)
  }

  /** The lesser of two ids first. */
  function Sorted(a: Bytes, b: Bytes): (Bytes, Bytes) {
    if Less(b, a) then (b, a) else (a, b)
  }

  lemma SortedTellsPair(a: Bytes, b: Bytes, c: Bytes, d: Bytes)
    ensures Sorted(a, b) == Sorted(c, d) <==> SamePair(a, b, c, d)
  {
    if a != b {
      LessIsTotal(a, b);
    }
  }

  lemma NetworkOf(networkID: nat, rest: Bytes)
    requires networkID < U64
    ensures FromBigEndian((BigEndian(networkID, 8) + rest)[..8]) == networkID
  {
    Pow256Of8();
    BigEndianRoundTrip(networkID, 8);
    assert (BigEndian(networkID, 8) + rest)[..8] == BigEndian(networkID, 8);
  }

  lemma SaltParts(networkID: nat, sessionID: Bytes, a: Bytes, b: Bytes)
    ensures
      var (first, second) := Sorted(a, b);
      Salt(networkID, sessionID, a, b) == BigEndian(networkID, 8) + ([0] + (sessionID + [0] + (first + [0] + second)))
  {
  }

  lemma CutPrefix(p: Bytes, x: Bytes, q: Bytes, y: Bytes)
    requires p + x == q + y && |p| == |q|
    ensures p == q && x == y
  {
    assert (p + x)[..|p|] == p && (q + y)[..|q|] == q && (p + x)[|p|..] == x && (q + y)[|q|..] == y;
  }

  /** With ids free of NUL two salts are equal exactly for the same network, session and pair of devices, whichever of
      the two computes it. */
  lemma SaltTellsPair(m: nat, s: Bytes, a: Bytes, b: Bytes, n: nat, t: Bytes, c: Bytes, d: Bytes)
    requires m < U64 && n < U64
    requires NulFree(s) && NulFree(a) && NulFree(b) && NulFree(t) && NulFree(c) && NulFree(d)
    ensures Salt(m, s, a, b) == Salt(n, t, c, d) <==> m == n && s == t && SamePair(a, b, c, d)
  {
    var (first, second) := Sorted(a, b);
    var (third, fourth) := Sorted(c, d);
    SaltParts(m, s, a, b);
    SaltParts(n, t, c, d);
    SortedTellsPair(a, b, c, d);
    if Salt(m, s, a, b) == Salt(n, t, c, d) {
      var x, y := s + [0] + (first + [0] + second), t + [0] + (third + [0] + fourth);
      CutPrefix(BigEndian(m, 8), [0] + x, BigEndian(n, 8), [0] + y);
      CutPrefix([0], x, [0], y);
      NetworkOf(m, []);
      NetworkOf(n, []);
      CutFirst(0, s, first + [0] + second, t, third + [0] + fourth);
      CutFirst(0, first, second, third, fourth);
    }
  }

  /** Ids with a NUL inside can be confused: these two pairs of devices have the same salt. */
  lemma NulConfusesSalts(networkID: nat, sessionID: Bytes)
    ensures Salt(networkID, sessionID, [1], [2, 0, 3]) == Salt(networkID, sessionID, [1, 0, 2], [3])
    ensures !SamePair([1], [2, 0, 3], [1, 0, 2], [3])
  {
    assert [1] + [0] + [2, 0, 3] == [1, 0, 2] + [0] + [3];
    assert Sorted([1], [2, 0, 3]) == ([1], [2, 0, 3]) && Sorted([1, 0, 2], [3]) == ([1, 0, 2], [3]);
    SaltParts(networkID, sessionID, [1], [2, 0, 3]);
    SaltParts(networkID, sessionID, [1, 0, 2], [3]);
  }

  /** Different pairs of devices share no key, whatever secrets they agreed on. */
  lemma PairsHaveOwnKeys(kx: KeyExchange, a: Bytes, b: Bytes, c: Bytes, d: Bytes, x: PeerCodecs, y: PeerCodecs,
                         aead: Aead, privateX: Bytes, publicX: Bytes, privateY: Bytes, publicY: Bytes)
    requires TellsSalts(kx) && NulFree(a) && NulFree(b) && NulFree(c) && NulFree(d) && !SamePair(a, b, c, d)
    requires CodecsFromX25519(kx, aead, privateX, publicX, a, b) == Some(x)
    requires CodecsFromX25519(kx, aead, privateY, publicY, c, d) == Some(y)
    ensures {x.tx.key, x.rx.key} !! {y.tx.key, y.rx.key}
  {
    CodecsExactly(kx, aead, privateX, publicX, a, b);
    CodecsExactly(kx, aead, privateY, publicY, c, d);
    assert forall i :: 0 <= i < |SESSION_ID| ==> SESSION_ID[i] == "x25519-v1"[i] as int;
    SaltTellsPair(0, SESSION_ID, a, b, 0, SESSION_ID, c, d);
  }

  // ---------------------------------------------------------------------------------------------
  // Frames and codecs

  /** Whatever header is put before the sealed bytes of a frame, and whatever codec of that AEAD reads it: it
      authenticates exactly if it is that frame, unchanged, and key, type and network are those it was sealed with. */
  lemma OpensExactlyAsSealed(p: Params, q: Params, n: nat, payload: Bytes, frame: Bytes)
    requires p.aead == q.aead && q.aead.Lawful() && p.networkID < U64 && q.networkID < U64 && n < U64
    requires Binds(q.aead, q.key, NonceFrom(q.networkID, n), payload, Header(q, n))
    requires |frame| >= HEADER_LEN && frame[HEADER_LEN..] == SealFrame(q, n, payload)[HEADER_LEN..]
    ensures Read(p, frame).Numbered? && Read(p, frame).authentic <==>
      frame == SealFrame(q, n, payload) && p.key == q.key && p.typ == q.typ && p.networkID == q.networkID
  {
    var sealed := SealFrame(q, n, payload);
    SealedLayout(q, n, payload);
    assert sealed[..HEADER_LEN] == Header(q, n);
    if Read(p, frame).Numbered? && Read(p, frame).authentic {
      assert frame[..HEADER_LEN] == Header(q, n);
      assert frame == frame[..HEADER_LEN] + frame[HEADER_LEN..];
      assert sealed == sealed[..HEADER_LEN] + sealed[HEADER_LEN..];
      SealedFrameIsWellFormed(q, n, payload);
    }
    if frame == sealed && p == q {
      SealedFrameIsWellFormed(q, n, payload);
    }
  }

  /** A frame that comes back to the device that sealed it is not delivered there, however often it comes. */
  lemma ReflectedIsNotDelivered(kx: KeyExchange, aead: Aead, private: Bytes, public: Bytes, self: Bytes, peer: Bytes,
                                codecs: PeerCodecs, n: nat, payload: Bytes, frames: seq<Bytes>, j: nat)
    requires aead.Lawful() && TellsLabels(kx) && n < U64
    requires CodecsFromX25519(kx, aead, private, public, self, peer) == Some(codecs)
    requires Binds(aead, codecs.tx.key, NonceFrom(0, n), payload, Header(codecs.tx, n))
    requires j < |frames| && frames[j] == SealFrame(codecs.tx, n, payload)
    ensures !OutcomeAt(codecs.rx, frames, j).Payload?
  {
    CodecsExactly(kx, aead, private, public, self, peer);
    DirectionsDiffer(kx, aead, private, public, self, peer);
    OpensExactlyAsSealed(codecs.rx, codecs.tx, n, payload, frames[j]);
  }

  /** Nor is it delivered by any other pair of devices. */
  lemma ForeignIsNotDelivered(kx: KeyExchange, a: Bytes, b: Bytes, c: Bytes, d: Bytes, x: PeerCodecs, y: PeerCodecs,
                              aead: Aead, privateX: Bytes, publicX: Bytes, privateY: Bytes, publicY: Bytes,
                              n: nat, payload: Bytes, frames: seq<Bytes>, j: nat)
    requires TellsSalts(kx) && NulFree(a) && NulFree(b) && NulFree(c) && NulFree(d) && !SamePair(a, b, c, d)
    requires CodecsFromX25519(kx, aead, privateX, publicX, a, b) == Some(x)
    requires CodecsFromX25519(kx, aead, privateY, publicY, c, d) == Some(y)
    requires aead.Lawful() && n < U64 && Binds(aead, x.tx.key, NonceFrom(0, n), payload, Header(x.tx, n))
    requires j < |frames| && frames[j] == SealFrame(x.tx, n, payload)
    ensures !OutcomeAt(y.rx, frames, j).Payload?
  {
    PairsHaveOwnKeys(kx, a, b, c, d, x, y, aead, privateX, publicX, privateY, publicY);
    CodecsExactly(kx, aead, privateX, publicX, a, b);
    CodecsExactly(kx, aead, privateY, publicY, c, d);
    OpensExactlyAsSealed(y.rx, x.tx, n, payload, frames[j]);
  }
}
