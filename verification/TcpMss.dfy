/** Packet parsing and in-place MSS clamping of `internal/packet/router.go`: `ParseIPv4`, `ClampTCPMSS` and the two
    checksum recomputations. TCP options are those of section 3.2 of RFC 9293. */
module TcpMss {
  import opened Basics
  import opened Checksum

  const ICMP: nat := 1
  const TCP: nat := 6
  const UDP: nat := 17

  datatype Header = Header(
    headerLen: nat, totalLen: nat, protocol: nat, sourceIP: Bytes, destIP: Bytes,
    sourcePort: nat, destPort: nat, tcpSyn: bool, payloadSize: nat)

  datatype ParseResult = Invalid(reason: string) | Parsed(header: Header)

  function WordAt(p: Bytes, i: nat): nat
    requires i + 1 < |p|
  {
    Word(p[i], p[i + 1])
  }

  /** The TCP data offset, in bytes. */
  function DataOffset(tcp: Bytes): nat
    requires |tcp| >= 20
  {
    (tcp[12] / 16) * 4
  }

  predicate HasPorts(protocol: nat, segment: Bytes) {
    || (protocol == TCP && |segment| >= 20 && DataOffset(segment) >= 20 && |segment| >= DataOffset(segment))
    || (protocol == UDP && |segment| >= 8)
  }

  function ParseIPv4(p: Bytes): ParseResult {
    if |p| < 20 then Invalid("too short")
    else if p[0] / 16 != 4 then Invalid("bad version")
    else
      var ihl := (p[0] % 16) * 4;
      if ihl < 20 || |p| < ihl then Invalid("bad header length")
      else
        var total := WordAt(p, 2);
        if total < ihl || total > |p| then Invalid("bad total length")
        else
          var segment := p[ihl..total];
          var ports := HasPorts(p[9], segment);
          Parsed(Header(
            ihl, total, p[9], p[12..16], p[16..20],
            if ports then WordAt(segment, 0) else 0,
            if ports then WordAt(segment, 2) else 0,
            p[9] == TCP && ports && (segment[13] / 2) % 2 == 1,
            total - ihl))
  }

  // ---------------------------------------------------------------------------------------------
  // The option walk

  /** Where the walk goes from position `i`; it stops by going to the end. */
  function NextOption(tcp: Bytes, i: nat, off: nat): (next: nat)
    requires i < off <= |tcp|
    ensures i < next <= off
  {
    if tcp[i] == 0 then off
    else if tcp[i] == 1 then i + 1
    else if i + 1 >= off then off
    else if tcp[i + 1] < 2 || i + tcp[i + 1] > off then off
    else i + tcp[i + 1]
  }

  predicate IsMssOption(tcp: Bytes, i: nat, off: nat)
    requires off <= |tcp|
  {
    i + 4 <= off && tcp[i] == 2 && tcp[i + 1] == 4
  }

  /** Positions of the MSS options that the walk reaches from `i`. */
  function MssOptions(tcp: Bytes, i: nat, off: nat): (r: seq<nat>)
    requires off <= |tcp|
    ensures forall k :: 0 <= k < |r| ==> i <= r[k] && IsMssOption(tcp, r[k], off)
    decreases off - i
  {
    if i >= off then []
    else if IsMssOption(tcp, i, off) then [i] + MssOptions(tcp, NextOption(tcp, i, off), off)
    else MssOptions(tcp, NextOption(tcp, i, off), off)
  }

  function Mss(tcp: Bytes, o: nat): nat
    requires o + 4 <= |tcp|
  {
    WordAt(tcp, o + 2)
  }

  /** `j` is a byte of the value of one of the options. */
  predicate InValue(options: seq<nat>, j: nat) {
    exists o :: o in options && o + 2 <= j < o + 4
  }

  /** Changing values of reached MSS options does not change the walk. */
  lemma {:induction false} WalkIgnoresValues(tcp: Bytes, tcp': Bytes, i: nat, off: nat)
    requires off <= |tcp| == |tcp'|
    requires forall j :: i <= j < |tcp| && tcp[j] != tcp'[j] ==> InValue(MssOptions(tcp, i, off), j)
    ensures MssOptions(tcp', i, off) == MssOptions(tcp, i, off)
    decreases off - i
  {
    if i < off {
      var next := NextOption(tcp, i, off);
      var options := MssOptions(tcp, i, off);
      assert tcp[i] == tcp'[i];
      assert i + 1 < |tcp| ==> tcp[i + 1] == tcp'[i + 1];
      forall j | next <= j < |tcp| && tcp[j] != tcp'[j] ensures InValue(MssOptions(tcp, next, off), j) {
        var o :| o in options && o + 2 <= j < o + 4;
        assert o in MssOptions(tcp, next, off);
      }
      WalkIgnoresValues(tcp, tcp', next, off);
    }
  }

  function Min(a: int, b: int): int {
    if a < b then a else b
  }

  /** `tcp'` is `tcp` with every MSS option that the walk reaches limited to `max`, and nothing else changed. */
  ghost predicate OptionsClamped(tcp: Bytes, tcp': Bytes, off: nat, max: int)
    requires off <= |tcp|
  {
    var options := MssOptions(tcp, 20, off);
    && |tcp'| == |tcp|
    && (forall j :: 0 <= j < |tcp| && !InValue(options, j) ==> tcp'[j] == tcp[j])
    && (forall o :: o in options ==> Mss(tcp', o) == Min(Mss(tcp, o), max))
  }

  /** The walk stands at `i` and has dealt with the options in `done`; `cur` is the segment so far. */
  ghost predicate Progress(tcp: Bytes, cur: Bytes, done: seq<nat>, i: nat, off: nat, max: int, changed: bool)
    requires off <= |tcp|
  {
    && |cur| == |tcp|
    && MssOptions(tcp, 20, off) == done + MssOptions(tcp, i, off)
    && (forall o :: o in done ==> o + 4 <= i && o + 4 <= |tcp|)
    && (forall j :: 0 <= j < |tcp| && !InValue(done, j) ==> cur[j] == tcp[j])
    && (forall o :: o in done ==> Mss(cur, o) == Min(Mss(tcp, o), max))
    && (changed <==> exists o :: o in done && Mss(tcp, o) > max)
    && (!changed ==> cur == tcp)
  }

  /** From here on the segment is still the original. */
  lemma Untouched(tcp: Bytes, cur: Bytes, done: seq<nat>, i: nat, off: nat, max: int, changed: bool)
    requires off <= |tcp| && Progress(tcp, cur, done, i, off, max, changed)
    ensures forall j :: i <= j < |tcp| ==> cur[j] == tcp[j]
  {
  }

  lemma StepOver(tcp: Bytes, cur: Bytes, done: seq<nat>, i: nat, off: nat, max: int, changed: bool)
    requires i < off <= |tcp| && Progress(tcp, cur, done, i, off, max, changed) && !IsMssOption(tcp, i, off)
    ensures Progress(tcp, cur, done, NextOption(tcp, i, off), off, max, changed)
  {
  }

  lemma ExtendsValues(done: seq<nat>, i: nat)
    ensures forall o :: o in done + [i] <==> o in done || o == i
    ensures forall j: nat :: InValue(done + [i], j) <==> InValue(done, j) || i + 2 <= j < i + 4
  {
    assert i in done + [i];
  }

  lemma StepWithin(tcp: Bytes, cur: Bytes, done: seq<nat>, i: nat, off: nat, max: int, changed: bool)
    requires i < off <= |tcp| && Progress(tcp, cur, done, i, off, max, changed) && IsMssOption(tcp, i, off)
    requires Mss(tcp, i) <= max
    ensures Progress(tcp, cur, done + [i], i + 4, off, max, changed)
  {
    Untouched(tcp, cur, done, i, off, max, changed);
    ExtendsValues(done, i);
    assert done + [i] + MssOptions(tcp, i + 4, off) == done + MssOptions(tcp, i, off);
  }

  /** `cur` with the value of the option at `i` replaced. */
  function Stored(cur: Bytes, i: nat, mss: nat): Bytes
    requires i + 4 <= |cur| && mss < 0x1_0000
  {
    StoreWord(cur, i + 2, mss)
  }

  /** Storing a value leaves earlier options alone. */
  lemma StoredElsewhere(cur: Bytes, done: seq<nat>, i: nat, mss: nat)
    requires i + 4 <= |cur| && mss < 0x1_0000 && forall o :: o in done ==> o + 4 <= i
    ensures forall o :: o in done ==> Mss(Stored(cur, i, mss), o) == Mss(cur, o)
    ensures Mss(Stored(cur, i, mss), i) == mss
  {
  }

  lemma StoredBytes(cur: Bytes, i: nat, mss: nat)
    requires i + 4 <= |cur| && mss < 0x1_0000
    ensures |Stored(cur, i, mss)| == |cur|
    ensures forall j :: 0 <= j < |cur| && !(i + 2 <= j < i + 4) ==> Stored(cur, i, mss)[j] == cur[j]
  {
  }

  lemma NextMss(tcp: Bytes, done: seq<nat>, i: nat, off: nat)
    requires off <= |tcp| && IsMssOption(tcp, i, off)
    ensures NextOption(tcp, i, off) == i + 4
    ensures done + MssOptions(tcp, i, off) == done + [i] + MssOptions(tcp, i + 4, off)
  {
    assert done + [i] + MssOptions(tcp, i + 4, off) == done + ([i] + MssOptions(tcp, i + 4, off));
  }

  lemma StepOverLimit(tcp: Bytes, cur: Bytes, done: seq<nat>, i: nat, off: nat, max: int, changed: bool)
    requires i < off <= |tcp| && Progress(tcp, cur, done, i, off, max, changed) && IsMssOption(tcp, i, off)
    requires 0 < max < Mss(tcp, i)
    ensures Progress(tcp, Stored(cur, i, max), done + [i], i + 4, off, max, true)
  {
    Untouched(tcp, cur, done, i, off, max, changed);
    ExtendsValues(done, i);
    NextMss(tcp, done, i, off);
    StoredElsewhere(cur, done, i, max);
    StoredBytes(cur, i, max);
    var cur' := Stored(cur, i, max);
    assert forall o :: o in done + [i] ==> Mss(cur', o) == Min(Mss(tcp, o), max);
    assert forall j :: 0 <= j < |tcp| && !InValue(done + [i], j) ==> cur'[j] == tcp[j];
    assert i in done + [i] && Mss(tcp, i) > max;
  }

  /** The walk meets an MSS option over the limit. */
  predicate Over(tcp: Bytes, i: nat, off: nat, max: int)
    requires off <= |tcp|
  {
    IsMssOption(tcp, i, off) && Mss(tcp, i) > max
  }

  function AfterRound(cur: Bytes, i: nat, off: nat, max: int): Bytes
    requires i < off <= |cur| && max > 0
  {
    if Over(cur, i, off, max) then Stored(cur, i, max) else cur
  }

  lemma SameAhead(tcp: Bytes, cur: Bytes, i: nat, off: nat)
    requires i < off <= |tcp| == |cur| && forall j :: i <= j < |tcp| ==> cur[j] == tcp[j]
    ensures NextOption(cur, i, off) == NextOption(tcp, i, off)
    ensures IsMssOption(cur, i, off) <==> IsMssOption(tcp, i, off)
    ensures IsMssOption(cur, i, off) ==> Mss(cur, i) == Mss(tcp, i)
  {
  }

  /** Some list of options dealt with shows the walk's progress. */
  ghost predicate Walked(tcp: Bytes, cur: Bytes, i: nat, off: nat, max: int, changed: bool)
    requires off <= |tcp|
  {
    exists done :: Progress(tcp, cur, done, i, off, max, changed)
  }

  function DoneAfter(tcp: Bytes, done: seq<nat>, i: nat, off: nat): seq<nat>
    requires off <= |tcp|
  {
    if IsMssOption(tcp, i, off) then done + [i] else done
  }

  lemma ProgressOn(tcp: Bytes, cur: Bytes, done: seq<nat>, i: nat, off: nat, max: int, changed: bool)
    requires i < off <= |tcp| && max > 0 && Progress(tcp, cur, done, i, off, max, changed)
    ensures Progress(tcp, if Over(tcp, i, off, max) then Stored(cur, i, max) else cur, DoneAfter(tcp, done, i, off),
                     NextOption(tcp, i, off), off, max, changed || Over(tcp, i, off, max))
  {
    if Over(tcp, i, off, max) {
      NextMss(tcp, done, i, off);
      StepOverLimit(tcp, cur, done, i, off, max, changed);
    } else if IsMssOption(tcp, i, off) {
      NextMss(tcp, done, i, off);
      StepWithin(tcp, cur, done, i, off, max, changed);
    } else {
      StepOver(tcp, cur, done, i, off, max, changed);
    }
  }

  /** The walk's progress after one round, which sees the original bytes. */
  lemma WalkedOn(tcp: Bytes, cur: Bytes, i: nat, off: nat, max: int, changed: bool)
    requires i < off <= |tcp| == |cur| && max > 0 && Walked(tcp, cur, i, off, max, changed)
    ensures Walked(tcp, AfterRound(cur, i, off, max), NextOption(cur, i, off), off, max,
                   changed || Over(cur, i, off, max))
  {
    var done :| Progress(tcp, cur, done, i, off, max, changed);
    Untouched(tcp, cur, done, i, off, max, changed);
    SameAhead(tcp, cur, i, off);
    ProgressOn(tcp, cur, done, i, off, max, changed);
    var next, after := NextOption(cur, i, off), AfterRound(cur, i, off, max);
    assert Progress(tcp, after, DoneAfter(tcp, done, i, off), next, off, max, changed || Over(cur, i, off, max));
  }

  lemma WalkStarts(tcp: Bytes, off: nat, max: int)
    requires off <= |tcp|
    ensures Walked(tcp, tcp, 20, off, max, false)
  {
    assert Progress(tcp, tcp, [], 20, off, max, false);
  }

  lemma WalkedToEnd(tcp: Bytes, cur: Bytes, off: nat, max: int, changed: bool)
    requires off <= |tcp| && Walked(tcp, cur, off, off, max, changed)
    ensures OptionsClamped(tcp, cur, off, max)
    ensures changed <==> exists o :: o in MssOptions(tcp, 20, off) && Mss(tcp, o) > max
    ensures !changed ==> cur == tcp
  {
    var done :| Progress(tcp, cur, done, off, off, max, changed);
    assert done + [] == done;
  }

  /** One round of the walk. */
  method ClampAt(packet: array<Byte>, h: nat, t: nat, off: nat, max: int, i: nat) returns (next: nat, wrote: bool)
    requires h <= t <= packet.Length && i < off <= t - h && max > 0
    modifies packet
    ensures packet[..h] == old(packet[..h]) && packet[t..] == old(packet[t..])
    ensures next == NextOption(old(packet[h..t]), i, off)
    ensures wrote <==> Over(old(packet[h..t]), i, off, max)
    ensures packet[h..t] == AfterRound(old(packet[h..t]), i, off, max)
  {
    ghost var cur := packet[h..t];
    wrote := false;
    var kind := packet[h + i];
    assert kind == cur[i];
    if kind == 0 {
      return off, false;
    }
    if kind == 1 {
      return i + 1, false;
    }
    if i + 1 >= off {
      return off, false;
    }
    var l := packet[h + i + 1];
    assert l == cur[i + 1];
    if l < 2 || i + l > off {
      return off, false;
    }
    if kind == 2 && l == 4 {
      assert packet[h + i + 2] == cur[i + 2] && packet[h + i + 3] == cur[i + 3];
      if Word(packet[h + i + 2], packet[h + i + 3]) > max {
        packet[h + i + 2] := max / 256;
        packet[h + i + 3] := max % 256;
        assert packet[h..t] == Stored(cur, i, max);
        wrote := true;
      }
    }
    next := i + l;
  }

  method ClampOptions(packet: array<Byte>, h: nat, t: nat, off: nat, max: int) returns (changed: bool)
    requires h + 20 <= t <= packet.Length && 20 <= off <= t - h && max > 0
    modifies packet
    ensures packet[..h] == old(packet[..h]) && packet[t..] == old(packet[t..])
    ensures OptionsClamped(old(packet[h..t]), packet[h..t], off, max)
    ensures changed <==> exists o :: o in MssOptions(old(packet[h..t]), 20, off) && Mss(old(packet[h..t]), o) > max
    ensures !changed ==> packet[h..t] == old(packet[h..t])
  {
    ghost var tcp := packet[h..t];
    changed := false;
    var i := 20;
    WalkStarts(tcp, off, max);
    while i < off
      invariant 20 <= i <= off
      invariant packet[..h] == old(packet[..h]) && packet[t..] == old(packet[t..])
      invariant Walked(tcp, packet[h..t], i, off, max, changed)
      decreases off - i
    {
      ghost var cur := packet[h..t];
      var next, wrote := ClampAt(packet, h, t, off, max, i);
      WalkedOn(tcp, cur, i, off, max, changed);
      changed := changed || wrote;
      i := next;
    }
    WalkedToEnd(tcp, packet[h..t], off, max, changed);
  }

  // ---------------------------------------------------------------------------------------------
  // Checksums

  /** What the TCP checksum covers: the pseudo-header of section 3.1 of RFC 9293, then the segment. */
  function Covered(p: Bytes, h: nat, t: nat): Bytes
    requires 20 <= h <= t <= |p| && t - h < 0x1_0000
  {
    p[12..20] + [0, 6, (t - h) / 256, (t - h) % 256] + p[h..t]
  }

  lemma {:induction false} PaddingIsNeutral(data: Bytes)
    requires |data| % 2 == 1
    ensures WordSum(data + [0]) == WordSum(data)
  {
    if |data| > 1 {
      PaddingIsNeutral(data[2..]);
      assert (data + [0])[2..] == data[2..] + [0];
    }
  }

  method RecomputeHeaderChecksum(packet: array<Byte>, h: nat)
    requires 20 <= h <= 60 && h <= packet.Length
    modifies packet
    ensures forall k :: 0 <= k < packet.Length && k != 10 && k != 11 ==> packet[k] == old(packet[k])
    ensures InternetChecksum(packet[..h]) == 0
  {
    packet[10], packet[11] := 0, 0;
    ghost var cleared := packet[..h];
    var c := ComputeChecksum(packet[..h]);
    StoredChecksumVerifies(cleared, 10);
    packet[10], packet[11] := c / 256, c % 256;
    assert packet[..h] == StoreWord(cleared, 10, c);
  }

  /** The bytes summed for the TCP checksum, padded to an even length. */
  method PseudoPacket(packet: array<Byte>, h: nat, t: nat) returns (pseudo: Bytes)
    requires 20 <= h <= t <= packet.Length && t < 0x1_0000
    ensures WordSum(pseudo) == WordSum(Covered(packet[..], h, t)) && |pseudo| <= 13 + t - h
  {
    pseudo := packet[12..16];
    pseudo := pseudo + packet[16..20];
    pseudo := pseudo + [0, 6];
    pseudo := pseudo + [(t - h) / 256, (t - h) % 256];
    pseudo := pseudo + packet[h..t];
    assert pseudo == Covered(packet[..], h, t);
    if |pseudo| % 2 == 1 {
      PaddingIsNeutral(pseudo);
      pseudo := pseudo + [0];
    }
  }

  /** The checksum field is at byte 28 of what the checksum covers. */
  lemma CoveredStored(p: Bytes, h: nat, t: nat, c: nat)
    requires 20 <= h && h + 20 <= t <= |p| && t < 0x1_0000 && c < 0x1_0000
    ensures Covered(StoreWord(p, h + 16, c), h, t) == StoreWord(Covered(p, h, t), 28, c)
  {
    var p' := StoreWord(p, h + 16, c);
    assert p'[12..20] == p[12..20] && p'[h..t] == StoreWord(p[h..t], 16, c);
  }

  method RecomputeTcpChecksum(packet: array<Byte>, h: nat, t: nat)
    requires 20 <= h && h + 20 <= t <= packet.Length && t < 0x1_0000
    modifies packet
    ensures forall k :: 0 <= k < packet.Length && k != h + 16 && k != h + 17 ==> packet[k] == old(packet[k])
    ensures InternetChecksum(Covered(packet[..], h, t)) == 0
  {
    packet[h + 16], packet[h + 17] := 0, 0;
    ghost var cleared := Covered(packet[..], h, t);
    var pseudo := PseudoPacket(packet, h, t);
    var c := ComputeChecksum(pseudo);
    StoredChecksumVerifies(cleared, 28);
    CoveredStored(packet[..], h, t, c);
    ghost var stored := StoreWord(packet[..], h + 16, c);
    packet[h + 16], packet[h + 17] := c / 256, c % 256;
    assert packet[..] == stored;
  }

  // ---------------------------------------------------------------------------------------------
  // Clamping a packet

  predicate Clampable(p: Bytes, max: int) {
    var r := ParseIPv4(p);
    r.Parsed? && r.header.protocol == TCP && r.header.tcpSyn && max > 0
  }

  function Segment(p: Bytes): Bytes
    requires ParseIPv4(p).Parsed?
  {
    p[ParseIPv4(p).header.headerLen..ParseIPv4(p).header.totalLen]
  }

  function OptionsOf(p: Bytes): seq<nat>
    requires ParseIPv4(p).Parsed? && ParseIPv4(p).header.protocol == TCP && ParseIPv4(p).header.tcpSyn
  {
    MssOptions(Segment(p), 20, DataOffset(Segment(p)))
  }

  ghost predicate OverLimit(p: Bytes, max: int)
    requires Clampable(p, max)
  {
    exists o :: o in OptionsOf(p) && Mss(Segment(p), o) > max
  }

  /** Bytes a clamp may write: the two checksums and the values of the reached MSS options. */
  predicate Writable(p: Bytes, k: nat)
    requires ParseIPv4(p).Parsed? && ParseIPv4(p).header.protocol == TCP && ParseIPv4(p).header.tcpSyn
  {
    var h, t := ParseIPv4(p).header.headerLen, ParseIPv4(p).header.totalLen;
    k == 10 || k == 11 || k == h + 16 || k == h + 17 || (h <= k < t && InValue(OptionsOf(p), k - h))
  }

  /** `p'` is the packet after clamping `p`: only writable bytes differ, every reached option is within the limit, and
      both checksums verify. */
  ghost predicate Clamped(p: Bytes, max: int, p': Bytes)
    requires Clampable(p, max)
  {
    var h, t := ParseIPv4(p).header.headerLen, ParseIPv4(p).header.totalLen;
    && |p'| == |p|
    && (forall k :: 0 <= k < |p| && !Writable(p, k) ==> p'[k] == p[k])
    && (forall o :: o in OptionsOf(p) ==> Mss(p'[h..t], o) == Min(Mss(Segment(p), o), max))
    && InternetChecksum(p'[..h]) == 0
    && InternetChecksum(Covered(p', h, t)) == 0
  }

  /** `p'` comes from `q` by rewriting the two checksum fields. */
  ghost predicate ChecksumsRewritten(q: Bytes, p': Bytes, h: nat, t: nat)
    requires 20 <= h && h + 20 <= t <= |q| && t < 0x1_0000
  {
    && |p'| == |q|
    && (forall k :: 0 <= k < |q| && k != 10 && k != 11 && k != h + 16 && k != h + 17 ==> p'[k] == q[k])
    && InternetChecksum(p'[..h]) == 0
    && InternetChecksum(Covered(p', h, t)) == 0
  }

  method RecomputeChecksums(packet: array<Byte>, h: nat, t: nat)
    requires 20 <= h <= 60 && h + 20 <= t <= packet.Length && t < 0x1_0000
    modifies packet
    ensures ChecksumsRewritten(old(packet[..]), packet[..], h, t)
  {
    RecomputeHeaderChecksum(packet, h);
    ghost var head := packet[..h];
    RecomputeTcpChecksum(packet, h, t);
    assert packet[..][..h] == packet[..h] == head;
  }

  lemma ClampedFrom(p: Bytes, max: int, q: Bytes, p': Bytes)
    requires Clampable(p, max) && |q| == |p|
    requires
      var h, t := ParseIPv4(p).header.headerLen, ParseIPv4(p).header.totalLen;
      && q[..h] == p[..h] && q[t..] == p[t..]
      && OptionsClamped(Segment(p), q[h..t], DataOffset(Segment(p)), max)
      && ChecksumsRewritten(q, p', h, t)
    ensures Clamped(p, max, p')
  {
    var h, t := ParseIPv4(p).header.headerLen, ParseIPv4(p).header.totalLen;
    var options := OptionsOf(p);
    forall k | 0 <= k < |p| && !Writable(p, k) ensures p'[k] == p[k] {
      if k < h {
        assert q[..h][k] == p[..h][k];
      } else if k < t {
        assert q[h..t][k - h] == Segment(p)[k - h];
      } else {
        assert q[t..][k - t] == p[t..][k - t];
      }
    }
    forall o | o in options ensures Mss(p'[h..t], o) == Min(Mss(Segment(p), o), max) {
      assert Mss(p'[h..t], o) == Mss(q[h..t], o);
    }
  }

  lemma ThreeParts(p: Bytes, q: Bytes, h: nat, t: nat)
    requires h <= t <= |p| == |q| && q[..h] == p[..h] && q[h..t] == p[h..t] && q[t..] == p[t..]
    ensures q == p
  {
    assert p == p[..h] + p[h..t] + p[t..] && q == q[..h] + q[h..t] + q[t..];
  }

  /** The part of the source after its first guard. */
  method ClampSyn(packet: array<Byte>, max: int, header: Header) returns (changed: bool)
    requires ParseIPv4(packet[..]) == Parsed(header) && Clampable(packet[..], max)
    modifies packet
    ensures changed <==> OverLimit(old(packet[..]), max)
    ensures !changed ==> packet[..] == old(packet[..])
    ensures changed ==> Clamped(old(packet[..]), max, packet[..])
  {
    var h, t := header.headerLen, header.totalLen;
    ghost var p := packet[..];
    assert packet[h..t] == Segment(p);
    var off := (packet[h + 12] / 16) * 4;
    if off < 20 || off > t - h {
      assert false;
      return false;
    }
    changed := ClampOptions(packet, h, t, off, max);
    ghost var q := packet[..];
    assert q[..h] == packet[..h] && q[h..t] == packet[h..t] && q[t..] == packet[t..];
    if changed {
      RecomputeChecksums(packet, h, t);
      ClampedFrom(p, max, q, packet[..]);
    } else {
      ThreeParts(p, q, h, t);
    }
  }

  method ClampTCPMSS(packet: array<Byte>, max: int) returns (changed: bool)
    modifies packet
    ensures changed <==> Clampable(old(packet[..]), max) && OverLimit(old(packet[..]), max)
    ensures !changed ==> packet[..] == old(packet[..])
    ensures changed ==> Clamped(old(packet[..]), max, packet[..])
  {
    var parsed := ParseIPv4(packet[..]);
    if parsed.Invalid? || parsed.header.protocol != TCP || !parsed.header.tcpSyn || max <= 0 {
      return false;
    }
    changed := ClampSyn(packet, max, parsed.header);
  }

  // ---------------------------------------------------------------------------------------------
  // What clamping keeps

  /** The parse result is unchanged: clamping writes no byte that `ParseIPv4` reads. */
  lemma ClampKeepsParse(p: Bytes, max: int, p': Bytes)
    requires Clampable(p, max) && Clamped(p, max, p')
    ensures ParseIPv4(p') == ParseIPv4(p)
  {
    var h, t := ParseIPv4(p).header.headerLen, ParseIPv4(p).header.totalLen;
    assert forall k :: 0 <= k < 20 && k != 10 && k != 11 ==> !Writable(p, k) && p'[k] == p[k];
    assert p'[12..16] == p[12..16] && p'[16..20] == p[16..20];
    forall j | 0 <= j < 16 ensures p'[h..t][j] == p[h..t][j] {
      assert !Writable(p, h + j);
    }
  }

  /** The walk reaches the same options. */
  lemma ClampKeepsWalk(p: Bytes, max: int, p': Bytes)
    requires Clampable(p, max) && Clamped(p, max, p')
    ensures ParseIPv4(p') == ParseIPv4(p) && OptionsOf(p') == OptionsOf(p)
  {
    ClampKeepsParse(p, max, p');
    var h := ParseIPv4(p).header.headerLen;
    var tcp, tcp' := Segment(p), Segment(p');
    var off := DataOffset(tcp);
    assert tcp'[12] == tcp[12] by { assert !Writable(p, h + 12); }
    forall j | 20 <= j < |tcp| && tcp[j] != tcp'[j] ensures InValue(MssOptions(tcp, 20, off), j) {
      assert Writable(p, h + j);
    }
    WalkIgnoresValues(tcp, tcp', 20, off);
  }

  /** A clamped packet is within the limit, so a second clamp changes nothing. */
  lemma ClampIsIdempotent(p: Bytes, max: int, p': Bytes)
    requires Clampable(p, max) && Clamped(p, max, p')
    ensures Clampable(p', max) && !OverLimit(p', max)
  {
    ClampKeepsWalk(p, max, p');
  }

  /** The source's promise on two calls in a row: `once` is what the first call left, and the second leaves it alone. */
  method ClampTwice(packet: array<Byte>, max: int) returns (again: bool, ghost once: Bytes)
    modifies packet
    ensures !again && packet[..] == once && ParseIPv4(once) == ParseIPv4(old(packet[..]))
    ensures
      var p := old(packet[..]);
      if Clampable(p, max) && OverLimit(p, max) then Clamped(p, max, once) else once == p
  {
    ghost var p := packet[..];
    var changed := ClampTCPMSS(packet, max);
    once := packet[..];
    if changed {
      ClampKeepsParse(p, max, once);
      ClampIsIdempotent(p, max, once);
    }
    again := ClampTCPMSS(packet, max);
  }
}
