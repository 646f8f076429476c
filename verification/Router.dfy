/** The client's outbound router, `Router.RouteOutbound` of `internal/packet/router.go`: size, parse, protocol, route,
    peer and access checks in that order, then MSS clamping of a copy of the packet. */
module Router {
  import opened Basics
  import opened Checksum
  import opened TcpMss
  import Acl

  const DEFAULT_MTU: int := 1280
  const DEFAULT_MSS: int := 1200

  function MSSForMTU(mtu: int): (mss: int)
    ensures 536 <= mss <= DEFAULT_MSS
    ensures 576 <= mtu <= 1240 ==> mss + 40 == mtu
    ensures 0 < mtu < 576 ==> mss == 536
    ensures mtu <= 0 || mtu > 1240 ==> mss == DEFAULT_MSS
  {
    var m := if mtu <= 0 then DEFAULT_MTU else mtu;
    if m - 40 > DEFAULT_MSS then DEFAULT_MSS else if m - 40 < 536 then 536 else m - 40
  }

  datatype Drop = MtuDrop | InvalidPacket | UnsupportedProtocol | RouteMiss | PeerUnavailable | AclDeny

  datatype Verdict = Pass(dst: string, header: Header) | Fail(why: Drop)

  datatype RouteResult = Dropped(why: Drop) | Routed(dst: string, payload: Bytes, header: Header)

  datatype Stats = Stats(txPackets: nat, txBytes: nat, drops: map<Drop, nat>) {
    function DropsOf(d: Drop): nat {
      if d in drops then drops[d] else 0
    }
  }

  /** The order in which reasons to drop a packet are looked at. */
  function Rank(why: Drop): nat {
    match why
    case MtuDrop => 0
    case InvalidPacket => 1
    case UnsupportedProtocol => 2
    case RouteMiss => 3
    case PeerUnavailable => 4
    case AclDeny => 5
  }

  /** If the packet is a TCP SYN, every MSS option that the walk reaches is at most `max`. */
  ghost predicate WithinLimit(p: Bytes, max: int) {
    ParseIPv4(p).Parsed? && ParseIPv4(p).header.protocol == TCP && ParseIPv4(p).header.tcpSyn ==>
      forall o :: o in OptionsOf(p) ==> Mss(Segment(p), o) <= max
  }

  /** `q` is what leaves for `p`: `p` itself, unless it is a TCP SYN with an MSS option over the limit. */
  ghost predicate SentFor(p: Bytes, max: int, q: Bytes) {
    if Clampable(p, max) && OverLimit(p, max) then Clamped(p, max, q) else q == p
  }

  /** Bytes past the total length play no part in parsing. */
  lemma ParseOfTrimmed(p: Bytes)
    requires ParseIPv4(p).Parsed?
    ensures ParseIPv4(p[..ParseIPv4(p).header.totalLen]) == ParseIPv4(p)
  {
    var h := ParseIPv4(p).header;
    var q := p[..h.totalLen];
    assert q[h.headerLen..h.totalLen] == p[h.headerLen..h.totalLen];
    assert q[12..16] == p[12..16] && q[16..20] == p[16..20];
  }

  method ClampCopy(p: Bytes, max: int) returns (q: Bytes)
    requires ParseIPv4(p).Parsed? && ParseIPv4(p).header.protocol == TCP && max > 0
    ensures |q| == |p| && ParseIPv4(q) == ParseIPv4(p)
    ensures WithinLimit(q, max) && SentFor(p, max, q)
  {
    var buffer := new Byte[|p|](i requires 0 <= i < |p| => p[i]);
    assert buffer[..] == p;
    var changed := ClampTCPMSS(buffer, max);
    q := buffer[..];
    if changed {
      ClampKeepsWalk(p, max, q);
      ClampIsIdempotent(p, max, q);
    }
  }

  /** The payload that leaves for a packet that passed the checks, and its header. */
  method Prepare(packet: Bytes, parsed: Header, max: int) returns (payload: Bytes, header: Header)
    requires ParseIPv4(packet) == Parsed(parsed) && max > 0
    ensures ParseIPv4(payload) == Parsed(parsed) && header == parsed && |payload| == parsed.totalLen <= |packet|
    ensures SentFor(packet[..parsed.totalLen], max, payload) && WithinLimit(payload, max)
  {
    ParseOfTrimmed(packet);
    header := parsed;
    payload := packet[..header.totalLen];
    if header.protocol == TCP {
      payload := ClampCopy(payload, max);
      header := ParseIPv4(payload).header;
    }
  }

  class OutboundRouter {
    const networkID: int
    const networkName: string
    const sourceDevice: string
    const mtu: int
    var routes: map<Bytes, string>
    var acl: seq<Acl.Rule>
    var available: map<string, bool>
    var stats: Stats

    constructor (networkID: int, networkName: string, sourceDevice: string, mtu: int,
                 routes: map<Bytes, string>, acl: seq<Acl.Rule>, available: map<string, bool>)
      ensures this.networkID == networkID && this.networkName == networkName && this.sourceDevice == sourceDevice
      ensures this.mtu == if mtu <= 0 then DEFAULT_MTU else mtu
      ensures this.routes == routes && this.acl == acl && this.available == available && stats == Stats(0, 0, map[])
    {
      this.networkID, this.networkName, this.sourceDevice := networkID, networkName, sourceDevice;
      this.mtu := if mtu <= 0 then DEFAULT_MTU else mtu;
      this.routes, this.acl, this.available := routes, acl, available;
      stats := Stats(0, 0, map[]);
    }

    method RecordDrop(d: Drop) returns (r: RouteResult)
      modifies this`stats
      ensures r == Dropped(d) && stats == old(stats).(drops := old(stats).drops[d := old(stats).DropsOf(d) + 1])
    {
      stats := stats.(drops := stats.drops[d := stats.DropsOf(d) + 1]);
      return Dropped(d);
    }

    /** The device that the packet's destination address, its bytes 16 to 19, is routed to, "" for none. */
    ghost function Destination(packet: Bytes): string
      requires |packet| >= 20
      reads this`routes
    {
      if packet[16..20] in routes then routes[packet[16..20]] else ""
    }

    ghost predicate IsDown(dst: string)
      reads this`available
    {
      dst in available && !available[dst]
    }

    ghost predicate IsDenied(dst: string, protocol: Byte, destPort: nat)
      reads this`acl
    {
      Acl.Denied(acl, networkID, networkName, sourceDevice, dst, Acl.Traffic(protocol, destPort))
    }

    /** The reason applies to the packet, whatever other reasons do. */
    ghost predicate Applies(why: Drop, packet: Bytes)
      reads this`routes, this`available, this`acl
    {
      var parsed := ParseIPv4(packet);
      match why
      case MtuDrop => |packet| > mtu
      case InvalidPacket => parsed.Invalid?
      case UnsupportedProtocol => parsed.Parsed? && packet[9] !in {1, 6, 17}
      case RouteMiss => parsed.Parsed? && Destination(packet) == ""
      case PeerUnavailable => parsed.Parsed? && IsDown(Destination(packet))
      case AclDeny => parsed.Parsed? && IsDenied(Destination(packet), packet[9], parsed.header.destPort)
    }

    /** A packet fails for the first reason that applies, and passes when none does. */
    ghost predicate IsVerdict(packet: Bytes, v: Verdict)
      reads this`routes, this`available, this`acl
    {
      match v
      case Fail(why) => Applies(why, packet) && forall w :: Rank(w) < Rank(why) ==> !Applies(w, packet)
      case Pass(dst, header) =>
        && (forall w :: !Applies(w, packet))
        && ParseIPv4(packet) == Parsed(header) && dst == Destination(packet)
    }

    /** There is one verdict on a packet. */
    lemma VerdictIsUnique(packet: Bytes, v: Verdict, w: Verdict)
      requires IsVerdict(packet, v) && IsVerdict(packet, w)
      ensures v == w
    {
      if v.Fail? && w.Fail? {
        assert Rank(v.why) == Rank(w.why);
      }
    }

    /** The checks, in the source's order. */
    method Inspect(packet: Bytes) returns (v: Verdict)
      ensures IsVerdict(packet, v)
    {
      if |packet| > mtu {
        return Fail(MtuDrop);
      }
      var parsed := ParseIPv4(packet);
      if parsed.Invalid? {
        return Fail(InvalidPacket);
      }
      var header := parsed.header;
      if header.protocol != TCP && header.protocol != UDP && header.protocol != ICMP {
        return Fail(UnsupportedProtocol);
      }
      var dst := if header.destIP in routes then routes[header.destIP] else "";
      if dst == "" {
        return Fail(RouteMiss);
      }
      if dst in available && !available[dst] {
        return Fail(PeerUnavailable);
      }
      var traffic := Acl.Traffic(header.protocol, header.destPort);
      var allowed := Acl.AllowACL(acl, networkID, networkName, sourceDevice, dst, traffic);
      if !allowed {
        return Fail(AclDeny);
      }
      return Pass(dst, header);
    }

    /** A packet is dropped for the first reason that applies, and exactly one counter moves. A routed payload parses to
        the header of the packet it came from, and if it is a TCP SYN every MSS option in it is within the limit. */
    method RouteOutbound(packet: Bytes) returns (r: RouteResult)
      modifies this`stats
      ensures r.Dropped? ==>
        && IsVerdict(packet, Fail(r.why))
        && stats == old(stats).(drops := old(stats).drops[r.why := old(stats).DropsOf(r.why) + 1])
      ensures r.Routed? ==>
        && IsVerdict(packet, Pass(r.dst, r.header)) && ParseIPv4(r.payload) == Parsed(r.header)
        && |packet| >= 20 && packet[16..20] in routes && r.dst == routes[packet[16..20]] != ""
        && |r.payload| == r.header.totalLen <= |packet|
        && SentFor(packet[..r.header.totalLen], MSSForMTU(mtu), r.payload) && WithinLimit(r.payload, MSSForMTU(mtu))
        && stats == old(stats).(txPackets := old(stats.txPackets) + 1, txBytes := old(stats.txBytes) + |r.payload|)
    {
      var v := Inspect(packet);
      if v.Fail? {
        r := RecordDrop(v.why);
        return;
      }
      assert ParseIPv4(packet) == Parsed(v.header);
      assert !Applies(RouteMiss, packet);
      var payload, header := Prepare(packet, v.header, MSSForMTU(mtu));
      stats := stats.(txPackets := stats.txPackets + 1, txBytes := stats.txBytes + |payload|);
      return Routed(v.dst, payload, header);
    }
  }
}
