/** Packets as they are laid out on the wire: IPv4 datagrams (section 3.1 of RFC 791), TCP segments and their options
    (sections 3.1 and 3.2 of RFC 9293) and UDP segments (RFC 768). Parsing is the inverse of this layout. */
module Ipv4Layout {
  import opened Basics
  import opened Checksum
  import opened TcpMss

  function Two(n: nat): (b: Bytes)
    requires n < 0x1_0000
    ensures |b| == 2
  {
    [n / 256, n % 256]
  }

  /** `totalLen` and `headerLen` follow from the parts; `fragment` holds the flags and the fragment offset. */
  datatype Datagram = Datagram(
    service: Byte, id: nat, fragment: nat, ttl: Byte, protocol: Byte, checksum: nat,
    source: Bytes, dest: Bytes, options: Bytes, segment: Bytes)
  {
    function HeaderLen(): nat { 20 + |options| }
    function TotalLen(): nat { HeaderLen() + |segment| }

    predicate Fits() {
      && id < 0x1_0000 && fragment < 0x1_0000 && checksum < 0x1_0000
      && |source| == 4 && |dest| == 4 && |options| <= 40 && |options| % 4 == 0 && TotalLen() < 0x1_0000
    }
  }

  /** Version 4 and the header length in words of four bytes. */
  function FirstByte(d: Datagram): Byte
    requires d.Fits()
  {
    16 * 4 + d.HeaderLen() / 4
  }

  function FixedPart(d: Datagram): (b: Bytes)
    requires d.Fits()
    ensures |b| == 12
  {
    [FirstByte(d), d.service] + Two(d.TotalLen()) + Two(d.id) + Two(d.fragment) + [d.ttl, d.protocol] + Two(d.checksum)
  }

  function Layout(d: Datagram): Bytes
    requires d.Fits()
  {
    FixedPart(d) + d.source + d.dest + d.options + d.segment
  }

  /** `high` holds the six flags before SYN. */
  datatype Flags = Flags(high: nat, syn: bool, fin: bool)

  function FlagsByte(f: Flags): Byte
    requires f.high < 64
  {
    4 * f.high + (if f.syn then 2 else 0) + (if f.fin then 1 else 0)
  }

  /** `numbers` are the sequence and acknowledgment numbers, `reserved` the four bits beside the data offset, `rest` the
      window, the checksum and the urgent pointer. */
  datatype TcpSegment = TcpSegment(
    sourcePort: nat, destPort: nat, numbers: Bytes, reserved: nat, flags: Flags, rest: Bytes,
    options: Bytes, data: Bytes)
  {
    predicate Fits() {
      && sourcePort < 0x1_0000 && destPort < 0x1_0000 && reserved < 16 && flags.high < 64
      && |numbers| == 8 && |rest| == 6
      && |options| <= 40 && |options| % 4 == 0
    }
  }

  function TcpLayout(s: TcpSegment): Bytes
    requires s.Fits()
  {
    Two(s.sourcePort) + Two(s.destPort) + s.numbers +
    [16 * ((20 + |s.options|) / 4) + s.reserved, FlagsByte(s.flags)] + s.rest + s.options + s.data
  }

  /** `rest` is the length and the checksum. */
  function UdpLayout(sourcePort: nat, destPort: nat, rest: Bytes, data: Bytes): Bytes
    requires sourcePort < 0x1_0000 && destPort < 0x1_0000 && |rest| == 4
  {
    Two(sourcePort) + Two(destPort) + rest + data
  }

  // ---------------------------------------------------------------------------------------------
  // Datagrams

  lemma TwoIsWord(n: nat)
    requires n < 0x1_0000
    ensures Word(Two(n)[0], Two(n)[1]) == n
  {
  }

  /** Where the fields of a header are. */
  lemma FieldsAt(a: Bytes, source: Bytes, dest: Bytes, tail: Bytes)
    requires |a| == 12 && |source| == |dest| == 4
    ensures
      var p := a + source + dest + tail;
      && |p| == 20 + |tail| && p[..12] == a && p[12..16] == source && p[16..20] == dest && p[20..] == tail
      && p[0] == a[0] && p[2] == a[2] && p[3] == a[3] && p[9] == a[9]
  {
  }

  lemma FixedFields(d: Datagram)
    requires d.Fits()
    ensures
      var a := FixedPart(d);
      && a[0] / 16 == 4 && (a[0] % 16) * 4 == d.HeaderLen()
      && Word(a[2], a[3]) == d.TotalLen() && a[9] == d.protocol
  {
    TwoIsWord(d.TotalLen());
  }

  lemma SegmentAt(options: Bytes, segment: Bytes, trailing: Bytes, p: Bytes)
    requires |p| >= 20 && p[20..] == options + segment + trailing
    ensures p[20 + |options|..20 + |options| + |segment|] == segment
  {
    var h, t := 20 + |options|, 20 + |options| + |segment|;
    assert p[h..t] == p[20..][|options|..|options| + |segment|];
  }

  /** What parsing makes of a header and a segment. */
  function HeaderOf(d: Datagram): Header {
    var ports := HasPorts(d.protocol, d.segment);
    Header(
      d.HeaderLen(), d.TotalLen(), d.protocol, d.source, d.dest,
      if ports then WordAt(d.segment, 0) else 0, if ports then WordAt(d.segment, 2) else 0,
      d.protocol == TCP && ports && (d.segment[13] / 2) % 2 == 1, |d.segment|)
  }

  /** Parsing a laid-out datagram, followed by anything, gives its fields. */
  lemma ParseOfLayout(d: Datagram, trailing: Bytes)
    requires d.Fits()
    ensures ParseIPv4(Layout(d) + trailing) == Parsed(HeaderOf(d))
  {
    var p, tail := Layout(d) + trailing, d.options + d.segment + trailing;
    assert p == FixedPart(d) + d.source + d.dest + tail;
    FieldsAt(FixedPart(d), d.source, d.dest, tail);
    FixedFields(d);
    SegmentAt(d.options, d.segment, trailing, p);
  }

  /** What the TCP checksum of a laid-out datagram covers: source, destination, a zero byte, the protocol, the length of
      the segment, and the segment. */
  lemma CoveredOfLayout(d: Datagram, trailing: Bytes, p: Bytes)
    requires d.Fits() && p == Layout(d) + trailing
    ensures |p| >= d.TotalLen()
    ensures Covered(p, d.HeaderLen(), d.TotalLen()) == d.source + d.dest + [0, 6] + Two(|d.segment|) + d.segment
  {
    var tail := d.options + d.segment + trailing;
    assert p == FixedPart(d) + d.source + d.dest + tail;
    FieldsAt(FixedPart(d), d.source, d.dest, tail);
    SegmentAt(d.options, d.segment, trailing, p);
    assert p[12..20] == p[12..16] + p[16..20];
  }

  /** The datagram that a packet holds. */
  function DatagramOf(p: Bytes): Datagram
    requires ParseIPv4(p).Parsed?
  {
    var h := ParseIPv4(p).header;
    Datagram(p[1], WordAt(p, 4), WordAt(p, 6), p[8], p[9], WordAt(p, 10), p[12..16], p[16..20],
             p[20..h.headerLen], p[h.headerLen..h.totalLen])
  }

  lemma WordIsTwo(hi: Byte, lo: Byte)
    ensures Two(Word(hi, lo)) == [hi, lo]
  {
  }

  lemma DatagramFits(p: Bytes)
    requires ParseIPv4(p).Parsed?
    ensures
      var d, h := DatagramOf(p), ParseIPv4(p).header;
      && d.Fits() && d.HeaderLen() == h.headerLen && d.TotalLen() == h.totalLen <= |p|
      && FirstByte(d) == p[0] && d.TotalLen() == WordAt(p, 2)
  {
  }

  lemma LayoutOfParsed(p: Bytes)
    requires ParseIPv4(p).Parsed?
    ensures DatagramOf(p).Fits() && p == Layout(DatagramOf(p)) + p[ParseIPv4(p).header.totalLen..]
  {
    var d, h := DatagramOf(p), ParseIPv4(p).header;
    DatagramFits(p);
    WordIsTwo(p[2], p[3]);
    WordIsTwo(p[4], p[5]);
    WordIsTwo(p[6], p[7]);
    WordIsTwo(p[10], p[11]);
    assert FixedPart(d) == p[..12];
    assert p == p[..12] + p[12..16] + p[16..20] + p[20..h.headerLen] + p[h.headerLen..h.totalLen] + p[h.totalLen..];
  }

  /** A packet parses exactly when it is a laid-out datagram followed by anything; otherwise it is invalid. */
  lemma ParsesExactly(p: Bytes)
    ensures ParseIPv4(p).Parsed? <==> exists d: Datagram, trailing :: d.Fits() && p == Layout(d) + trailing
  {
    if ParseIPv4(p).Parsed? {
      LayoutOfParsed(p);
    }
    if exists d: Datagram, trailing :: d.Fits() && p == Layout(d) + trailing {
      var d: Datagram, trailing :| d.Fits() && p == Layout(d) + trailing;
      ParseOfLayout(d, trailing);
    }
  }

  // ---------------------------------------------------------------------------------------------
  // Segments

  lemma SynBit(f: Flags)
    requires f.high < 64
    ensures (FlagsByte(f) / 2) % 2 == 1 <==> f.syn
  {
  }

  /** Where the fields of a TCP segment are. */
  lemma TcpFieldsAt(sp: Bytes, dp: Bytes, numbers: Bytes, offset: Byte, flags: Byte, tail: Bytes)
    requires |sp| == |dp| == 2 && |numbers| == 8
    ensures
      var t := sp + dp + numbers + [offset, flags] + tail;
      && |t| == 14 + |tail| && t[..2] == sp && t[0] == sp[0] && t[1] == sp[1] && t[2] == dp[0] && t[3] == dp[1]
      && t[12] == offset && t[13] == flags
  {
  }

  lemma TcpFields(s: TcpSegment)
    requires s.Fits()
    ensures
      var t := TcpLayout(s);
      && HasPorts(TCP, t) && WordAt(t, 0) == s.sourcePort && WordAt(t, 2) == s.destPort
      && ((t[13] / 2) % 2 == 1 <==> s.flags.syn)
  {
    var offset, flags := 16 * ((20 + |s.options|) / 4) + s.reserved, FlagsByte(s.flags);
    var tail := s.rest + s.options + s.data;
    TcpFieldsAt(Two(s.sourcePort), Two(s.destPort), s.numbers, offset, flags, tail);
    assert TcpLayout(s) == Two(s.sourcePort) + Two(s.destPort) + s.numbers + [offset, flags] + tail;
    TwoIsWord(s.sourcePort);
    TwoIsWord(s.destPort);
    SynBit(s.flags);
  }

  function FlagsOf(b: Byte): Flags {
    Flags(b / 4, b / 2 % 2 == 1, b % 2 == 1)
  }

  lemma FlagsRoundTrip(b: Byte)
    ensures FlagsOf(b).high < 64 && FlagsByte(FlagsOf(b)) == b
  {
  }

  /** The TCP segment that some bytes are. */
  function TcpOf(t: Bytes): TcpSegment
    requires HasPorts(TCP, t)
  {
    TcpSegment(WordAt(t, 0), WordAt(t, 2), t[4..12], t[12] % 16, FlagsOf(t[13]), t[14..20],
               t[20..DataOffset(t)], t[DataOffset(t)..])
  }

  lemma TcpLayoutOf(t: Bytes)
    requires HasPorts(TCP, t)
    ensures TcpOf(t).Fits() && TcpLayout(TcpOf(t)) == t
  {
    var off := DataOffset(t);
    WordIsTwo(t[0], t[1]);
    WordIsTwo(t[2], t[3]);
    FlagsRoundTrip(t[13]);
    assert 16 * (off / 4) + t[12] % 16 == t[12];
    assert t == [t[0], t[1]] + [t[2], t[3]] + t[4..12] + [t[12], t[13]] + t[14..20] + t[20..off] + t[off..];
  }

  /** Ports of a TCP segment are read exactly when it is laid out as one. */
  lemma TcpExactly(t: Bytes)
    ensures HasPorts(TCP, t) <==> exists s: TcpSegment :: s.Fits() && t == TcpLayout(s)
  {
    if HasPorts(TCP, t) {
      TcpLayoutOf(t);
    }
    if exists s: TcpSegment :: s.Fits() && t == TcpLayout(s) {
      var s: TcpSegment :| s.Fits() && t == TcpLayout(s);
      TcpFields(s);
    }
  }

  lemma UdpFields(sourcePort: nat, destPort: nat, rest: Bytes, data: Bytes)
    requires sourcePort < 0x1_0000 && destPort < 0x1_0000 && |rest| == 4
    ensures
      var t := UdpLayout(sourcePort, destPort, rest, data);
      HasPorts(UDP, t) && WordAt(t, 0) == sourcePort && WordAt(t, 2) == destPort
  {
    var t := UdpLayout(sourcePort, destPort, rest, data);
    TwoIsWord(sourcePort);
    TwoIsWord(destPort);
    assert t[..4] == Two(sourcePort) + Two(destPort);
    assert t[0] == t[..4][0] && t[1] == t[..4][1] && t[2] == t[..4][2] && t[3] == t[..4][3];
  }

  // ---------------------------------------------------------------------------------------------
  // Datagrams with their segments

  /** A TCP segment in a datagram: ports and SYN flag are its own. */
  lemma ParseOfTcp(d: Datagram, s: TcpSegment, trailing: Bytes)
    requires d.Fits() && d.protocol == 6 && s.Fits() && d.segment == TcpLayout(s)
    ensures ParseIPv4(Layout(d) + trailing) ==
      Parsed(Header(20 + |d.options|, 20 + |d.options| + |d.segment|, 6, d.source, d.dest,
                    s.sourcePort, s.destPort, s.flags.syn, |d.segment|))
  {
    ParseOfLayout(d, trailing);
    TcpFields(s);
  }

  lemma ParseOfUdp(d: Datagram, sourcePort: nat, destPort: nat, rest: Bytes, data: Bytes, trailing: Bytes)
    requires sourcePort < 0x1_0000 && destPort < 0x1_0000 && |rest| == 4
    requires d.Fits() && d.protocol == 17 && d.segment == UdpLayout(sourcePort, destPort, rest, data)
    ensures ParseIPv4(Layout(d) + trailing) ==
      Parsed(Header(20 + |d.options|, 20 + |d.options| + |d.segment|, 17, d.source, d.dest,
                    sourcePort, destPort, false, |d.segment|))
  {
    ParseOfLayout(d, trailing);
    UdpFields(sourcePort, destPort, rest, data);
  }

  /** Any other protocol, and a segment that is none of its protocol: no ports, no SYN flag. */
  lemma ParseOfOther(d: Datagram, trailing: Bytes)
    requires d.Fits()
    requires d.protocol == 6 ==> !exists s: TcpSegment :: s.Fits() && d.segment == TcpLayout(s)
    requires d.protocol == 17 ==> |d.segment| < 8
    ensures ParseIPv4(Layout(d) + trailing) ==
      Parsed(Header(20 + |d.options|, 20 + |d.options| + |d.segment|, d.protocol, d.source, d.dest,
                    0, 0, false, |d.segment|))
  {
    ParseOfLayout(d, trailing);
    TcpExactly(d.segment);
  }

  // ---------------------------------------------------------------------------------------------
  // TCP options

  datatype TcpOption = NoOperation | MaximumSegmentSize(mss: nat) | Other(kind: Byte, value: Bytes) {
    predicate Fits() {
      match this
      case NoOperation => true
      case MaximumSegmentSize(mss) => mss < 0x1_0000
      case Other(kind, value) => kind >= 2 && |value| <= 253 && !(kind == 2 && |value| == 2)
    }
  }

  function OptionLayout(o: TcpOption): (b: Bytes)
    requires o.Fits()
    ensures |b| > 0
  {
    match o
    case NoOperation => [1]
    case MaximumSegmentSize(mss) => [2, 4] + Two(mss)
    case Other(kind, value) => [kind, 2 + |value|] + value
  }

  predicate AllFit(options: seq<TcpOption>) {
    forall k :: 0 <= k < |options| ==> options[k].Fits()
  }

  function OptionsLayout(options: seq<TcpOption>): Bytes
    requires AllFit(options)
  {
    if options == [] then [] else OptionLayout(options[0]) + OptionsLayout(options[1..])
  }

  /** Where the MSS options are, with their values, when the list starts at position `i`. */
  function MssPlaces(options: seq<TcpOption>, i: nat): seq<(nat, nat)>
    requires AllFit(options)
  {
    if options == [] then []
    else
      var rest := MssPlaces(options[1..], i + |OptionLayout(options[0])|);
      if options[0].MaximumSegmentSize? then [(i, options[0].mss)] + rest else rest
  }

  /** The walk's places with the values there. */
  function WithValues(tcp: Bytes, places: seq<nat>): seq<(nat, nat)>
    requires forall k :: 0 <= k < |places| ==> places[k] + 4 <= |tcp|
  {
    seq(|places|, k requires 0 <= k < |places| => (places[k], Mss(tcp, places[k])))
  }

  /** The walk over an option at position `i` goes to the next one, and sees an MSS option exactly for what it is. */
  lemma WalkOption(tcp: Bytes, i: nat, off: nat, o: TcpOption, tail: Bytes)
    requires o.Fits() && i < off <= |tcp| && tcp[i..off] == OptionLayout(o) + tail
    ensures NextOption(tcp, i, off) == i + |OptionLayout(o)| && tcp[i + |OptionLayout(o)|..off] == tail
    ensures IsMssOption(tcp, i, off) <==> o.MaximumSegmentSize?
    ensures o.MaximumSegmentSize? ==> Mss(tcp, i) == o.mss
  {
    var part, n := OptionLayout(o), |OptionLayout(o)|;
    assert forall k :: 0 <= k < n ==> tcp[i + k] == tcp[i..off][k] == part[k];
    assert tcp[i + n..off] == tcp[i..off][n..];
    assert tcp[i] == part[0];
    if o != NoOperation {
      assert tcp[i + 1] == part[1];
    }
    if o.MaximumSegmentSize? {
      assert tcp[i + 2] == part[2] && tcp[i + 3] == part[3];
      TwoIsWord(o.mss);
    }
  }

  lemma WalkStep(tcp: Bytes, i: nat, off: nat, next: nat)
    requires i < off <= |tcp| && next == NextOption(tcp, i, off)
    ensures MssOptions(tcp, i, off) == (if IsMssOption(tcp, i, off) then [i] else []) + MssOptions(tcp, next, off)
  {
  }

  lemma ValuesJoined(tcp: Bytes, o: nat, rest: seq<nat>)
    requires o + 4 <= |tcp| && forall k :: 0 <= k < |rest| ==> rest[k] + 4 <= |tcp|
    ensures WithValues(tcp, [o] + rest) == [(o, Mss(tcp, o))] + WithValues(tcp, rest)
  {
  }

  lemma LayoutStep(options: seq<TcpOption>, padding: Bytes)
    requires AllFit(options) && options != []
    ensures AllFit(options[1..])
    ensures OptionsLayout(options) + padding == OptionLayout(options[0]) + (OptionsLayout(options[1..]) + padding)
  {
  }

  /** The walk goes no further: nothing is left, an end-of-list byte, or an option whose length is missing, less than
      two or more than what is left. */
  predicate Stops(padding: Bytes) {
    || padding == [] || padding[0] == 0
    || (padding[0] != 1 && (|padding| == 1 || padding[1] < 2 || padding[1] > |padding|))
  }

  lemma PaddingEndsWalk(tcp: Bytes, i: nat, off: nat, padding: Bytes)
    requires i <= off <= |tcp| && tcp[i..off] == padding && Stops(padding)
    ensures MssOptions(tcp, i, off) == []
  {
    if i < off {
      assert tcp[i] == padding[0];
      assert i + 1 < off ==> tcp[i + 1] == padding[1];
      WalkStep(tcp, i, off, off);
    }
  }

  /** The option at the start of bytes at which the walk does not stop. */
  function FirstOption(bytes: Bytes): (o: TcpOption)
    requires !Stops(bytes)
    ensures o.Fits() && |OptionLayout(o)| <= |bytes| && OptionLayout(o) == bytes[..|OptionLayout(o)|]
  {
    if bytes[0] == 1 then NoOperation
    else if bytes[0] == 2 && bytes[1] == 4 then
      WordIsTwo(bytes[2], bytes[3]);
      MaximumSegmentSize(Word(bytes[2], bytes[3]))
    else Other(bytes[0], bytes[2..bytes[1]])
  }

  /** An option ahead of a list with its padding. */
  lemma LayoutFirst(o: TcpOption, options: seq<TcpOption>, padding: Bytes, bytes: Bytes, rest: Bytes)
    requires o.Fits() && AllFit(options) && rest == OptionsLayout(options) + padding && bytes == OptionLayout(o) + rest
    ensures AllFit([o] + options) && bytes == OptionsLayout([o] + options) + padding
  {
    assert ([o] + options)[1..] == options;
    LayoutStep([o] + options, padding);
  }

  /** Any bytes are a list of options, followed by bytes at which the walk stops. */
  lemma {:induction false} AnyBytesAreOptions(bytes: Bytes) returns (options: seq<TcpOption>, padding: Bytes)
    ensures AllFit(options) && Stops(padding) && bytes == OptionsLayout(options) + padding
  {
    if Stops(bytes) {
      options, padding := [], bytes;
    } else {
      var o, others := FirstOption(bytes), [];
      var rest := bytes[|OptionLayout(o)|..];
      assert bytes == bytes[..|OptionLayout(o)|] + rest;
      others, padding := AnyBytesAreOptions(rest);
      LayoutFirst(o, others, padding, bytes, rest);
      options := [o] + others;
    }
  }

  lemma PlacesStep(options: seq<TcpOption>, i: nat, next: nat, rest: seq<(nat, nat)>)
    requires AllFit(options) && options != [] && next == i + |OptionLayout(options[0])|
    requires rest == MssPlaces(options[1..], next)
    ensures MssPlaces(options, i) == if options[0].MaximumSegmentSize? then [(i, options[0].mss)] + rest else rest
  {
  }

  /** One option ahead of a walk that finds the places of the others. */
  lemma FollowOne(tcp: Bytes, i: nat, off: nat, options: seq<TcpOption>, next: nat)
    requires AllFit(options) && options != [] && i < off <= |tcp|
    requires next == NextOption(tcp, i, off) == i + |OptionLayout(options[0])|
    requires IsMssOption(tcp, i, off) <==> options[0].MaximumSegmentSize?
    requires options[0].MaximumSegmentSize? ==> Mss(tcp, i) == options[0].mss
    requires WithValues(tcp, MssOptions(tcp, next, off)) == MssPlaces(options[1..], next)
    ensures WithValues(tcp, MssOptions(tcp, i, off)) == MssPlaces(options, i)
  {
    var rest := MssOptions(tcp, next, off);
    WalkStep(tcp, i, off, next);
    PlacesStep(options, i, next, WithValues(tcp, rest));
    if options[0].MaximumSegmentSize? {
      ValuesJoined(tcp, i, rest);
    } else {
      assert [] + rest == rest;
    }
  }

  lemma {:induction false} WalkFollowsLayout(
    tcp: Bytes, i: nat, off: nat, options: seq<TcpOption>, padding: Bytes)
    requires AllFit(options) && i <= off <= |tcp| && tcp[i..off] == OptionsLayout(options) + padding
    requires Stops(padding)
    ensures WithValues(tcp, MssOptions(tcp, i, off)) == MssPlaces(options, i)
    decreases |options|
  {
    if options == [] {
      assert [] + padding == padding;
      PaddingEndsWalk(tcp, i, off, padding);
    } else {
      var o, next := options[0], i + |OptionLayout(options[0])|;
      LayoutStep(options, padding);
      assert |tcp[i..off]| > 0;
      WalkOption(tcp, i, off, o, OptionsLayout(options[1..]) + padding);
      WalkFollowsLayout(tcp, next, off, options[1..], padding);
      FollowOne(tcp, i, off, options, next);
    }
  }

  lemma OptionsAt(head: Bytes, options: Bytes, data: Bytes)
    requires |head| == 20
    ensures
      var t := head + options + data;
      |t| >= 20 + |options| && t[20..20 + |options|] == options && t[12] == head[12]
  {
  }

  lemma TcpHead(s: TcpSegment, head: Bytes)
    requires s.Fits() && head == Two(s.sourcePort) + Two(s.destPort) + s.numbers +
      [16 * ((20 + |s.options|) / 4) + s.reserved, FlagsByte(s.flags)] + s.rest
    ensures |head| == 20 && head[12] / 16 * 4 == 20 + |s.options| && TcpLayout(s) == head + s.options + s.data
  {
    assert head[12] == 16 * ((20 + |s.options|) / 4) + s.reserved;
  }

  /** In a TCP segment with any list of options, up to an end-of-list byte or a broken option, the walk finds exactly
      the MSS options of the list, each at its place and with its value. */
  lemma WalkFindsMss(s: TcpSegment, options: seq<TcpOption>, padding: Bytes, t: Bytes, off: nat)
    requires s.Fits() && AllFit(options) && s.options == OptionsLayout(options) + padding
    requires Stops(padding) && t == TcpLayout(s) && off == 20 + |s.options|
    ensures 20 <= off <= |t| && DataOffset(t) == off
    ensures WithValues(t, MssOptions(t, 20, off)) == MssPlaces(options, 20)
  {
    var head := Two(s.sourcePort) + Two(s.destPort) + s.numbers +
      [16 * ((20 + |s.options|) / 4) + s.reserved, FlagsByte(s.flags)] + s.rest;
    TcpHead(s, head);
    OptionsAt(head, s.options, s.data);
    WalkFollowsLayout(t, 20, off, options, padding);
  }
}
