/** Decoding undoes building for packets outside GTP-U: TCP, UDP, ICMP and other transports over IPv4,
    fragmented or not, and over IPv6 behind any chain of extension headers; and frames that carry no IP. */
module PacketRoundTrip {
  import opened Bytes
  import opened Collections
  import opened DecodeSpec
  import opened DecodeVerdicts
  import opened FrameFormat
  import opened HeaderRoundTrip
  import opened Packet

  // ----- Transport headers -----

  datatype Transport =
    | Tcp(sport: uint16, dport: uint16, flags: byte, options: seq<byte>, payload: seq<byte>)
    | Udp(sport: uint16, dport: uint16, payload: seq<byte>)
    | Icmp(v6: bool, icmpType: byte, icmpCode: byte, payload: seq<byte>)
    | Other(proto: byte, bytes: seq<byte>)

  predicate TransportFits(t: Transport) {
    match t
    case Tcp(_, _, _, options, _) => |options| % 4 == 0 && |options| <= 40
    case Udp(_, _, payload) => 8 + |payload| < 0x1_0000
    case Other(proto, _) => proto !in {PROTO_TCP, PROTO_UDP, PROTO_ICMP, PROTO_ICMPV6}
    case _ => true
  }

  function ProtoOf(t: Transport): byte {
    match t
    case Tcp(_, _, _, _, _) => PROTO_TCP
    case Udp(_, _, _) => PROTO_UDP
    case Icmp(v6, _, _, _) => if v6 then PROTO_ICMPV6 else PROTO_ICMP
    case Other(proto, _) => proto
  }

  function SegmentBytes(t: Transport): seq<byte>
    requires TransportFits(t)
  {
    match t
    case Tcp(sport, dport, flags, options, payload) => TcpHeader(sport, dport, flags, options) + payload
    case Udp(sport, dport, payload) => UdpBytes(sport, dport, |payload|) + payload
    case Icmp(_, icmpType, icmpCode, payload) => IcmpBytes(icmpType, icmpCode) + payload
    case Other(_, bytes) => bytes
  }

  function SegmentL4(t: Transport): L4 {
    match t
    case Tcp(sport, dport, flags, _, _) => L4(true, sport, dport, flags, 0, 0)
    case Udp(sport, dport, _) => L4(true, sport, dport, 0, 0, 0)
    case Icmp(_, icmpType, icmpCode, _) => L4(true, 0, 0, 0, icmpType, icmpCode)
    case Other(_, _) => NO_L4
  }

  lemma SegmentDecodes(t: Transport, off: nat, frag: FragKind)
    requires TransportFits(t)
    ensures var b := SegmentBytes(t);
            DecodeL4(Span(off, b, |b|), ProtoOf(t), frag) == L4Result(Ok, SegmentL4(t), Span(off, b, |b|))
  {
    hide TcpHeader, UdpBytes, IcmpBytes, LoadBe16;
    var b := SegmentBytes(t);
    match t
    case Tcp(sport, dport, flags, options, payload) =>
      assert b[..20 + |options|] == TcpHeader(sport, dport, flags, options);
      TcpReads(b, sport, dport, flags, options);
    case Udp(sport, dport, payload) =>
      assert b[..8] == UdpBytes(sport, dport, |payload|);
      UdpReads(b, sport, dport, |payload|);
      assert b[..|b|] == b;
    case Icmp(_, icmpType, icmpCode, payload) =>
      IcmpReads(icmpType, icmpCode);
      assert b[0] == IcmpBytes(icmpType, icmpCode)[0] && b[1] == IcmpBytes(icmpType, icmpCode)[1];
    case Other(_, _) =>
  }

  lemma IcmpReads(icmpType: byte, icmpCode: byte)
    ensures IcmpBytes(icmpType, icmpCode)[0] == icmpType && IcmpBytes(icmpType, icmpCode)[1] == icmpCode
  {
    hide Be16;
  }

  // ----- IPv6 extension headers (section 4 of RFC 8200) -----

  /** Options: hop-by-hop, routing or destination options with a body that fills whole units of eight
      bytes. Fragment: an offset in units of eight bytes. */
  datatype Ipv6Ext = Options(kind: byte, body: seq<byte>) | Fragment(offset: nat, more: bool, id: uint32)

  predicate Ipv6ExtFits(e: Ipv6Ext) {
    match e
    case Options(kind, body) =>
      kind in {IP6_EXT_HOPOPTS, IP6_EXT_ROUTING, IP6_EXT_DSTOPTS} && (|body| + 2) % 8 == 0 && |body| + 2 <= 2048
    case Fragment(offset, _, _) => offset < 0x2000
  }

  function KindOf(e: Ipv6Ext): byte {
    if e.Options? then e.kind else IP6_EXT_FRAGMENT
  }

  /** The first fragment of several, or one that has nothing to do with fragmentation, is followed by
      more headers; a later fragment is followed by data. */
  predicate IsLater(e: Ipv6Ext) {
    e.Fragment? && e.offset > 0
  }

  function Ipv6ExtBytes(e: Ipv6Ext, next: byte): (s: seq<byte>)
    requires Ipv6ExtFits(e)
    ensures |s| == if e.Options? then |e.body| + 2 else 8
  {
    match e
    case Options(_, body) => [next, (|body| + 2) / 8 - 1] + body
    case Fragment(offset, more, id) => [next, 0] + Be16(offset * 8 + if more then 1 else 0) + Be32(id)
  }

  /** What a header says about the packet. */
  function AfterExt(e: Ipv6Ext, l3: L3): L3 {
    match e
    case Options(_, _) => l3
    case Fragment(offset, more, id) =>
      l3.(fragId := id, frag := if offset > 0 then FragLater else if more then FragFirst else l3.frag)
  }

  lemma Ipv6ExtReads(s: Span, e: Ipv6Ext, next: byte, rest: seq<byte>, l3: L3)
    requires s.Valid() && Ipv6ExtFits(e) && s.data == Ipv6ExtBytes(e, next) + rest
    ensures var n := |Ipv6ExtBytes(e, next)|;
            && Ipv6ExtHeader(s, KindOf(e)) == ExtHeader(Ok, n) && s.data[0] == next
            && Ipv6ExtFields(s, KindOf(e), l3) == AfterExt(e, l3)
            && Advance(s, n) == Span(s.off + n, rest, s.wire - n)
  {
    hide Be16, Be32, LoadBe16, LoadBe32;
    var b := Ipv6ExtBytes(e, next);
    assert s.data[0] == b[0] && s.data[1] == b[1];
    assert s.data[|b|..] == rest;
    match e
    case Options(_, _) =>
    case Fragment(offset, more, id) =>
      var word := offset * 8 + if more then 1 else 0;
      assert s.data[2..4] == b[2..4] == Be16(word);
      assert s.data[4..8] == b[4..8] == Be32(id);
      Load16(s.data, 2, word);
      Load32(s.data, 4, id);
  }

  predicate ChainFits(exts: seq<Ipv6Ext>, proto: byte) {
    && (forall i :: 0 <= i < |exts| ==> Ipv6ExtFits(exts[i]))
    && (forall i :: 0 <= i < |exts| - 1 ==> !IsLater(exts[i]))
    && (IsIpv6Ext(proto) ==> exts != [] && IsLater(exts[|exts| - 1]))
  }

  function NextKind(exts: seq<Ipv6Ext>, proto: byte): byte {
    if exts == [] then proto else KindOf(exts[0])
  }

  function ChainBytes(exts: seq<Ipv6Ext>, proto: byte): seq<byte>
    requires forall i :: 0 <= i < |exts| ==> Ipv6ExtFits(exts[i])
  {
    if exts == [] then [] else Ipv6ExtBytes(exts[0], NextKind(exts[1..], proto)) + ChainBytes(exts[1..], proto)
  }

  function AfterExts(exts: seq<Ipv6Ext>, l3: L3): L3 {
    if exts == [] then l3 else AfterExts(exts[1..], AfterExt(exts[0], l3))
  }

  /** A chain of up to eight headers is walked to its end, where the protocol is found; a longer one is
      refused, and its protocol stays unknown. */
  lemma {:induction false} Ipv6ChainWalks(off: nat, exts: seq<Ipv6Ext>, proto: byte, body: seq<byte>, hops: nat, l3: L3)
    requires ChainFits(exts, proto) && hops <= IPV6_MAX_EXT_HEADERS && l3.frag != FragLater
    ensures var chain := ChainBytes(exts, proto); var b := chain + body;
            var r := WalkIpv6(Span(off, b, |b|), NextKind(exts, proto), hops, l3);
            if hops + |exts| <= IPV6_MAX_EXT_HEADERS
            then r == ChainResult(Ok, AfterExts(exts, l3).(proto := proto), Span(off + |chain|, body, |body|))
            else r.status == BadIpv6Ext && r.l3.proto == l3.proto
    decreases |exts|
  {
    hide WalkIpv6, Ipv6ExtHeader, Ipv6ExtFields, Ipv6ExtBytes, Ipv6ExtFits, Advance;
    var b := ChainBytes(exts, proto) + body;
    var s := Span(off, b, |b|);
    Ipv6ExtStep(s, NextKind(exts, proto), hops, l3);
    if exts == [] {
      assert b == body;
    } else {
      KindIsExt(exts[0]);
      if hops < IPV6_MAX_EXT_HEADERS {
        var e, next := exts[0], NextKind(exts[1..], proto);
        Assoc(Ipv6ExtBytes(e, next), ChainBytes(exts[1..], proto), body);
        Ipv6ExtReads(s, e, next, ChainBytes(exts[1..], proto) + body, l3);
        if IsLater(e) {
          assert exts[1..] == [];
          assert ChainBytes([], proto) + body == body;
          assert AfterExts([], AfterExt(e, l3)) == AfterExt(e, l3);
        } else {
          Ipv6ChainWalks(off + |Ipv6ExtBytes(e, next)|, exts[1..], proto, body, hops + 1, AfterExt(e, l3));
        }
      }
    }
  }

  lemma KindIsExt(e: Ipv6Ext)
    requires Ipv6ExtFits(e)
    ensures IsIpv6Ext(KindOf(e))
  {
  }

  // ----- IP packets -----

  datatype Ip =
    | V4(src: seq<byte>, dst: seq<byte>, optWords: nat, dontFragment: bool, more: bool, offset: nat)
    | V6(src: seq<byte>, dst: seq<byte>, exts: seq<Ipv6Ext>)

  /** The three flag bits and the thirteen bits of the offset, in units of eight bytes. */
  function FragWord(dontFragment: bool, more: bool, offset: nat): uint16
    requires offset < 0x2000
  {
    (if dontFragment then 0x4000 else 0) + (if more then 0x2000 else 0) + offset
  }

  function KindOfFragment(more: bool, offset: nat): FragKind {
    if offset > 0 then FragLater else if more then FragFirst else FragNone
  }

  predicate IpFits(ip: Ip, t: Transport) {
    && TransportFits(t)
    && match ip
    case V4(src, dst, optWords, _, _, offset) =>
      |src| == |dst| == 4 && optWords <= 10 && offset < 0x2000 && 20 + 4 * optWords + |SegmentBytes(t)| < 0x1_0000
    case V6(src, dst, exts) =>
      && |src| == |dst| == 16 && ChainFits(exts, ProtoOf(t)) && |exts| <= IPV6_MAX_EXT_HEADERS
      && |ChainBytes(exts, ProtoOf(t))| + |SegmentBytes(t)| < 0x1_0000
  }

  function PacketBytes(ip: Ip, t: Transport): seq<byte>
    requires IpFits(ip, t)
  {
    var b := SegmentBytes(t);
    match ip
    case V4(src, dst, optWords, dontFragment, more, offset) =>
      Ipv4Bytes(ProtoOf(t), src, dst, |b|, optWords, FragWord(dontFragment, more, offset)) + b
    case V6(src, dst, exts) =>
      var body := ChainBytes(exts, ProtoOf(t)) + b;
      Ipv6Bytes(NextKind(exts, ProtoOf(t)), src, dst, |body|) + body
  }

  function PacketL3(ip: Ip, t: Transport): L3
    requires IpFits(ip, t)
  {
    match ip
    case V4(src, dst, _, _, more, offset) => BuiltIpv4(ProtoOf(t), src, dst, KindOfFragment(more, offset))
    case V6(src, dst, exts) => AfterExts(exts, L3(true, 6, 0, src, dst, FragNone, 0)).(proto := ProtoOf(t))
  }

  /** A later fragment has no transport header of its own. */
  function PacketL4(ip: Ip, t: Transport): L4
    requires IpFits(ip, t)
  {
    if PacketL3(ip, t).frag == FragLater then NO_L4 else SegmentL4(t)
  }

  function TypeOf(ip: Ip): uint16 {
    if ip.V4? then ETHERTYPE_IPV4 else ETHERTYPE_IPV6
  }

  lemma Ipv6ChainDecodes(ip: Ip, t: Transport, off: nat, pad: seq<byte>)
    requires ip.V6? && IpFits(ip, t)
    ensures var b := PacketBytes(ip, t) + pad; var seg := SegmentBytes(t);
            DecodeIpv6(Span(off, b, |b|)) ==
            DecodeTransport(Span(off + |PacketBytes(ip, t)| - |seg|, seg, |seg|), PacketL3(ip, t))
  {
    hide DecodeTransport, WalkIpv6, SegmentBytes, ChainBytes, AfterExts, Ipv6ExtFits, IsLater;
    var seg, proto := SegmentBytes(t), ProtoOf(t);
    var body := ChainBytes(ip.exts, proto) + seg;
    var next := NextKind(ip.exts, proto);
    var s := Span(off, PacketBytes(ip, t) + pad, |PacketBytes(ip, t) + pad|);
    assert s.data[..40] == Ipv6Bytes(next, ip.src, ip.dst, |body|);
    Ipv6Reads(s.data, next, ip.src, ip.dst, |body|);
    assert s.data[40..][..|body|] == body;
    Ipv6ChainWalks(off + 40, ip.exts, proto, seg, 0, L3(true, 6, 0, ip.src, ip.dst, FragNone, 0));
  }

  /** Addresses, protocol, fragment kind and transport fields are read back, and the span that is left
      is the segment, without what follows the packet. */
  lemma PacketDecodes(ip: Ip, t: Transport, off: nat, pad: seq<byte>)
    requires IpFits(ip, t) && TransportFits(t)
    ensures var b := PacketBytes(ip, t) + pad; var seg := SegmentBytes(t);
            DecodeNetwork(Span(off, b, |b|), TypeOf(ip)) ==
            IpResult(Ok, PacketL3(ip, t), PacketL4(ip, t), Span(off + |PacketBytes(ip, t)| - |seg|, seg, |seg|))
  {
    hide SegmentBytes, SegmentL4, DecodeL4, DecodeIpv4, DecodeIpv6, Ipv4Bytes, Ipv6Bytes, BuiltIpv4, ChainBytes,
      AfterExts, ChainFits, TransportFits;
    var b, seg := PacketBytes(ip, t) + pad, SegmentBytes(t);
    ProtoKept(ip, t);
    match ip
    case V4(src, dst, optWords, dontFragment, more, offset) =>
      FragmentBits(dontFragment, false, more, offset);
      Ipv4Decodes(off, |b|, ProtoOf(t), src, dst, optWords, FragWord(dontFragment, more, offset), seg, pad);
      SegmentDecodes(t, off + 20 + 4 * optWords, PacketL3(ip, t).frag);
    case V6(_, _, _) =>
      Ipv6ChainDecodes(ip, t, off, pad);
      SegmentDecodes(t, off + |PacketBytes(ip, t)| - |seg|, PacketL3(ip, t).frag);
  }

  lemma ProtoKept(ip: Ip, t: Transport)
    requires IpFits(ip, t)
    ensures PacketL3(ip, t).proto == ProtoOf(t)
  {
    hide ChainFits;
  }

  // ----- Frames -----

  /** What a frame carries behind its tags. */
  datatype Cargo = IpPacket(ip: Ip, t: Transport) | NonIp(ethertype: uint16, bytes: seq<byte>)

  /** Unfragmented datagrams of port 2152 are the ones that FrameRoundTrip is about. */
  predicate CargoFits(c: Cargo) {
    match c
    case IpPacket(ip, t) =>
      && IpFits(ip, t) && TransportFits(t)
      && (t.Udp? && PacketL3(ip, t).frag == FragNone ==> t.sport != GTPU_PORT && t.dport != GTPU_PORT)
    case NonIp(ethertype, _) => !IsVlanTag(ethertype) && ethertype != ETHERTYPE_IPV4 && ethertype != ETHERTYPE_IPV6
  }

  function CargoType(c: Cargo): uint16 {
    match c
    case IpPacket(ip, _) => TypeOf(ip)
    case NonIp(ethertype, _) => ethertype
  }

  function CargoBytes(c: Cargo): seq<byte>
    requires CargoFits(c)
  {
    match c
    case IpPacket(ip, t) => PacketBytes(ip, t)
    case NonIp(_, bytes) => bytes
  }

  function CargoInfo(c: Cargo, l2: L2): PacketInfo
    requires CargoFits(c)
  {
    match c
    case IpPacket(ip, t) => PacketInfo(Ok, l2, PacketL3(ip, t), PacketL4(ip, t), NO_GTP, NO_INNER)
    case NonIp(_, _) => PacketInfo(Ok, l2, NO_L3, NO_L4, NO_GTP, NO_INNER)
  }

  lemma CargoDecodes(c: Cargo, off: nat, pad: seq<byte>)
    requires CargoFits(c)
    ensures var b := CargoBytes(c) + pad; var r := DecodeNetwork(Span(off, b, |b|), CargoType(c));
            && r.status == Ok && r.l3 == CargoInfo(c, NO_L2).l3 && r.l4 == CargoInfo(c, NO_L2).l4
            && !(r.l3.frag == FragNone && IsGtpuPort(r.l3, r.l4))
  {
    hide IpFits, TransportFits, PacketBytes, PacketL3, DecodeIpv4, DecodeIpv6, SegmentBytes;
    match c
    case IpPacket(ip, t) =>
      PacketDecodes(ip, t, off, pad);
      ProtoKept(ip, t);
    case NonIp(_, _) =>
  }

  /** Any such frame, with up to two VLAN tags and anything behind the packet, decodes to exactly the
      fields it was built from. */
  lemma PlainFrameDecodes(tags: seq<Tag>, c: Cargo, pad: seq<byte>)
    requires TagsFit(tags) && |tags| <= DECODE_MAX_VLANS && CargoFits(c)
    ensures var f := TaggedBytes(tags, CargoType(c), CargoBytes(c) + pad);
            DecodeFrame(f, |f|) == CargoInfo(c, L2(true, CargoType(c), Vids(tags)))
  {
    hide TaggedBytes, CargoBytes, DecodeOuter, DecodeNetwork, PacketL3, PacketL4, CargoFits, DecodeGtpu;
    NoTag(c);
    TaggedDecodes(tags, CargoType(c), CargoBytes(c) + pad);
    CargoDecodes(c, 14 + 4 * |tags|, pad);
  }

  lemma NoTag(c: Cargo)
    requires CargoFits(c)
    ensures !IsVlanTag(CargoType(c))
  {
    hide IpFits, TransportFits;
  }
}
