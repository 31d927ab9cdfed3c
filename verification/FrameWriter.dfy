/** The writers put together: whole frames and whole files, appended call by call, are the bytes that
    the round trips are about. */
module FrameWriter {
  import opened Bytes
  import opened CaptureFormat
  import opened Collections
  import opened DecodeSpec
  import opened FrameBuilder
  import opened FrameFormat
  import opened FrameRoundTrip
  import opened HeaderRoundTrip
  import opened Packet
  import opened PacketRoundTrip

  // ----- Packets -----

  method PutSegment(b: ByteBuf, t: Transport)
    requires b.Valid() && TransportFits(t)
    modifies b, b.data
    ensures b.Valid() && b.Contents() == old(b.Contents()) + SegmentBytes(t)
    ensures b.data == old(b.data) || fresh(b.data)
  {
    ghost var start := b.Contents();
    hide ByteBuf.Contents, TcpBytes, TcpHeader, UdpBytes, IcmpBytes;
    match t
    case Tcp(sport, dport, flags, options, payload) =>
      TcpHeaderPlain(sport, dport, flags);
      // The builder has no writer for TCP options: such a header is appended as it is.
      if options == [] {
        b.PutTcp(sport, dport, flags);
      } else {
        b.PutBytes(TcpHeader(sport, dport, flags, options));
      }
      b.PutBytes(payload);
      Assoc(start, TcpHeader(sport, dport, flags, options), payload);
    case Udp(sport, dport, payload) =>
      b.PutUdp(sport, dport, |payload|);
      b.PutBytes(payload);
      Assoc(start, UdpBytes(sport, dport, |payload|), payload);
    case Icmp(_, icmpType, icmpCode, payload) =>
      b.PutIcmp(icmpType, icmpCode);
      b.PutBytes(payload);
      Assoc(start, IcmpBytes(icmpType, icmpCode), payload);
    case Other(_, bytes) =>
      b.PutBytes(bytes);
  }

  /** The builder has no writer for IPv6 extension headers: their bytes are appended as they are. */
  method PutChain(b: ByteBuf, exts: seq<Ipv6Ext>, proto: byte)
    requires b.Valid() && forall i :: 0 <= i < |exts| ==> Ipv6ExtFits(exts[i])
    modifies b, b.data
    ensures b.Valid() && b.Contents() == old(b.Contents()) + ChainBytes(exts, proto)
    ensures b.data == old(b.data) || fresh(b.data)
  {
    ghost var start := b.Contents();
    hide ByteBuf.Contents, Ipv6ExtBytes, Ipv6ExtFits, ChainBytes, NextKind;
    assert exts[0..] == exts;
    for i := 0 to |exts|
      invariant b.Valid() && (b.data == old(b.data) || fresh(b.data))
      invariant b.Contents() + ChainBytes(exts[i..], proto) == start + ChainBytes(exts, proto)
    {
      var piece := Ipv6ExtBytes(exts[i], NextKind(exts[i + 1..], proto));
      ChainFrom(exts, proto, i);
      Assoc(b.Contents(), piece, ChainBytes(exts[i + 1..], proto));
      b.PutBytes(piece);
    }
    assert exts[|exts|..] == [];
    NoChain(proto);
    assert b.Contents() + [] == b.Contents();
  }

  lemma ChainFrom(exts: seq<Ipv6Ext>, proto: byte, i: nat)
    requires i < |exts| && forall j :: 0 <= j < |exts| ==> Ipv6ExtFits(exts[j])
    ensures ChainBytes(exts[i..], proto) ==
            Ipv6ExtBytes(exts[i], NextKind(exts[i + 1..], proto)) + ChainBytes(exts[i + 1..], proto)
  {
    hide Ipv6ExtFits, Ipv6ExtBytes;
    assert exts[i..][1..] == exts[i + 1..];
  }

  lemma NoChain(proto: byte)
    ensures ChainBytes([], proto) == []
  {
  }

  /** Everything before the segment. */
  function IpHeaderBytes(ip: Ip, t: Transport): seq<byte>
    requires IpFits(ip, t)
  {
    var n := |SegmentBytes(t)|;
    match ip
    case V4(src, dst, optWords, dontFragment, more, offset) =>
      Ipv4Bytes(ProtoOf(t), src, dst, n, optWords, FragWord(dontFragment, more, offset))
    case V6(src, dst, exts) =>
      var chain := ChainBytes(exts, ProtoOf(t));
      Ipv6Bytes(NextKind(exts, ProtoOf(t)), src, dst, |chain| + n) + chain
  }

  lemma PacketSplits(ip: Ip, t: Transport)
    requires IpFits(ip, t)
    ensures PacketBytes(ip, t) == IpHeaderBytes(ip, t) + SegmentBytes(t)
  {
    hide Ipv4Bytes, Ipv6Bytes, SegmentBytes, ChainBytes, Ipv6ExtFits, IsLater;
    if ip.V6? {
      var chain, seg := ChainBytes(ip.exts, ProtoOf(t)), SegmentBytes(t);
      Assoc(Ipv6Bytes(NextKind(ip.exts, ProtoOf(t)), ip.src, ip.dst, |chain| + |seg|), chain, seg);
    }
  }

  method PutIpHeader(b: ByteBuf, ip: Ip, t: Transport)
    requires b.Valid() && IpFits(ip, t)
    modifies b, b.data
    ensures b.Valid() && b.Contents() == old(b.Contents()) + IpHeaderBytes(ip, t)
    ensures b.data == old(b.data) || fresh(b.data)
  {
    hide ByteBuf.Contents, Ipv4Bytes, Ipv6Bytes, ChainBytes, SegmentBytes, Ipv6ExtFits, IsLater;
    var n, proto := |SegmentBytes(t)|, ProtoOf(t);
    if ip.V4? {
      b.PutIpv4(proto, ip.src, ip.dst, n, ip.optWords, FragWord(ip.dontFragment, ip.more, ip.offset));
    } else {
      PutIpv6Header(b, ip.src, ip.dst, ip.exts, proto, n);
    }
  }

  method PutIpv6Header(b: ByteBuf, src: Address, dst: Address, exts: seq<Ipv6Ext>, proto: byte, n: nat)
    requires b.Valid() && forall i :: 0 <= i < |exts| ==> Ipv6ExtFits(exts[i])
    modifies b, b.data
    ensures b.Valid() && (b.data == old(b.data) || fresh(b.data))
    ensures var chain := ChainBytes(exts, proto);
            b.Contents() == old(b.Contents()) + (Ipv6Bytes(NextKind(exts, proto), src, dst, |chain| + n) + chain)
  {
    ghost var start := b.Contents();
    hide ByteBuf.Contents, Ipv6Bytes, ChainBytes, Ipv6ExtFits;
    var len := |ChainBytes(exts, proto)| + n;
    b.PutIpv6(NextKind(exts, proto), src, dst, len);
    PutChain(b, exts, proto);
    Assoc(start, Ipv6Bytes(NextKind(exts, proto), src, dst, len), ChainBytes(exts, proto));
  }

  method PutPacket(b: ByteBuf, ip: Ip, t: Transport)
    requires b.Valid() && IpFits(ip, t)
    modifies b, b.data
    ensures b.Valid() && b.Contents() == old(b.Contents()) + PacketBytes(ip, t)
    ensures b.data == old(b.data) || fresh(b.data)
  {
    ghost var start := b.Contents();
    hide ByteBuf.Contents, IpHeaderBytes, PacketBytes, SegmentBytes, IpFits;
    PutIpHeader(b, ip, t);
    PutSegment(b, t);
    Assoc(start, IpHeaderBytes(ip, t), SegmentBytes(t));
    PacketSplits(ip, t);
  }

  // ----- GTP-U messages -----

  method PutExts(b: ByteBuf, exts: seq<Ext>)
    requires b.Valid() && ExtsFit(exts)
    modifies b, b.data
    ensures b.Valid() && b.Contents() == old(b.Contents()) + ExtsBytes(exts)
    ensures b.data == old(b.data) || fresh(b.data)
  {
    ghost var start := b.Contents();
    hide ByteBuf.Contents, GtpuExtBytes;
    assert exts[0..] == exts;
    for i := 0 to |exts|
      invariant b.Valid() && (b.data == old(b.data) || fresh(b.data))
      invariant b.Contents() + ExtsBytes(exts[i..]) == start + ExtsBytes(exts)
    {
      assert exts[i..][1..] == exts[i + 1..];
      Assoc(b.Contents(), GtpuExtBytes(exts[i].units, FirstKind(exts[i + 1..])), ExtsBytes(exts[i + 1..]));
      b.PutGtpuExt(exts[i].units, FirstKind(exts[i + 1..]));
    }
    assert exts[|exts|..] == [];
  }

  method PutPayload(b: ByteBuf, p: Payload)
    requires b.Valid() && PayloadFits(p)
    modifies b, b.data
    ensures b.Valid() && b.Contents() == old(b.Contents()) + PayloadBytes(p)
    ensures b.data == old(b.data) || fresh(b.data)
  {
    match p
    case UserData(ip, t) => PutPacket(b, ip, t);
    case Elements(_, bytes) => b.PutBytes(bytes);
  }

  method PutTail(b: ByteBuf, m: Message)
    requires b.Valid() && MessageFits(m)
    modifies b, b.data
    ensures b.Valid() && b.Contents() == old(b.Contents()) + TailBytes(m)
    ensures b.data == old(b.data) || fresh(b.data)
  {
    ghost var start := b.Contents();
    hide ByteBuf.Contents, GtpuOptBytes, ExtsBytes, PayloadBytes;
    if GtpuHasOptions(m.flags) {
      b.PutGtpuOpt(m.seqNo, m.npdu, FirstKind(m.exts));
    } else {
      assert start + [] == start;
    }
    PutExts(b, m.exts);
    PutPayload(b, m.payload);
    Assoc(start, OptionBytes(m), ExtsBytes(m.exts));
    Assoc(start + OptionBytes(m), ExtsBytes(m.exts), PayloadBytes(m.payload));
    Assoc(start, OptionBytes(m), ExtsBytes(m.exts) + PayloadBytes(m.payload));
  }

  method PutMessage(b: ByteBuf, m: Message)
    requires b.Valid() && MessageFits(m)
    modifies b, b.data
    ensures b.Valid() && b.Contents() == old(b.Contents()) + MessageBytes(m)
    ensures b.data == old(b.data) || fresh(b.data)
  {
    ghost var start := b.Contents();
    hide ByteBuf.Contents, GtpuBytes, TailBytes, MessageFits;
    b.PutGtpu(m.flags, MessageType(m), |TailBytes(m)|, m.teid);
    PutTail(b, m);
    Assoc(start, GtpuBytes(m.flags, MessageType(m), |TailBytes(m)|, m.teid), TailBytes(m));
  }

  // ----- Frames -----

  method PutTags(b: ByteBuf, tags: seq<Tag>, ethertype: uint16)
    requires b.Valid()
    modifies b, b.data
    ensures b.Valid() && b.Contents() ==
                         old(b.Contents()) + (EthBytes(FirstType(tags, ethertype)) + TagsBytes(tags, ethertype))
    ensures b.data == old(b.data) || fresh(b.data)
  {
    ghost var start := b.Contents();
    hide ByteBuf.Contents, EthBytes, VlanBytes;
    b.PutEth(FirstType(tags, ethertype));
    assert tags[0..] == tags;
    for i := 0 to |tags|
      invariant b.Valid() && (b.data == old(b.data) || fresh(b.data))
      invariant b.Contents() + TagsBytes(tags[i..], ethertype) ==
                start + EthBytes(FirstType(tags, ethertype)) + TagsBytes(tags, ethertype)
    {
      assert tags[i..][1..] == tags[i + 1..];
      Assoc(b.Contents(), VlanBytes(tags[i].vid, FirstType(tags[i + 1..], ethertype)),
            TagsBytes(tags[i + 1..], ethertype));
      b.PutVlan(tags[i].vid, FirstType(tags[i + 1..], ethertype));
    }
    assert tags[|tags|..] == [];
    assert b.Contents() + [] == b.Contents();
    Assoc(start, EthBytes(FirstType(tags, ethertype)), TagsBytes(tags, ethertype));
  }

  /** A GTP-U frame, layer by layer: what `FrameDecodes` says how to read. */
  method PutFrame(b: ByteBuf, o: Outer, m: Message)
    requires b.Valid() && MessageFits(m) && OuterFits(o, MessageBytes(m))
    modifies b, b.data
    ensures b.Valid() && b.Contents() == old(b.Contents()) + FrameBytes(o, MessageBytes(m))
    ensures b.data == old(b.data) || fresh(b.data)
  {
    ghost var start := b.Contents();
    hide ByteBuf.Contents, MessageFits, IpFits, TransportFits, MessageBytes, IpHeaderBytes, PacketBytes, PacketL3,
      UdpBytes;
    var n := |MessageBytes(m)|;
    ghost var d := Datagram(o, MessageBytes(m));
    PutTags(b, o.tags, TypeOf(o.ip));
    PutIpHeader(b, o.ip, Datagram(o, MessageBytes(m)));
    b.PutUdp(o.sport, o.dport, n);
    PutMessage(b, m);
    b.PutBytes(o.pad);
    ghost var top := EthBytes(FirstType(o.tags, TypeOf(o.ip))) + TagsBytes(o.tags, TypeOf(o.ip));
    Assoc5(start, top, IpHeaderBytes(o.ip, d), UdpBytes(o.sport, o.dport, n), MessageBytes(m), o.pad);
    PacketSplits(o.ip, d);
    LayersNest(EthBytes(FirstType(o.tags, TypeOf(o.ip))), TagsBytes(o.tags, TypeOf(o.ip)), IpHeaderBytes(o.ip, d),
               UdpBytes(o.sport, o.dport, n), MessageBytes(m), o.pad);
  }

  lemma LayersNest(eth: seq<byte>, tags: seq<byte>, ip: seq<byte>, udp: seq<byte>, message: seq<byte>, pad: seq<byte>)
    ensures (eth + tags) + ip + udp + message + pad == eth + (tags + ((ip + (udp + message)) + pad))
  {
    Assoc(ip, udp, message);
    Assoc(eth + tags, ip, udp);
    Assoc(eth + tags, ip + udp, message);
    Assoc(eth + tags, ip + udp + message, pad);
    Assoc(eth, tags, ip + udp + message + pad);
  }

  /** Any other frame, layer by layer: what `PlainFrameDecodes` says how to read. */
  method PutPlainFrame(b: ByteBuf, tags: seq<Tag>, c: Cargo, pad: seq<byte>)
    requires b.Valid() && CargoFits(c)
    modifies b, b.data
    ensures b.Valid() && b.Contents() == old(b.Contents()) + TaggedBytes(tags, CargoType(c), CargoBytes(c) + pad)
    ensures b.data == old(b.data) || fresh(b.data)
  {
    ghost var start := b.Contents();
    hide ByteBuf.Contents, IpFits, TransportFits, PacketBytes, PacketL3, EthBytes, TagsBytes;
    PutTags(b, tags, CargoType(c));
    match c {
      case IpPacket(ip, t) => PutPacket(b, ip, t);
      case NonIp(_, bytes) => b.PutBytes(bytes);
    }
    b.PutBytes(pad);
    ghost var eth, rest := EthBytes(FirstType(tags, CargoType(c))), TagsBytes(tags, CargoType(c));
    Assoc3(start, eth + rest, CargoBytes(c), pad);
    Assoc(eth + rest, CargoBytes(c), pad);
    Assoc(eth, rest, CargoBytes(c) + pad);
  }

  // ----- The ready-made frames -----

  function V4TcpBytes(src: seq<byte>, dst: seq<byte>, sport: uint16, dport: uint16, flags: byte, payload: nat)
    : seq<byte>
    requires |src| == 4 && |dst| == 4
  {
    EthBytes(ETHERTYPE_IPV4) + Ipv4Bytes(PROTO_TCP, src, dst, 20 + payload, 0, 0x4000) + TcpBytes(sport, dport, flags)
    + Fill(0xAB, payload)
  }

  method FrameV4Tcp(b: ByteBuf, src: seq<byte>, dst: seq<byte>, sport: uint16, dport: uint16, flags: byte, payload: nat)
    requires b.Valid() && |src| == 4 && |dst| == 4
    modifies b, b.data
    ensures b.Valid() && b.Contents() == old(b.Contents()) + V4TcpBytes(src, dst, sport, dport, flags, payload)
    ensures b.data == old(b.data) || fresh(b.data)
  {
    ghost var start := b.Contents();
    hide ByteBuf.Contents, EthBytes, Ipv4Bytes, TcpBytes, Fill;
    b.PutEth(ETHERTYPE_IPV4);
    b.PutIpv4(PROTO_TCP, src, dst, 20 + payload, 0, 0x4000);
    b.PutTcp(sport, dport, flags);
    b.PutFill(0xAB, payload);
    Assoc4(start, EthBytes(ETHERTYPE_IPV4), Ipv4Bytes(PROTO_TCP, src, dst, 20 + payload, 0, 0x4000),
           TcpBytes(sport, dport, flags), Fill(0xAB, payload));
  }

  function V4UdpBytes(src: seq<byte>, dst: seq<byte>, sport: uint16, dport: uint16, payload: nat): seq<byte>
    requires |src| == 4 && |dst| == 4
  {
    EthBytes(ETHERTYPE_IPV4) + Ipv4Bytes(PROTO_UDP, src, dst, 8 + payload, 0, 0) + UdpBytes(sport, dport, payload)
    + Fill(0xCD, payload)
  }

  method FrameV4Udp(b: ByteBuf, src: seq<byte>, dst: seq<byte>, sport: uint16, dport: uint16, payload: nat)
    requires b.Valid() && |src| == 4 && |dst| == 4
    modifies b, b.data
    ensures b.Valid() && b.Contents() == old(b.Contents()) + V4UdpBytes(src, dst, sport, dport, payload)
    ensures b.data == old(b.data) || fresh(b.data)
  {
    ghost var start := b.Contents();
    hide ByteBuf.Contents, EthBytes, Ipv4Bytes, UdpBytes, Fill;
    b.PutEth(ETHERTYPE_IPV4);
    b.PutIpv4(PROTO_UDP, src, dst, 8 + payload, 0, 0);
    b.PutUdp(sport, dport, payload);
    b.PutFill(0xCD, payload);
    Assoc4(start, EthBytes(ETHERTYPE_IPV4), Ipv4Bytes(PROTO_UDP, src, dst, 8 + payload, 0, 0),
           UdpBytes(sport, dport, payload), Fill(0xCD, payload));
  }

  function V6TcpBytes(src: Address, dst: Address, sport: uint16, dport: uint16, flags: byte, payload: nat): seq<byte> {
    EthBytes(ETHERTYPE_IPV6) + Ipv6Bytes(PROTO_TCP, src, dst, 20 + payload) + TcpBytes(sport, dport, flags)
    + Fill(0xEF, payload)
  }

  method FrameV6Tcp(b: ByteBuf, src: Address, dst: Address, sport: uint16, dport: uint16, flags: byte, payload: nat)
    requires b.Valid()
    modifies b, b.data
    ensures b.Valid() && b.Contents() == old(b.Contents()) + V6TcpBytes(src, dst, sport, dport, flags, payload)
    ensures b.data == old(b.data) || fresh(b.data)
  {
    ghost var start := b.Contents();
    hide ByteBuf.Contents, EthBytes, Ipv6Bytes, TcpBytes, Fill;
    b.PutEth(ETHERTYPE_IPV6);
    b.PutIpv6(PROTO_TCP, src, dst, 20 + payload);
    b.PutTcp(sport, dport, flags);
    b.PutFill(0xEF, payload);
    Assoc4(start, EthBytes(ETHERTYPE_IPV6), Ipv6Bytes(PROTO_TCP, src, dst, 20 + payload), TcpBytes(sport, dport, flags),
           Fill(0xEF, payload));
  }

  lemma UntaggedFrame(ethertype: uint16, header: seq<byte>, upper: seq<byte>, payload: seq<byte>)
    ensures EthBytes(ethertype) + header + upper + payload ==
            TaggedBytes([], ethertype, (header + (upper + payload)) + [])
  {
    hide EthBytes;
    var eth := EthBytes(ethertype);
    Assoc(header, upper, payload);
    Assoc3(eth, header, upper, payload);
    assert (header + (upper + payload)) + [] == header + (upper + payload);
    assert [] + (header + (upper + payload)) == header + (upper + payload);
  }

  // They decode to the addresses, ports and flags they were made from, as long as the payload fits.

  lemma FrameV4TcpDecodes(src: seq<byte>, dst: seq<byte>, sport: uint16, dport: uint16, flags: byte, payload: nat)
    requires |src| == 4 && |dst| == 4 && 40 + payload < 0x1_0000
    ensures var f := V4TcpBytes(src, dst, sport, dport, flags, payload);
            DecodeFrame(f, |f|) ==
            CargoInfo(IpPacket(V4(src, dst, 0, true, false, 0), Tcp(sport, dport, flags, [], Fill(0xAB, payload))),
                      L2(true, ETHERTYPE_IPV4, []))
  {
    hide DecodeFrame, EthBytes, Ipv4Bytes, Ipv6Bytes, TcpBytes, TcpHeader, UdpBytes, Fill, PacketL3, PacketL4,
      TaggedBytes;
    var a := Fill(0xAB, payload);
    TcpHeaderPlain(sport, dport, flags);
    UntaggedFrame(ETHERTYPE_IPV4, Ipv4Bytes(PROTO_TCP, src, dst, 20 + payload, 0, 0x4000),
                  TcpBytes(sport, dport, flags), a);
    PlainFrameDecodes([], IpPacket(V4(src, dst, 0, true, false, 0), Tcp(sport, dport, flags, [], a)), []);
  }

  lemma FrameV4UdpDecodes(src: seq<byte>, dst: seq<byte>, sport: uint16, dport: uint16, payload: nat)
    requires |src| == 4 && |dst| == 4 && 28 + payload < 0x1_0000 && sport != GTPU_PORT && dport != GTPU_PORT
    ensures var f := V4UdpBytes(src, dst, sport, dport, payload);
            DecodeFrame(f, |f|) ==
            CargoInfo(IpPacket(V4(src, dst, 0, false, false, 0), Udp(sport, dport, Fill(0xCD, payload))),
                      L2(true, ETHERTYPE_IPV4, []))
  {
    hide DecodeFrame, EthBytes, Ipv4Bytes, Ipv6Bytes, TcpBytes, TcpHeader, UdpBytes, Fill, PacketL3, PacketL4,
      TaggedBytes;
    var a := Fill(0xCD, payload);
    UntaggedFrame(ETHERTYPE_IPV4, Ipv4Bytes(PROTO_UDP, src, dst, 8 + payload, 0, 0),
                  UdpBytes(sport, dport, payload), a);
    PlainFrameDecodes([], IpPacket(V4(src, dst, 0, false, false, 0), Udp(sport, dport, a)), []);
  }

  lemma FrameV6TcpDecodes(src: Address, dst: Address, sport: uint16, dport: uint16, flags: byte, payload: nat)
    requires 20 + payload < 0x1_0000
    ensures var f := V6TcpBytes(src, dst, sport, dport, flags, payload);
            DecodeFrame(f, |f|) ==
            CargoInfo(IpPacket(V6(src, dst, []), Tcp(sport, dport, flags, [], Fill(0xEF, payload))),
                      L2(true, ETHERTYPE_IPV6, []))
  {
    hide DecodeFrame, EthBytes, Ipv4Bytes, Ipv6Bytes, TcpBytes, TcpHeader, UdpBytes, Fill, PacketL3, PacketL4,
      TaggedBytes;
    var a := Fill(0xEF, payload);
    TcpHeaderPlain(sport, dport, flags);
    UntaggedFrame(ETHERTYPE_IPV6, Ipv6Bytes(PROTO_TCP, src, dst, 20 + payload), TcpBytes(sport, dport, flags), a);
    assert [] + (TcpBytes(sport, dport, flags) + a) == TcpBytes(sport, dport, flags) + a;
    PlainFrameDecodes([], IpPacket(V6(src, dst, []), Tcp(sport, dport, flags, [], a)), []);
  }

  // ----- Capture files -----

  /** A whole file: what `FileRoundTrip` says how to read. */
  method PutFile(b: ByteBuf, rs: seq<RawRecord>, bigEndian: bool, nsec: bool, snaplen: uint32, linktype: uint32)
    requires b.Valid() && AllWritable(rs)
    modifies b, b.data
    ensures b.Valid() && b.Contents() == old(b.Contents()) + FileBytes(rs, bigEndian, nsec, snaplen, linktype)
    ensures b.data == old(b.data) || fresh(b.data)
  {
    ghost var start := b.Contents();
    hide ByteBuf.Contents, GlobalBytes, RecordBytes;
    b.PutGlobal(bigEndian, nsec, snaplen, linktype);
    ghost var top := GlobalBytes(bigEndian, nsec, snaplen, linktype);
    assert rs[0..] == rs;
    for i := 0 to |rs|
      invariant b.Valid() && (b.data == old(b.data) || fresh(b.data))
      invariant b.Contents() + RecordsBytes(rs[i..], bigEndian) == start + top + RecordsBytes(rs, bigEndian)
    {
      assert rs[i..][1..] == rs[i + 1..];
      Assoc(b.Contents(), RecordBytes(rs[i], bigEndian), RecordsBytes(rs[i + 1..], bigEndian));
      b.PutRecord(rs[i], bigEndian);
    }
    assert rs[|rs|..] == [];
    assert b.Contents() + [] == b.Contents();
    Assoc(start, top, RecordsBytes(rs, bigEndian));
  }
}
