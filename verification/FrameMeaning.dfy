/** From the bytes of a frame to the counters and tables: which counters a written frame raises, and
    which flow or tunnel it joins. */
module FrameMeaning {
  import opened Accounting
  import opened Bytes
  import opened CaptureFormat
  import opened Counting
  import opened DecodeProofs
  import opened DecodeSpec
  import opened DecodeVerdicts
  import opened FlowKeys
  import opened FrameRoundTrip
  import opened HeaderRoundTrip
  import opened Packet
  import opened PacketRoundTrip
  import opened Pipeline

  // ----- Tables -----

  function SenderOf(ip: Ip): Address
    requires if ip.V4? then |ip.src| == 4 else |ip.src| == 16
  {
    if ip.V4? then [ip.src[0], ip.src[1], ip.src[2], ip.src[3], 0, 0, 0, 0, 0, 0, 0, 0, 0, 0, 0, 0] else ip.src
  }

  function ReceiverOf(ip: Ip): Address
    requires if ip.V4? then |ip.dst| == 4 else |ip.dst| == 16
  {
    if ip.V4? then [ip.dst[0], ip.dst[1], ip.dst[2], ip.dst[3], 0, 0, 0, 0, 0, 0, 0, 0, 0, 0, 0, 0] else ip.dst
  }

  lemma AddressesKept(ip: Ip, t: Transport)
    requires IpFits(ip, t)
    ensures var l3 := PacketL3(ip, t);
            && l3.present && l3.version == (if ip.V4? then 4 else 6) && l3.proto == ProtoOf(t)
            && l3.src == SenderOf(ip) && l3.dst == ReceiverOf(ip)
  {
    hide ChainFits, TransportFits, SegmentBytes, ChainBytes;
    if ip.V6? {
      ExtsKeepAddresses(ip.exts, L3(true, 6, 0, ip.src, ip.dst, FragNone, 0));
    }
  }

  /** A frame written around a G-PDU joins the tunnel of its TEID from its sender to its receiver, with its
      own wire length and time. */
  lemma GpduJoinsTunnel(o: Outer, m: Message, r: Record)
    requires MessageFits(m) && OuterFits(o, MessageBytes(m)) && m.payload.UserData? && |m.exts| <= 16
    requires r.data == FrameBytes(o, MessageBytes(m)) && r.wirelen == |r.data|
    ensures TunnelEntryOf(InputOf(r)) ==
            Some(Entry(FlowKey(m.teid, if o.ip.V4? then 4 else 6, 17, 0, 0, SenderOf(o.ip), ReceiverOf(o.ip)),
                       false, 0, r.wirelen, r.ts))
  {
    hide DecodeFrame, MessageBytes, FrameBytes, MessageInner, MessageFits, IpFits, TransportFits, PacketL3, SenderOf,
      ReceiverOf;
    FrameDecodes(o, m);
    AddressesKept(o.ip, Datagram(o, MessageBytes(m)));
    assert MessageGtp(m).msgType == 255 && MessageGtp(m).teid == m.teid && MessageGtp(m).msgOk && MessageGtp(m).v1u;
  }

  /** A frame written around any other GTP-U message, or around too long a chain, joins none. */
  lemma OthersJoinNoTunnel(o: Outer, m: Message, r: Record)
    requires MessageFits(m) && OuterFits(o, MessageBytes(m)) && (m.payload.Elements? || |m.exts| > 16)
    requires r.data == FrameBytes(o, MessageBytes(m)) && r.wirelen == |r.data|
    ensures TunnelEntryOf(InputOf(r)) == None
  {
    hide DecodeFrame, MessageBytes, FrameBytes, MessageInner, IpFits, TransportFits, PacketL3;
    FrameDecodes(o, m);
  }

  /** A frame written around any other packet joins the flow between its two ends: the end with the smaller
      address, or port, is A, and the direction says which end sent it. */
  lemma PacketJoinsFlow(tags: seq<Tag>, ip: Ip, t: Transport, pad: seq<byte>, r: Record)
    requires TagsFit(tags) && |tags| <= DECODE_MAX_VLANS && CargoFits(IpPacket(ip, t))
    requires r.data == TaggedBytes(tags, TypeOf(ip), PacketBytes(ip, t) + pad) && r.wirelen == |r.data|
    ensures var l4 := PacketL4(ip, t);
            var a, b := (SenderOf(ip), l4.srcPort), (ReceiverOf(ip), l4.dstPort);
            var key := (x: (Address, uint16), y: (Address, uint16)) =>
                         FlowKey(0, if ip.V4? then 4 else 6, ProtoOf(t), x.1, y.1, x.0, y.0);
            var e := FlowEntryOf(InputOf(r));
            && e.Some? && e.value.wirelen == r.wirelen && e.value.ts == r.ts
            && e.value.key == (if e.value.reversed then key(b, a) else key(a, b))
            && (e.value.reversed <==> LexCmp(a.0, b.0) > 0 || (a.0 == b.0 && a.1 > b.1))
            && e.value.tcpFlags == if t.Tcp? && PacketL3(ip, t).frag != FragLater then t.flags else 0
  {
    hide DecodeFrame, TaggedBytes, PacketBytes, IpFits, TransportFits, PacketL3, SenderOf, ReceiverOf, LexCmp,
      CargoFits;
    FitsInside(ip, t);
    PlainFrameDecodes(tags, IpPacket(ip, t), pad);
    AddressesKept(ip, t);
    EndsCompare(ip, t);
  }

  lemma EndsCompare(ip: Ip, t: Transport)
    requires IpFits(ip, t)
    ensures LexCmp(SenderOf(ip), ReceiverOf(ip)) == 0 <==> SenderOf(ip) == ReceiverOf(ip)
  {
    hide SenderOf, ReceiverOf, LexCmp, TransportFits, ChainFits, SegmentBytes, ChainBytes;
    LexZero(SenderOf(ip), ReceiverOf(ip));
  }

  lemma FitsInside(ip: Ip, t: Transport)
    requires CargoFits(IpPacket(ip, t))
    ensures IpFits(ip, t)
  {
    hide IpFits;
  }

  // ----- Counters -----

  /** Which counters of tags, networks and fragments a frame raises that carries a packet outside GTP-U, or
      no packet at all. */
  lemma PlainFrameCounts(tags: seq<Tag>, c: Cargo, pad: seq<byte>)
    requires TagsFit(tags) && |tags| <= DECODE_MAX_VLANS && CargoFits(c)
    ensures var f := TaggedBytes(tags, CargoType(c), CargoBytes(c) + pad);
            var p := DecodeFrame(f, |f|);
            && p.status == Ok && !Counts(Truncated, p) && !Counts(Malformed, p)
            && (Counts(VlanTagged, p) <==> tags != [])
            && (Counts(Counter.NonIp, p) <==> c.NonIp?)
            && (Counts(Ipv4, p) <==> c.IpPacket? && c.ip.V4?) && (Counts(Ipv6, p) <==> c.IpPacket? && c.ip.V6?)
            && (Counts(FirstFragment, p) <==> c.IpPacket? && PacketL3(c.ip, c.t).frag == FragFirst)
            && (Counts(LaterFragment, p) <==> c.IpPacket? && PacketL3(c.ip, c.t).frag == FragLater)
  {
    hide DecodeFrame, TaggedBytes, CargoBytes, IpFits, PacketL3, PacketL4, Vids, CountsGtp;
    PlainFrameDecodes(tags, c, pad);
    VidsNone(tags);
    if c.IpPacket? {
      AddressesKept(c.ip, c.t);
    }
  }

  /** Which counters of transports and of fragmented GTP-U it raises. */
  lemma PlainTransportCounts(tags: seq<Tag>, c: Cargo, pad: seq<byte>)
    requires TagsFit(tags) && |tags| <= DECODE_MAX_VLANS && CargoFits(c)
    ensures var f := TaggedBytes(tags, CargoType(c), CargoBytes(c) + pad);
            var p := DecodeFrame(f, |f|);
            && (Counts(Counter.Tcp, p) <==> c.IpPacket? && c.t.Tcp?)
            && (Counts(Counter.Udp, p) <==> c.IpPacket? && c.t.Udp?)
            && (Counts(Counter.Icmp, p) <==> c.IpPacket? && c.t.Icmp? && !c.t.v6)
            && (Counts(Icmpv6, p) <==> c.IpPacket? && c.t.Icmp? && c.t.v6)
            && (Counts(OtherL4, p) <==> c.IpPacket? && c.t.Other?)
            && (Counts(InGtp(Fragmented), p) <==>
                  && c.IpPacket? && c.t.Udp? && PacketL3(c.ip, c.t).frag == FragFirst
                  && (c.t.sport == 2152 || c.t.dport == 2152))
            && !Counts(InGtp(GtpCounter.Message), p)
  {
    hide DecodeFrame, TaggedBytes, CargoBytes, IpFits, PacketL3, Vids, CountsGtp;
    PlainFrameDecodes(tags, c, pad);
    FragmentedMeans(CargoInfo(c, L2(true, CargoType(c), Vids(tags))));
    if c.IpPacket? {
      AddressesKept(c.ip, c.t);
    }
  }

  lemma VidsNone(tags: seq<Tag>)
    ensures Vids(tags) == [] <==> tags == []
  {
  }

  lemma FragmentedMeans(p: PacketInfo)
    ensures CountsGtp(Fragmented, p) <==> p.l3.frag == FragFirst && p.l4.present && p.l3.proto == 17
                                          && (p.l4.srcPort == 2152 || p.l4.dstPort == 2152)
    ensures CountsGtp(GtpCounter.Message, p) ==> p.gtp.isGtpu
  {
  }

  /** What the decoder keeps of a message decides which of its counters are raised. */
  lemma MessageCounts(p: PacketInfo)
    requires p.gtp.isGtpu && p.gtp.v1u && p.l3.frag == FragNone
    ensures CountsGtp(GtpCounter.Message, p) && !CountsGtp(Fragmented, p) && !CountsGtp(NotV1u, p)
    ensures CountsGtp(WithSeq, p) <==> p.gtp.flags / 2 % 2 == 1
    ensures CountsGtp(WithExt, p) <==> p.gtp.extCount > 0
    ensures IsV1u(p) && (HasInner(p) <==> p.inner.present)
  {
    hide CountsUser;
  }

  /** Problems by their kind, and those of user packets exactly if the message itself was read in full. */
  lemma ProblemCounts(p: PacketInfo)
    requires p.gtp.isGtpu && p.l3.frag == FragNone
    ensures CountsGtp(GtpTruncated, p) <==> p.gtp.status.IsTruncation()
    ensures CountsGtp(GtpMalformed, p) <==> p.gtp.status != Ok && !p.gtp.status.IsTruncation()
    ensures CountsGtp(UserTruncated, p) <==> p.gtp.status.IsTruncation() && p.gtp.msgOk
    ensures CountsGtp(UserMalformed, p) <==> p.gtp.status != Ok && !p.gtp.status.IsTruncation() && p.gtp.msgOk
  {
    assert !Ok.IsTruncation();
    hide CountsUser, IsV1u, DecodeStatus.IsTruncation;
  }

  /** A datagram of the GTP-U port whose header is not GTPv1-U is counted as that, one whose header was cut
      as truncated, and neither raises a counter of message types. */
  lemma NoMessageCounts(p: PacketInfo)
    requires p.gtp.isGtpu && !p.gtp.v1u && p.l3.frag == FragNone
    ensures CountsGtp(GtpCounter.Message, p) && (CountsGtp(NotV1u, p) <==> p.gtp.status == Ok)
    ensures !CountsGtp(Gpdu, p) && !CountsGtp(EchoRequest, p) && !CountsGtp(EchoResponse, p)
    ensures !CountsGtp(ErrorIndication, p) && !CountsGtp(EndMarker, p) && !CountsGtp(OtherType, p)
    ensures !CountsGtp(WithSeq, p) && !CountsGtp(WithExt, p)
  {
    hide CountsUser, NamedType;
  }

  /** Which GTP-U counters a frame raises that carries a GTPv1-U message. */
  lemma GtpuFrameCounts(o: Outer, m: Message)
    requires MessageFits(m) && OuterFits(o, MessageBytes(m))
    ensures var f := FrameBytes(o, MessageBytes(m));
            var p := DecodeFrame(f, |f|);
            var signal := if m.payload.Elements? then m.payload.msgType else 255;
            && CountsGtp(GtpCounter.Message, p) && !CountsGtp(Fragmented, p) && !CountsGtp(NotV1u, p)
            && (CountsGtp(Gpdu, p) <==> m.payload.UserData?)
            && (CountsGtp(EchoRequest, p) <==> signal == 1) && (CountsGtp(EchoResponse, p) <==> signal == 2)
            && (CountsGtp(ErrorIndication, p) <==> signal == 26) && (CountsGtp(EndMarker, p) <==> signal == 254)
            && (CountsGtp(OtherType, p) <==>
                  signal != 1 && signal != 2 && signal != 26 && signal != 254 && signal != 255)
            && (CountsGtp(WithSeq, p) <==> m.flags / 2 % 2 == 1) && (CountsGtp(WithExt, p) <==> m.exts != [])
            && (CountsGtp(GtpMalformed, p) <==> |m.exts| > 16) && !CountsGtp(GtpTruncated, p)
            && !CountsGtp(UserTruncated, p) && !CountsGtp(UserMalformed, p)
  {
    hide DecodeFrame, MessageBytes, FrameBytes, MessageInner, IpFits, TransportFits, PacketL3, Vids, CountsGtp, IsV1u;
    FrameDecodes(o, m);
    var f := FrameBytes(o, MessageBytes(m));
    var p := DecodeFrame(f, |f|);
    MessageCounts(p);
    ProblemCounts(p);
    assert !BadGtpuExt.IsTruncation() && !Ok.IsTruncation();
    OneType(p);
  }

  /** Which counters of user packets it raises: those of its user packet, unless the chain is too long. */
  lemma UserPacketCounts(o: Outer, m: Message)
    requires MessageFits(m) && OuterFits(o, MessageBytes(m))
    ensures var f := FrameBytes(o, MessageBytes(m));
            var p := DecodeFrame(f, |f|);
            var k := m.payload.UserData? && |m.exts| <= 16;
            && (CountsGtp(InTunnel(InnerIpv4), p) <==> k && m.payload.ip.V4?)
            && (CountsGtp(InTunnel(InnerIpv6), p) <==> k && m.payload.ip.V6?)
            && (CountsGtp(InTunnel(InnerTcp), p) <==> k && m.payload.t.Tcp?)
            && (CountsGtp(InTunnel(InnerUdp), p) <==> k && m.payload.t.Udp?)
            && (CountsGtp(InTunnel(InnerIcmp), p) <==> k && m.payload.t.Icmp? && !m.payload.t.v6)
            && (CountsGtp(InTunnel(InnerIcmpv6), p) <==> k && m.payload.t.Icmp? && m.payload.t.v6)
            && (CountsGtp(InTunnel(InnerOther), p) <==> k && m.payload.t.Other?)
            && (CountsGtp(InTunnel(Nested), p) <==>
                  && k && m.payload.t.Udp? && (m.payload.t.sport == 2152 || m.payload.t.dport == 2152)
                  && PacketL3(m.payload.ip, m.payload.t).frag != FragLater)
  {
    hide DecodeFrame, MessageBytes, FrameBytes, IpFits, PacketL3, Vids, OuterFits, UserInner, CountsGtp, IsV1u,
      HasInner, TransportFits, ExtsFit;
    FrameDecodes(o, m);
    OuterUnfragmented(o, MessageBytes(m));
    var f := FrameBytes(o, MessageBytes(m));
    var p := DecodeFrame(f, |f|);
    MessageCounts(p);
    OneProtocol(p);
    NestedCounts(p);
    if m.payload.UserData? {
      UserInnerMeans(m.payload.ip, m.payload.t);
    }
  }

  lemma OuterUnfragmented(o: Outer, message: seq<byte>)
    requires OuterFits(o, message)
    ensures PacketL3(o.ip, Datagram(o, message)).frag == FragNone
  {
    hide IpFits, PacketL3, TransportFits;
  }

  lemma NestedCounts(p: PacketInfo)
    ensures CountsGtp(InTunnel(Nested), p) <==> HasInner(p) && !ChainBroken(p.gtp.status) && p.inner.nested
  {
    hide HasInner;
  }

  /** The packet's own protocol and port decide, a later fragment having none. */
  lemma UserInnerMeans(ip: Ip, t: Transport)
    requires IpFits(ip, t)
    ensures var i := UserInner(ip, t);
            && i.present && i.version == (if ip.V4? then 4 else 6) && i.proto == ProtoOf(t)
            && (i.nested <==> t.Udp? && (t.sport == 2152 || t.dport == 2152) && PacketL3(ip, t).frag != FragLater)
            && (i.proto == 6 <==> t.Tcp?) && (i.proto == 17 <==> t.Udp?) && (i.proto == 1 <==> t.Icmp? && !t.v6)
            && (i.proto == 58 <==> t.Icmp? && t.v6)
  {
    hide PacketL3, Extended, ChainFits, SegmentBytes, ChainBytes;
  }
}
