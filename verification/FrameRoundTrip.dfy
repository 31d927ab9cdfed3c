/** Decoding undoes building: a GTP-U frame written header by header decodes to exactly the packet
    it was built from, field by field. */
module FrameRoundTrip {
  import opened Bytes
  import opened Collections
  import opened DecodeSpec
  import opened FrameFormat
  import opened HeaderRoundTrip
  import opened Packet
  import opened PacketRoundTrip

  // ----- The user packet -----

  /** What is kept of a user packet. */
  function UserInner(ip: Ip, t: Transport): Inner
    requires IpFits(ip, t)
  {
    var l4 := PacketL4(ip, t);
    var (src, dst) := if ip.V4? then (Extended(ip.src), Extended(ip.dst)) else (ip.src, ip.dst);
    Inner(true, l4.present, l4.present && t.Udp? && (t.sport == GTPU_PORT || t.dport == GTPU_PORT),
          if ip.V4? then 4 else 6, ProtoOf(t), src, dst, l4.srcPort, l4.dstPort)
  }

  lemma FirstByte(ip: Ip, t: Transport)
    requires IpFits(ip, t)
    ensures var b := PacketBytes(ip, t); |b| > 0 && b[0] / 16 == if ip.V4? then 4 else 6
  {
    hide SegmentBytes, ChainBytes, ChainFits, Fill, Be16;
  }

  /** Any IP packet, with extension headers or fragmented, is read in a tunnel as it is outside. */
  lemma UserDecodes(ip: Ip, t: Transport, off: nat)
    requires IpFits(ip, t) && TransportFits(t)
    ensures var b := PacketBytes(ip, t); var r := DecodeInnerIp(Span(off, b, |b|));
            r.status == Ok && InnerOf(r.l3, r.l4) == UserInner(ip, t)
  {
    hide PacketBytes, DecodeIpv4, DecodeIpv6, SegmentBytes, TransportFits, Extended, ChainFits, ChainBytes;
    assert PacketBytes(ip, t) + [] == PacketBytes(ip, t);
    FirstByte(ip, t);
    PacketDecodes(ip, t, off, []);
    InnerIsUser(ip, t);
  }

  lemma InnerIsUser(ip: Ip, t: Transport)
    requires IpFits(ip, t)
    ensures InnerOf(PacketL3(ip, t), PacketL4(ip, t)) == UserInner(ip, t)
  {
    hide SegmentBytes, ChainFits, ChainBytes, Extended;
    if ip.V6? {
      ExtsKeepAddresses(ip.exts, L3(true, 6, 0, ip.src, ip.dst, FragNone, 0));
    }
  }

  lemma {:induction false} ExtsKeepAddresses(exts: seq<Ipv6Ext>, l3: L3)
    ensures AfterExts(exts, l3) == l3.(frag := AfterExts(exts, l3).frag, fragId := AfterExts(exts, l3).fragId)
  {
    if exts != [] {
      ExtsKeepAddresses(exts[1..], AfterExt(exts[0], l3));
    }
  }

  // ----- The GTP-U message -----

  /** An extension header: its type, which the header before it announces, and its length. */
  datatype Ext = Ext(kind: byte, units: byte)

  predicate ExtsFit(exts: seq<Ext>) {
    forall i :: 0 <= i < |exts| ==> exts[i].kind != 0 && exts[i].units >= 1
  }

  function FirstKind(exts: seq<Ext>): byte {
    if exts == [] then 0 else exts[0].kind
  }

  function ExtsBytes(exts: seq<Ext>): seq<byte>
    requires ExtsFit(exts)
  {
    if exts == [] then [] else GtpuExtBytes(exts[0].units, FirstKind(exts[1..])) + ExtsBytes(exts[1..])
  }

  lemma ExtHeaderReads(s: Span, units: byte, next: byte, rest: seq<byte>)
    requires s.Valid() && units >= 1 && s.data == GtpuExtBytes(units, next) + rest
    ensures GtpuExtHeader(s) == ExtHeader(Ok, 4 * (units as nat))
    ensures s.data[4 * (units as nat) - 1] == next
    ensures Advance(s, 4 * (units as nat)) == Span(s.off + 4 * (units as nat), rest, s.wire - 4 * (units as nat))
  {
    hide Fill;
    assert s.data[0] == units;
    assert s.data[4 * (units as nat)..] == rest;
  }

  /** A chain of up to sixteen headers is walked to its end; a longer one is refused. */
  lemma {:induction false} ExtsWalk(off: nat, exts: seq<Ext>, body: seq<byte>, hops: nat)
    requires ExtsFit(exts) && hops <= GTPU_MAX_EXT_HEADERS
    ensures var b := ExtsBytes(exts) + body; var r := WalkGtpuExt(Span(off, b, |b|), FirstKind(exts), hops);
            if hops + |exts| <= GTPU_MAX_EXT_HEADERS
            then r == ExtResult(Ok, hops + |exts|, Span(off + |ExtsBytes(exts)|, body, |body|))
            else r.status == BadGtpuExt && r.count == GTPU_MAX_EXT_HEADERS
    decreases |exts|
  {
    hide WalkGtpuExt, GtpuExtHeader, GtpuExtBytes, Advance;
    var b := ExtsBytes(exts) + body;
    var s := Span(off, b, |b|);
    GtpuExtStep(s, FirstKind(exts), hops);
    if exts == [] {
      assert b == body;
    } else if hops < GTPU_MAX_EXT_HEADERS {
      var tail := ExtsBytes(exts[1..]) + body;
      Assoc(GtpuExtBytes(exts[0].units, FirstKind(exts[1..])), ExtsBytes(exts[1..]), body);
      ExtHeaderReads(s, exts[0].units, FirstKind(exts[1..]), tail);
      ExtsWalk(off + 4 * (exts[0].units as nat), exts[1..], body, hops + 1);
    }
  }

  datatype Payload = UserData(ip: Ip, t: Transport) | Elements(msgType: byte, bytes: seq<byte>)

  /** A GTPv1-U message with its optional fields, extension headers and payload. */
  datatype Message = Message(flags: byte, teid: uint32, seqNo: uint16, npdu: byte, exts: seq<Ext>, payload: Payload)

  function MessageType(m: Message): byte {
    match m.payload
    case UserData(_, _) => GTPU_MSG_GPDU
    case Elements(t, _) => t
  }

  predicate PayloadFits(p: Payload) {
    match p
    case UserData(ip, t) => IpFits(ip, t) && TransportFits(t)
    case Elements(t, _) => t != GTPU_MSG_GPDU
  }

  function PayloadBytes(p: Payload): seq<byte>
    requires PayloadFits(p)
  {
    match p
    case UserData(ip, t) => PacketBytes(ip, t)
    case Elements(_, bytes) => bytes
  }

  /** The flags announce what is written, and everything fits the length field. */
  predicate MessageFits(m: Message) {
    && IsGtpV1U(m.flags)
    && ExtsFit(m.exts)
    && (m.exts != [] ==> GtpuFlagE(m.flags))
    && PayloadFits(m.payload)
    && |OptionBytes(m)| + |ExtsBytes(m.exts)| + |PayloadBytes(m.payload)| < 0x1_0000
  }

  function OptionBytes(m: Message): seq<byte> {
    if GtpuHasOptions(m.flags) then GtpuOptBytes(m.seqNo, m.npdu, FirstKind(m.exts)) else []
  }

  function TailBytes(m: Message): seq<byte>
    requires MessageFits(m)
  {
    OptionBytes(m) + (ExtsBytes(m.exts) + PayloadBytes(m.payload))
  }

  function MessageBytes(m: Message): seq<byte>
    requires MessageFits(m)
  {
    GtpuBytes(m.flags, MessageType(m), |TailBytes(m)|, m.teid) + TailBytes(m)
  }

  /** What the decoder is expected to keep of it. */
  function MessageGtp(m: Message): Gtp {
    var seqNo := if GtpuFlagS(m.flags) then m.seqNo else 0;
    var g := Gtp(true, Ok, true, m.flags, MessageType(m), true, seqNo, m.teid, |m.exts|);
    if |m.exts| <= GTPU_MAX_EXT_HEADERS then g
    else g.(status := BadGtpuExt, msgOk := false, extCount := GTPU_MAX_EXT_HEADERS)
  }

  function MessageInner(m: Message): Inner
    requires PayloadFits(m.payload)
  {
    if m.payload.UserData? && |m.exts| <= GTPU_MAX_EXT_HEADERS then UserInner(m.payload.ip, m.payload.t)
    else NO_INNER
  }

  lemma BodyDecodes(m: Message, off: nat, g: Gtp)
    requires MessageFits(m) && g == MessageGtp(m).(status := Ok, msgOk := false, extCount := 0)
    ensures var b := ExtsBytes(m.exts) + PayloadBytes(m.payload);
            var r := DecodeGtpuBody(Span(off, b, |b|), FirstKind(m.exts), g);
            r.gtp == MessageGtp(m) && r.inner == MessageInner(m)
  {
    hide WalkGtpuExt, DecodeInnerIp, InnerOf, PacketBytes, UserInner, ExtsBytes;
    ExtsWalk(off, m.exts, PayloadBytes(m.payload), 0);
    if m.payload.UserData? {
      UserDecodes(m.payload.ip, m.payload.t, off + |ExtsBytes(m.exts)|);
    }
  }

  lemma OptionsRead(data: seq<byte>, seqNo: uint16, npdu: byte, next: byte, rest: seq<byte>)
    requires data == GtpuOptBytes(seqNo, npdu, next) + rest
    ensures LoadBe16(data, 0) == seqNo && data[3] == next && data[4..] == rest
  {
    hide Be16;
    assert data[0..2] == Be16(seqNo);
    Load16(data, 0, seqNo);
  }

  lemma OptionsDecode(m: Message, off: nat, g: Gtp)
    requires MessageFits(m) && g == MessageGtp(m).(status := Ok, msgOk := false, extCount := 0, seqNo := 0)
    ensures var b := TailBytes(m); var r := DecodeGtpuOptions(Span(off, b, |b|), g);
            r.gtp == MessageGtp(m) && r.inner == MessageInner(m)
  {
    hide DecodeGtpuBody, ExtsBytes, PayloadBytes, MessageInner, GtpuOptBytes, LoadBe16, GtpuFlagS, GtpuFlagE,
      GtpuFlagPn, IsGtpV1U;
    var b, body := TailBytes(m), ExtsBytes(m.exts) + PayloadBytes(m.payload);
    if GtpuHasOptions(m.flags) {
      OptionsRead(b, m.seqNo, m.npdu, FirstKind(m.exts), body);
      BodyDecodes(m, off + 4, g.(seqNo := if GtpuFlagS(m.flags) then m.seqNo else 0));
    } else {
      assert b == body;
      BodyDecodes(m, off, g);
    }
  }

  lemma GtpuReads(data: seq<byte>, flags: byte, msgType: byte, length: nat, teid: uint32, rest: seq<byte>)
    requires data == GtpuBytes(flags, msgType, length, teid) + rest && length < 0x1_0000
    ensures data[0] == flags && data[1] == msgType && LoadBe16(data, 2) == length && LoadBe32(data, 4) == teid
    ensures data[8..] == rest
  {
    hide Be16, Be32;
    assert data[2..4] == Be16(length);
    assert data[4..8] == Be32(teid);
    Load16(data, 2, length);
    Load32(data, 4, teid);
  }

  /** A message written by the builder is decoded to what it was built from; with more than sixteen
      extension headers it is refused with the matching reason. */
  lemma MessageDecodes(m: Message, off: nat)
    requires MessageFits(m)
    ensures var b := MessageBytes(m); var r := DecodeGtpu(Span(off, b, |b|));
            r.gtp == MessageGtp(m) && r.inner == MessageInner(m)
  {
    hide DecodeGtpuOptions, TailBytes, MessageInner, LoadBe16, LoadBe32, GtpuBytes;
    var b, tail := MessageBytes(m), TailBytes(m);
    TailLength(m);
    GtpuReads(b, m.flags, MessageType(m), |tail|, m.teid, tail);
    var s := Span(off, b, |b|);
    assert Clip(Advance(s, 8), |tail|) == Span(off + 8, tail, |tail|) by {
      assert tail[..|tail|] == tail;
    }
    OptionsDecode(m, off + 8, GtpuFields(s));
  }

  lemma TailLength(m: Message)
    requires MessageFits(m)
    ensures |TailBytes(m)| < 0x1_0000
  {
  }

  // ----- The whole frame -----

  /** Around the message: VLAN tags, an IPv4 header with options or an IPv6 header with its chain, and
      UDP. `pad` is whatever follows the IP packet in the frame. */
  datatype Outer = Outer(tags: seq<Tag>, ip: Ip, sport: uint16, dport: uint16, pad: seq<byte>)

  function Datagram(o: Outer, message: seq<byte>): Transport {
    Udp(o.sport, o.dport, message)
  }

  /** A datagram of port 2152 that is not fragmented and whose lengths fit their fields. */
  predicate OuterFits(o: Outer, message: seq<byte>) {
    && TagsFit(o.tags) && |o.tags| <= DECODE_MAX_VLANS
    && IpFits(o.ip, Datagram(o, message)) && TransportFits(Datagram(o, message))
    && PacketL3(o.ip, Datagram(o, message)).frag == FragNone
    && (o.sport == GTPU_PORT || o.dport == GTPU_PORT)
  }

  function FrameBytes(o: Outer, message: seq<byte>): seq<byte>
    requires OuterFits(o, message)
  {
    TaggedBytes(o.tags, TypeOf(o.ip), PacketBytes(o.ip, Datagram(o, message)) + o.pad)
  }

  lemma OuterDecodes(o: Outer, message: seq<byte>)
    requires OuterFits(o, message)
    ensures var f := FrameBytes(o, message); var seg := SegmentBytes(Datagram(o, message));
            var r := DecodeOuter(FrameSpan(f, |f|));
            r == OuterResult(Ok, L2(true, TypeOf(o.ip), Vids(o.tags)), PacketL3(o.ip, Datagram(o, message)),
                             L4(true, o.sport, o.dport, 0, 0, 0), Span(r.rest.off, seg, |seg|))
  {
    hide TaggedBytes, DecodeOuter, DecodeNetwork, PacketBytes, PacketL3, SegmentBytes, IpFits, TransportFits, Vids;
    var d := Datagram(o, message);
    TaggedDecodes(o.tags, TypeOf(o.ip), PacketBytes(o.ip, d) + o.pad);
    PacketDecodes(o.ip, d, 14 + 4 * |o.tags|, o.pad);
  }

  /** The round trip: whatever is written header by header, with up to two VLAN tags, IPv4 options or
      an IPv6 chain, optional fields, extension headers and padding, decodes to the same values. */
  lemma FrameDecodes(o: Outer, m: Message)
    requires MessageFits(m) && OuterFits(o, MessageBytes(m))
    ensures var f := FrameBytes(o, MessageBytes(m));
            DecodeFrame(f, |f|) ==
            PacketInfo(Ok, L2(true, TypeOf(o.ip), Vids(o.tags)), PacketL3(o.ip, Datagram(o, MessageBytes(m))),
                       L4(true, o.sport, o.dport, 0, 0, 0), MessageGtp(m), MessageInner(m))
  {
    hide DecodeOuter, DecodeGtpu, FrameBytes, MessageBytes, MessageGtp, MessageInner, PacketL3, UdpBytes, IpFits,
      TransportFits;
    var message := MessageBytes(m);
    var f := FrameBytes(o, message);
    OuterDecodes(o, message);
    AtLeastHeader(m);
    DatagramIsUdp(o, message);
    var r := DecodeOuter(FrameSpan(f, |f|));
    assert SegmentBytes(Datagram(o, message))[8..] == message;
    assert GtpuSpan(r) == Span(r.rest.off + 8, message, |message|);
    MessageDecodes(m, r.rest.off + 8);
  }

  lemma DatagramIsUdp(o: Outer, message: seq<byte>)
    requires OuterFits(o, message)
    ensures PacketL3(o.ip, Datagram(o, message)).proto == PROTO_UDP
  {
    hide IpFits, TransportFits;
    ProtoKept(o.ip, Datagram(o, message));
  }

  lemma AtLeastHeader(m: Message)
    requires MessageFits(m)
    ensures |MessageBytes(m)| >= 8
  {
  }
}
