/** src/decode.c as it runs: a cursor over the capture buffer shrinks step by step while the fields
    of the packet record are filled in. Every method is proved to compute the function of the same
    name in DecodeSpec.dfy, and every read to stay below the captured length. */
module Decoder {
  import opened Bytes
  import opened Packet
  import opened DecodeSpec

  /** The `span`: a position in the buffer and the two lengths that govern it. */
  class Cursor {
    const buf: array<byte>
    const base: nat
    const limit: nat
    var p: nat
    var cap: nat
    var wire: nat

    ghost predicate Valid()
      reads this
    {
      base <= p && p + cap <= limit <= buf.Length && cap <= wire
    }

    ghost function View(): (s: Span)
      requires Valid()
      reads this, buf
      ensures s.Valid() && s.off == p - base && |s.data| == cap && s.wire == wire
    {
      Span(p - base, buf[p..p + cap], wire)
    }

    /** The frame is `caplen` bytes of the buffer from `start` on. */
    constructor (frame: array<byte>, start: nat, caplen: nat, wirelen: nat)
      requires start + caplen <= frame.Length
      ensures Valid() && buf == frame && View() == FrameSpan(frame[start..start + caplen], wirelen)
    {
      buf := frame;
      base := start;
      limit := start + caplen;
      p := start;
      cap := caplen;
      wire := if wirelen > caplen then wirelen else caplen;
    }

    function At(i: nat): (b: byte)
      requires Valid() && i < cap
      reads this, buf
      ensures b == View().data[i]
    {
      buf[p + i]
    }

    function Be16(i: nat): (v: uint16)
      requires Valid() && i + 2 <= cap
      reads this, buf
      ensures v == LoadBe16(View().data, i)
    {
      buf[p + i] as nat * 0x100 + buf[p + i + 1]
    }

    function Be32(i: nat): (v: uint32)
      requires Valid() && i + 4 <= cap
      reads this, buf
      ensures v == LoadBe32(View().data, i)
    {
      buf[p + i] as nat * 0x100_0000 + buf[p + i + 1] as nat * 0x1_0000 + buf[p + i + 2] as nat * 0x100 + buf[p + i + 3]
    }

    /** `n` bytes copied out of the buffer. */
    function Copy(i: nat, n: nat): (a: seq<byte>)
      requires Valid() && i + n <= cap
      reads this, buf
      ensures a == View().data[i..i + n]
    {
      buf[p..p + cap][i..i + n]
    }

    method Need(n: nat, truncated: DecodeStatus, malformed: DecodeStatus) returns (st: DecodeStatus)
      requires Valid()
      ensures st == DecodeSpec.Need(View(), n, truncated, malformed)
    {
      if n <= cap {
        return Ok;
      }
      return if n <= wire then truncated else malformed;
    }

    method Advance(n: nat)
      requires Valid() && n <= cap
      modifies this`p, this`cap, this`wire
      ensures Valid() && View() == DecodeSpec.Advance(old(View()), n)
    {
      p, cap, wire := p + n, cap - n, wire - n;
    }

    method Clip(len: nat)
      requires Valid()
      modifies this`cap, this`wire
      ensures Valid() && View() == DecodeSpec.Clip(old(View()), len)
    {
      if cap > len {
        cap := len;
      }
      wire := len;
    }
  }

  /** The caller's `packet_info`. */
  class PacketRecord {
    var status: DecodeStatus
    var l2: L2
    var l3: L3
    var l4: L4
    var gtp: Gtp
    var inner: Inner

    constructor ()
      ensures Info() == NO_PACKET && l3 == NO_L3 && l4 == NO_L4
    {
      status, l2, l3, l4, gtp, inner := Ok, NO_L2, NO_L3, NO_L4, NO_GTP, NO_INNER;
    }

    function Info(): PacketInfo
      reads this
    {
      PacketInfo(status, l2, l3, l4, gtp, inner)
    }

    method Clear()
      modifies this
      ensures Info() == NO_PACKET
    {
      status, l2, l3, l4, gtp, inner := Ok, NO_L2, NO_L3, NO_L4, NO_GTP, NO_INNER;
    }
  }

  method DecodeTcp(s: Cursor, pi: PacketRecord) returns (st: DecodeStatus)
    requires s.Valid() && pi.l4 == NO_L4
    modifies pi`l4
    ensures L4Result(st, pi.l4, s.View()) == DecodeSpec.DecodeTcp(old(s.View()))
  {
    st := s.Need(TCP_MIN_HDR, TruncTcp, BadL4Len);
    if st != Ok {
      return;
    }
    var hlen := s.At(12) as nat / 16 * 4;
    pi.l4 := pi.l4.(srcPort := s.Be16(0), dstPort := s.Be16(2), tcpFlags := s.At(13));
    if hlen < TCP_MIN_HDR || hlen > s.wire {
      return BadTcpDoff;
    }
    if hlen > s.cap {
      return TruncTcp;
    }
    pi.l4 := pi.l4.(present := true);
  }

  method DecodeUdp(s: Cursor, pi: PacketRecord) returns (st: DecodeStatus)
    requires s.Valid() && pi.l4 == NO_L4
    modifies s`p, s`cap, s`wire, pi`l4
    ensures s.Valid()
    ensures L4Result(st, pi.l4, s.View()) == DecodeSpec.DecodeUdp(old(s.View()), pi.l3.frag)
  {
    st := s.Need(UDP_HDR_LEN, TruncUdp, BadL4Len);
    if st != Ok {
      return;
    }
    var ulen := s.Be16(4);
    pi.l4 := pi.l4.(srcPort := s.Be16(0), dstPort := s.Be16(2));
    if ulen < UDP_HDR_LEN || (pi.l3.frag == FragNone && ulen > s.wire) {
      return BadUdpLen;
    }
    if pi.l3.frag == FragNone {
      s.Clip(ulen);
    }
    pi.l4 := pi.l4.(present := true);
  }

  method DecodeIcmp(s: Cursor, pi: PacketRecord) returns (st: DecodeStatus)
    requires s.Valid() && pi.l4 == NO_L4
    modifies pi`l4
    ensures L4Result(st, pi.l4, s.View()) == DecodeSpec.DecodeIcmp(old(s.View()))
  {
    st := s.Need(ICMP_MIN_HDR, TruncIcmp, BadL4Len);
    if st != Ok {
      return;
    }
    pi.l4 := pi.l4.(icmpType := s.At(0), icmpCode := s.At(1), present := true);
  }

  method DecodeL4(s: Cursor, pi: PacketRecord) returns (st: DecodeStatus)
    requires s.Valid() && pi.l4 == NO_L4
    modifies s`p, s`cap, s`wire, pi`l4
    ensures s.Valid()
    ensures L4Result(st, pi.l4, s.View()) == DecodeSpec.DecodeL4(old(s.View()), pi.l3.proto, pi.l3.frag)
  {
    hide Cursor.View, DecodeSpec.DecodeTcp, DecodeSpec.DecodeUdp, DecodeSpec.DecodeIcmp;
    if pi.l3.proto == PROTO_TCP {
      st := DecodeTcp(s, pi);
    } else if pi.l3.proto == PROTO_UDP {
      st := DecodeUdp(s, pi);
    } else if pi.l3.proto == PROTO_ICMP || pi.l3.proto == PROTO_ICMPV6 {
      st := DecodeIcmp(s, pi);
    } else {
      st := Ok;
    }
  }

  /** The checks on the fixed header, none of which moves the cursor. */
  method CheckIpv4(s: Cursor) returns (st: DecodeStatus, hlen: nat, total: nat)
    requires s.Valid()
    ensures st == Ipv4Verdict(s.View())
    ensures st == Ok ==> hlen == Ipv4HeaderLen(s.View()) && total == Ipv4TotalLen(s.View())
  {
    hlen, total := 0, 0;
    st := s.Need(IPV4_MIN_HDR, TruncIpv4, BadShortFrame);
    if st != Ok {
      return;
    }
    if s.At(0) / 16 != 4 {
      st := BadIpv4Version;
      return;
    }
    hlen := s.At(0) as nat % 16 * 4;
    if hlen < IPV4_MIN_HDR {
      st := BadIpv4Ihl;
      return;
    }
    total := s.Be16(2);
    if total == 0 {
      total := s.wire;
    }
    if total < hlen || total > s.wire {
      st := BadIpv4TotalLen;
    } else if hlen > s.cap {
      st := TruncIpv4;
    }
  }

  method DecodeIpv4(s: Cursor, pi: PacketRecord) returns (st: DecodeStatus)
    requires s.Valid() && pi.l3 == NO_L3 && pi.l4 == NO_L4
    modifies s`p, s`cap, s`wire, pi`l3, pi`l4
    ensures s.Valid()
    ensures IpResult(st, pi.l3, pi.l4, s.View()) == DecodeSpec.DecodeIpv4(old(s.View()))
  {
    hide Cursor.View, DecodeSpec.DecodeL4, Ipv4Verdict, Ipv4TotalLen, Ipv4HeaderLen, LoadBe16, Padded;
    var hlen, total;
    st, hlen, total := CheckIpv4(s);
    if st != Ok {
      return;
    }
    var word := s.Be16(6);
    pi.l3 := pi.l3.(version := 4, proto := s.At(9), src := Padded(s.Copy(12, 4)), dst := Padded(s.Copy(16, 4)),
                    fragId := s.Be16(4));
    if word % 0x2000 != 0 {
      pi.l3 := pi.l3.(frag := FragLater);
    } else if word / 0x2000 % 2 == 1 {
      pi.l3 := pi.l3.(frag := FragFirst);
    }
    pi.l3 := pi.l3.(present := true);
    assert pi.l3 == Ipv4L3(s.View());
    s.Clip(total);
    s.Advance(hlen);
    if pi.l3.frag != FragLater {
      st := DecodeL4(s, pi);
    }
  }

  /** Is there room for the IPv6 extension header of type `next`, and how long is it? */
  method Ipv6ExtRoom(s: Cursor, next: byte) returns (st: DecodeStatus, len: nat)
    requires s.Valid()
    ensures ExtHeader(st, len) == Ipv6ExtHeader(s.View(), next)
  {
    if next == IP6_EXT_FRAGMENT {
      len := IPV6_FRAG_LEN;
      st := s.Need(len, TruncIpv6Ext, BadIpv6Ext);
    } else {
      len := 2;
      st := s.Need(2, TruncIpv6Ext, BadIpv6Ext);
      if st == Ok {
        len := (s.At(1) as nat + 1) * 8;
        st := s.Need(len, TruncIpv6Ext, BadIpv6Ext);
      }
    }
  }

  /** The loop over the extension headers, up to and including the assignment of the protocol. */
  method WalkIpv6(s: Cursor, pi: PacketRecord, first: byte) returns (st: DecodeStatus)
    requires s.Valid() && pi.l3.frag != FragLater
    modifies s`p, s`cap, s`wire, pi`l3
    ensures s.Valid()
    ensures ChainResult(st, pi.l3, s.View()) == DecodeSpec.WalkIpv6(old(s.View()), first, 0, old(pi.l3))
  {
    hide Cursor.View, Ipv6Frag, LoadBe16, LoadBe32, Ipv6ExtHeader, DecodeSpec.WalkIpv6, DecodeSpec.Advance;
    ghost var goal := DecodeSpec.WalkIpv6(s.View(), first, 0, pi.l3);
    var next, hops := first, 0;
    while IsIpv6Ext(next)
      invariant s.Valid() && hops <= IPV6_MAX_EXT_HEADERS
      invariant DecodeSpec.WalkIpv6(s.View(), next, hops, pi.l3) == goal
      decreases IPV6_MAX_EXT_HEADERS - hops
    {
      Ipv6ExtStep(s.View(), next, hops, pi.l3);
      if hops == IPV6_MAX_EXT_HEADERS {
        return BadIpv6Ext;
      }
      hops := hops + 1;
      var len;
      st, len := Ipv6ExtRoom(s, next);
      if st != Ok {
        return;
      }
      var isFragment := next == IP6_EXT_FRAGMENT;
      if isFragment {
        pi.l3 := pi.l3.(fragId := s.Be32(4), frag := Ipv6Frag(s.Be16(2), pi.l3.frag));
      }
      next := s.At(0);
      s.Advance(len);
      if isFragment && pi.l3.frag == FragLater {
        pi.l3 := pi.l3.(proto := next);
        return Ok;
      }
    }
    Ipv6ExtStep(s.View(), next, hops, pi.l3);
    pi.l3 := pi.l3.(proto := next);
    return Ok;
  }

  method DecodeIpv6(s: Cursor, pi: PacketRecord) returns (st: DecodeStatus)
    requires s.Valid() && pi.l3 == NO_L3 && pi.l4 == NO_L4
    modifies s`p, s`cap, s`wire, pi`l3, pi`l4
    ensures s.Valid()
    ensures IpResult(st, pi.l3, pi.l4, s.View()) == DecodeSpec.DecodeIpv6(old(s.View()))
  {
    hide Cursor.View, Cursor.Be16, Cursor.Copy, LoadBe16, DecodeSpec.DecodeL4, DecodeSpec.WalkIpv6;
    st := s.Need(IPV6_HDR_LEN, TruncIpv6, BadShortFrame);
    if st != Ok {
      return;
    }
    if s.At(0) / 16 != 6 {
      return BadIpv6Version;
    }
    var payload := s.Be16(4);
    if payload > s.wire - IPV6_HDR_LEN {
      return BadIpv6PayloadLen;
    }
    pi.l3 := pi.l3.(version := 6);
    var next := s.At(6);
    pi.l3 := pi.l3.(src := s.Copy(8, 16));
    pi.l3 := pi.l3.(dst := s.Copy(24, 16));
    pi.l3 := pi.l3.(present := true);
    s.Advance(IPV6_HDR_LEN);
    s.Clip(payload);
    st := WalkIpv6(s, pi, next);
    if st != Ok || pi.l3.frag == FragLater {
      return;
    }
    st := DecodeL4(s, pi);
  }

  /** Keep whatever was valid, even if decoding failed further in. */
  method CopyInner(scratch: PacketRecord, pi: PacketRecord)
    requires pi.inner == NO_INNER
    modifies pi`inner
    ensures pi.inner == InnerOf(scratch.l3, scratch.l4)
  {
    if scratch.l3.present {
      pi.inner := pi.inner.(present := true, version := scratch.l3.version, proto := scratch.l3.proto,
                            src := scratch.l3.src, dst := scratch.l3.dst);
    }
    if scratch.l4.present {
      pi.inner := pi.inner.(hasL4 := true, srcPort := scratch.l4.srcPort, dstPort := scratch.l4.dstPort);
      pi.inner := pi.inner.(nested := IsGtpuPort(scratch.l3, scratch.l4));
    }
  }

  /** The version nibble of the user packet chooses its decoder. */
  method DecodeScratch(s: Cursor, scratch: PacketRecord) returns (st: DecodeStatus)
    requires s.Valid() && scratch.l3 == NO_L3 && scratch.l4 == NO_L4
    modifies s`p, s`cap, s`wire, scratch`l3, scratch`l4
    ensures s.Valid()
    ensures IpResult(st, scratch.l3, scratch.l4, s.View()) == DecodeInnerIp(old(s.View()))
  {
    hide Cursor.View, DecodeSpec.DecodeIpv4, DecodeSpec.DecodeIpv6;
    st := s.Need(1, TruncGtpuInner, BadGtpuInner);
    if st != Ok {
      return;
    }
    if s.At(0) / 16 == 4 {
      st := DecodeIpv4(s, scratch);
    } else if s.At(0) / 16 == 6 {
      st := DecodeIpv6(s, scratch);
    } else {
      return BadGtpuInner;
    }
    if st == BadShortFrame {
      st := BadGtpuInnerShort;
    }
  }

  /** The user packet goes through the same decoders, into a scratch record. */
  method DecodeGtpuInner(s: Cursor, pi: PacketRecord) returns (st: DecodeStatus)
    requires s.Valid() && pi.inner == NO_INNER
    modifies s`p, s`cap, s`wire, pi`inner
    ensures s.Valid()
    ensures var r := DecodeInnerIp(old(s.View())); st == r.status && pi.inner == InnerOf(r.l3, r.l4)
  {
    hide Cursor.View, DecodeInnerIp, InnerOf;
    var scratch := new PacketRecord();
    st := DecodeScratch(s, scratch);
    CopyInner(scratch, pi);
  }

  /** Is there room for a GTP-U extension header, and how long is it? */
  method GtpuExtRoom(s: Cursor) returns (st: DecodeStatus, len: nat)
    requires s.Valid()
    ensures ExtHeader(st, len) == GtpuExtHeader(s.View())
  {
    len := 1;
    st := s.Need(1, TruncGtpuExt, BadGtpuExt);
    if st == Ok {
      len := s.At(0) as nat * 4;
      if len == 0 {
        st := BadGtpuExtLen;
      } else {
        st := s.Need(len, TruncGtpuExt, BadGtpuExt);
      }
    }
  }

  /** The loop over the GTP-U extension headers. */
  method WalkGtpuExt(s: Cursor, pi: PacketRecord, first: byte) returns (st: DecodeStatus)
    requires s.Valid() && pi.gtp.extCount == 0
    modifies s`p, s`cap, s`wire, pi`gtp
    ensures s.Valid()
    ensures var r := DecodeSpec.WalkGtpuExt(old(s.View()), first, 0);
            st == r.status && s.View() == r.rest && pi.gtp == old(pi.gtp).(extCount := r.count)
  {
    hide Cursor.View, GtpuExtHeader, DecodeSpec.WalkGtpuExt, DecodeSpec.Advance;
    ghost var goal, g := DecodeSpec.WalkGtpuExt(s.View(), first, 0), pi.gtp;
    var next, hops := first, 0;
    while next != 0
      invariant s.Valid() && hops <= GTPU_MAX_EXT_HEADERS && pi.gtp == g.(extCount := hops)
      invariant DecodeSpec.WalkGtpuExt(s.View(), next, hops) == goal
      decreases GTPU_MAX_EXT_HEADERS - hops
    {
      GtpuExtStep(s.View(), next, hops);
      if hops == GTPU_MAX_EXT_HEADERS {
        return BadGtpuExt;
      }
      var len;
      st, len := GtpuExtRoom(s);
      if st != Ok {
        return;
      }
      next := s.At(len - 1);
      s.Advance(len);
      hops := hops + 1;
      pi.gtp := pi.gtp.(extCount := hops);
    }
    GtpuExtStep(s.View(), next, hops);
    return Ok;
  }

  /** Everything behind the fixed header and the optional fields. */
  method DecodeGtpuBody(s: Cursor, pi: PacketRecord, next: byte) returns (st: DecodeStatus)
    requires s.Valid() && pi.gtp.extCount == 0 && pi.inner == NO_INNER && pi.gtp.status == Ok
    modifies s`p, s`cap, s`wire, pi`gtp, pi`inner
    ensures s.Valid()
    ensures var r := DecodeSpec.DecodeGtpuBody(old(s.View()), next, old(pi.gtp));
            pi.gtp.(status := st) == r.gtp && pi.inner == r.inner
  {
    hide Cursor.View, DecodeSpec.WalkGtpuExt, DecodeInnerIp, InnerOf;
    st := WalkGtpuExt(s, pi, next);
    if st != Ok {
      return;
    }
    pi.gtp := pi.gtp.(msgOk := true);
    if pi.gtp.msgType != GTPU_MSG_GPDU {
      return Ok;
    }
    st := DecodeGtpuInner(s, pi);
  }

  /** The optional fields, if any option bit announces them, and what follows. */
  method DecodeGtpuOptions(s: Cursor, pi: PacketRecord) returns (st: DecodeStatus)
    requires s.Valid() && pi.gtp.extCount == 0 && pi.inner == NO_INNER && pi.gtp.status == Ok
    modifies s`p, s`cap, s`wire, pi`gtp, pi`inner
    ensures s.Valid()
    ensures var r := DecodeSpec.DecodeGtpuOptions(old(s.View()), old(pi.gtp));
            pi.gtp.(status := st) == r.gtp && pi.inner == r.inner
  {
    hide Cursor.View, DecodeSpec.DecodeGtpuBody, GtpuFlagE, GtpuFlagS, GtpuHasOptions, LoadBe16;
    var next := 0;
    var flags := pi.gtp.flags;
    if GtpuHasOptions(flags) {
      st := s.Need(GTPU_OPT_LEN, TruncGtpu, BadGtpuLen);
      if st != Ok {
        return;
      }
      if GtpuFlagS(flags) {
        pi.gtp := pi.gtp.(seqNo := s.Be16(0));
      }
      if GtpuFlagE(flags) {
        next := s.At(3);
      }
      s.Advance(GTPU_OPT_LEN);
    }
    st := DecodeGtpuBody(s, pi, next);
  }

  method DecodeGtpu(s: Cursor, pi: PacketRecord) returns (st: DecodeStatus)
    requires s.Valid() && s.wire >= GTPU_HDR_LEN
    requires pi.gtp == NO_GTP.(isGtpu := true) && pi.inner == NO_INNER
    modifies s`p, s`cap, s`wire, pi`gtp, pi`inner
    ensures s.Valid()
    ensures var r := DecodeSpec.DecodeGtpu(old(s.View())); pi.gtp.(status := st) == r.gtp && pi.inner == r.inner
  {
    hide Cursor.View, DecodeSpec.DecodeGtpuOptions, LoadBe16, LoadBe32;
    st := s.Need(GTPU_HDR_LEN, TruncGtpu, BadGtpuLen);
    if st != Ok {
      return;
    }
    var flags := s.At(0);
    if flags / 32 != 1 || flags / 16 % 2 != 1 {
      return Ok;
    }
    var len := s.Be16(2);
    pi.gtp := pi.gtp.(v1u := true, flags := flags, msgType := s.At(1), teid := s.Be32(4));
    if len > s.wire - GTPU_HDR_LEN {
      return BadGtpuLen;
    }
    s.Advance(GTPU_HDR_LEN);
    s.Clip(len);
    st := DecodeGtpuOptions(s, pi);
  }

  /** The loop over the VLAN tags; `first` sat where the ethertype belongs. */
  method WalkVlans(s: Cursor, pi: PacketRecord, first: uint16) returns (st: DecodeStatus, ethertype: uint16)
    requires s.Valid() && pi.l2 == NO_L2
    modifies s`p, s`cap, s`wire, pi`l2
    ensures s.Valid() && pi.l2 == NO_L2.(vlans := pi.l2.vlans)
    ensures VlanResult(st, ethertype, pi.l2.vlans, s.View()) == DecodeSpec.WalkVlans(old(s.View()), first, [])
  {
    hide Cursor.View, Cursor.Be16, DecodeSpec.WalkVlans, IsVlanTag;
    ghost var goal := DecodeSpec.WalkVlans(s.View(), first, []);
    ethertype := first;
    while IsVlanTag(ethertype)
      invariant s.Valid() && pi.l2 == NO_L2.(vlans := pi.l2.vlans) && |pi.l2.vlans| <= DECODE_MAX_VLANS
      invariant DecodeSpec.WalkVlans(s.View(), ethertype, pi.l2.vlans) == goal
      decreases DECODE_MAX_VLANS - |pi.l2.vlans|
    {
      VlanStep(s.View(), ethertype, pi.l2.vlans);
      if |pi.l2.vlans| == DECODE_MAX_VLANS {
        return BadVlanDepth, ethertype;
      }
      st := s.Need(VLAN_TAG_LEN, TruncVlan, BadShortFrame);
      if st != Ok {
        return;
      }
      pi.l2 := pi.l2.(vlans := pi.l2.vlans + [s.Be16(0) % 0x1000]);
      ethertype := s.Be16(2);
      s.Advance(VLAN_TAG_LEN);
    }
    VlanStep(s.View(), ethertype, pi.l2.vlans);
    st := Ok;
  }

  /** The frame up to the GTP-U message. */
  method DecodeOuter(s: Cursor, pi: PacketRecord) returns (st: DecodeStatus)
    requires s.Valid() && pi.Info() == NO_PACKET
    modifies s`p, s`cap, s`wire, pi`l2, pi`l3, pi`l4
    ensures s.Valid()
    ensures OuterResult(st, pi.l2, pi.l3, pi.l4, s.View()) == DecodeSpec.DecodeOuter(old(s.View()))
  {
    hide Cursor.View, DecodeSpec.DecodeIpv4, DecodeSpec.DecodeIpv6, DecodeSpec.WalkVlans;
    st := s.Need(ETH_HDR_LEN, TruncEthernet, BadShortFrame);
    if st != Ok {
      return;
    }
    var ethertype := s.Be16(12);
    s.Advance(ETH_HDR_LEN);
    st, ethertype := WalkVlans(s, pi, ethertype);
    if st != Ok {
      return;
    }
    pi.l2 := pi.l2.(ethertype := ethertype);
    pi.l2 := pi.l2.(present := true);
    if ethertype == ETHERTYPE_IPV4 {
      st := DecodeIpv4(s, pi);
    } else if ethertype == ETHERTYPE_IPV6 {
      st := DecodeIpv6(s, pi);
    } else {
      st := Ok;
    }
  }

  /** Only the `caplen` bytes from `start` on have any influence on the result. */
  method DecodeFrame(frame: array<byte>, start: nat, caplen: nat, wirelen: nat, pi: PacketRecord)
    returns (st: DecodeStatus)
    requires start + caplen <= frame.Length
    modifies pi
    ensures pi.Info() == DecodeSpec.DecodeFrame(frame[start..start + caplen], wirelen)
    ensures st == pi.status
  {
    hide Cursor.View, DecodeSpec.DecodeOuter, DecodeSpec.DecodeGtpu, FrameSpan, IsGtpuPort;
    pi.Clear();
    var s := new Cursor(frame, start, caplen, wirelen);
    st := DecodeOuter(s, pi);
    pi.status := st;
    if pi.status == Ok && pi.l3.frag == FragNone && IsGtpuPort(pi.l3, pi.l4)
       && s.wire >= UDP_HDR_LEN + GTPU_HDR_LEN {
      GtpuIsUdp(pi.l3, pi.l4);
      pi.gtp := pi.gtp.(isGtpu := true);
      s.Advance(UDP_HDR_LEN);
      var gst := DecodeGtpu(s, pi);
      pi.gtp := pi.gtp.(status := gst);
    }
  }

  lemma GtpuIsUdp(l3: L3, l4: L4)
    requires IsGtpuPort(l3, l4)
    ensures l4.present && l3.proto == PROTO_UDP
  {
  }
}
