/** src/decode.c on values: each stage maps the span it is given to a status, the fields it fills
    in and the span it leaves behind. Decoder.dfy runs the same stages step by step on a buffer
    and is proved to compute these functions; DecodeProofs.dfy says what they mean. */
module DecodeSpec {
  import opened Bytes
  import opened Packet

  const ETH_HDR_LEN: nat := 14
  const VLAN_TAG_LEN: nat := 4
  const IPV4_MIN_HDR: nat := 20
  const IPV6_HDR_LEN: nat := 40
  const IPV6_FRAG_LEN: nat := 8
  const TCP_MIN_HDR: nat := 20
  const UDP_HDR_LEN: nat := 8
  const ICMP_MIN_HDR: nat := 4
  const GTPU_HDR_LEN: nat := 8
  const GTPU_OPT_LEN: nat := 4

  const IP6_EXT_HOPOPTS: byte := 0
  const IP6_EXT_ROUTING: byte := 43
  const IP6_EXT_FRAGMENT: byte := 44
  const IP6_EXT_DSTOPTS: byte := 60
  const IPV6_MAX_EXT_HEADERS: nat := 8

  /** The bytes left at the current layer: `data` is what the capture holds of them, `off` is
      where they start in the frame and `wire` is how many the enclosing header announces. */
  datatype Span = Span(off: nat, data: seq<byte>, wire: nat) {
    predicate Valid() {
      |data| <= wire
    }
  }

  /** Is there room for `n` bytes? If not, is the capture or the packet to blame? */
  function Need(s: Span, n: nat, truncated: DecodeStatus, malformed: DecodeStatus): DecodeStatus {
    if n <= |s.data| then Ok else if n <= s.wire then truncated else malformed
  }

  function Advance(s: Span, n: nat): (r: Span)
    requires s.Valid() && n <= |s.data|
    ensures r.Valid()
  {
    Span(s.off + n, s.data[n..], s.wire - n)
  }

  function Clip(s: Span, len: nat): (r: Span)
    requires s.Valid()
    ensures r.Valid()
  {
    Span(s.off, s.data[..Min(|s.data|, len)], len)
  }

  // ----- Transport headers -----

  datatype L4Result = L4Result(status: DecodeStatus, l4: L4, rest: Span)

  function DecodeTcp(s: Span): L4Result
    requires s.Valid()
  {
    var st := Need(s, TCP_MIN_HDR, TruncTcp, BadL4Len);
    if st != Ok then L4Result(st, NO_L4, s)
    else
      var l4 := NO_L4.(srcPort := LoadBe16(s.data, 0), dstPort := LoadBe16(s.data, 2),
                       tcpFlags := s.data[13]);
      var hlen := s.data[12] as nat / 16 * 4;
      if hlen < TCP_MIN_HDR || hlen > s.wire then L4Result(BadTcpDoff, l4, s)
      else if hlen > |s.data| then L4Result(TruncTcp, l4, s)
      else L4Result(Ok, l4.(present := true), s)
  }

  function DecodeUdp(s: Span, frag: FragKind): L4Result
    requires s.Valid()
  {
    var st := Need(s, UDP_HDR_LEN, TruncUdp, BadL4Len);
    if st != Ok then L4Result(st, NO_L4, s)
    else
      var l4 := NO_L4.(srcPort := LoadBe16(s.data, 0), dstPort := LoadBe16(s.data, 2));
      var ulen := LoadBe16(s.data, 4);
      if ulen < UDP_HDR_LEN || (frag == FragNone && ulen > s.wire) then L4Result(BadUdpLen, l4, s)
      else L4Result(Ok, l4.(present := true), if frag == FragNone then Clip(s, ulen) else s)
  }

  function DecodeIcmp(s: Span): L4Result
    requires s.Valid()
  {
    var st := Need(s, ICMP_MIN_HDR, TruncIcmp, BadL4Len);
    if st != Ok then L4Result(st, NO_L4, s)
    else L4Result(Ok, NO_L4.(present := true, icmpType := s.data[0], icmpCode := s.data[1]), s)
  }

  function DecodeL4(s: Span, proto: byte, frag: FragKind): (r: L4Result)
    requires s.Valid()
    ensures r.rest.Valid() && r.rest.off == s.off
    ensures r.status == Ok && r.l4.present && proto == PROTO_UDP ==> |r.rest.data| >= UDP_HDR_LEN
  {
    if proto == PROTO_TCP then DecodeTcp(s)
    else if proto == PROTO_UDP then DecodeUdp(s, frag)
    else if proto == PROTO_ICMP || proto == PROTO_ICMPV6 then DecodeIcmp(s)
    else L4Result(Ok, NO_L4, s)
  }

  // ----- IPv4 (section 3.1 of RFC 791) -----

  datatype IpResult = IpResult(status: DecodeStatus, l3: L3, l4: L4, rest: Span)

  function Padded(a: seq<byte>): (r: Address)
    requires |a| == 4
  {
    a + NO_ADDRESS[4..]
  }

  /** The transport header of a packet whose IP headers have been read. */
  function DecodeTransport(s: Span, l3: L3): (r: IpResult)
    requires s.Valid()
    ensures r.rest.Valid()
    ensures r.status == Ok && r.l4.present && l3.proto == PROTO_UDP ==> |r.rest.data| >= UDP_HDR_LEN
  {
    if l3.frag == FragLater then IpResult(Ok, l3, NO_L4, s)
    else
      var r := DecodeL4(s, l3.proto, l3.frag);
      IpResult(r.status, l3, r.l4, r.rest)
  }

  function Ipv4Frag(word: uint16): FragKind {
    if word % 0x2000 != 0 then FragLater
    else if word / 0x2000 % 2 == 1 then FragFirst
    else FragNone
  }

  function Ipv4HeaderLen(s: Span): nat
    requires |s.data| >= IPV4_MIN_HDR
  {
    s.data[0] as nat % 16 * 4
  }

  /** A total length of 0, left by segmentation offload, means "to the end of the frame". */
  function Ipv4TotalLen(s: Span): nat
    requires |s.data| >= IPV4_MIN_HDR
  {
    if LoadBe16(s.data, 2) == 0 then s.wire else LoadBe16(s.data, 2)
  }

  function Ipv4Verdict(s: Span): (st: DecodeStatus)
    requires s.Valid()
    ensures st == Ok ==> IPV4_MIN_HDR <= |s.data| && Ipv4HeaderLen(s) <= |s.data|
                         && IPV4_MIN_HDR <= Ipv4HeaderLen(s) <= Ipv4TotalLen(s) <= s.wire
  {
    var st := Need(s, IPV4_MIN_HDR, TruncIpv4, BadShortFrame);
    if st != Ok then st
    else if s.data[0] / 16 != 4 then BadIpv4Version
    else if Ipv4HeaderLen(s) < IPV4_MIN_HDR then BadIpv4Ihl
    else if Ipv4TotalLen(s) < Ipv4HeaderLen(s) || Ipv4TotalLen(s) > s.wire then BadIpv4TotalLen
    else if Ipv4HeaderLen(s) > |s.data| then TruncIpv4
    else Ok
  }

  function Ipv4L3(s: Span): L3
    requires |s.data| >= IPV4_MIN_HDR
  {
    L3(true, 4, s.data[9], Padded(s.data[12..16]), Padded(s.data[16..20]),
       Ipv4Frag(LoadBe16(s.data, 6)), LoadBe16(s.data, 4))
  }

  function DecodeIpv4(s: Span): (r: IpResult)
    requires s.Valid()
    ensures r.rest.Valid()
    ensures r.status == Ok && r.l4.present && r.l3.proto == PROTO_UDP ==> |r.rest.data| >= UDP_HDR_LEN
  {
    var st := Ipv4Verdict(s);
    if st != Ok then IpResult(st, NO_L3, NO_L4, s)
    else DecodeTransport(Advance(Clip(s, Ipv4TotalLen(s)), Ipv4HeaderLen(s)), Ipv4L3(s))
  }

  // ----- IPv6 and its extension headers (sections 3 and 4 of RFC 8200) -----

  predicate IsIpv6Ext(next: byte) {
    next == IP6_EXT_HOPOPTS || next == IP6_EXT_ROUTING ||
    next == IP6_EXT_FRAGMENT || next == IP6_EXT_DSTOPTS
  }

  datatype ChainResult = ChainResult(status: DecodeStatus, l3: L3, rest: Span)

  /** The fragment kind after a fragment header: an atomic fragment changes nothing. */
  function Ipv6Frag(word: uint16, before: FragKind): FragKind {
    if word / 8 != 0 then FragLater else if word % 2 == 1 then FragFirst else before
  }

  /** One extension header: how many bytes it takes, or why it cannot be read. */
  datatype ExtHeader = ExtHeader(status: DecodeStatus, len: nat)

  function Ipv6ExtHeader(s: Span, next: byte): (h: ExtHeader)
    requires s.Valid()
    ensures h.status == Ok ==> 8 <= h.len <= |s.data|
  {
    if next == IP6_EXT_FRAGMENT then
      ExtHeader(Need(s, IPV6_FRAG_LEN, TruncIpv6Ext, BadIpv6Ext), IPV6_FRAG_LEN)
    else
      var st := Need(s, 2, TruncIpv6Ext, BadIpv6Ext);
      if st != Ok then ExtHeader(st, 2)
      else
        var len := (s.data[1] as nat + 1) * 8;
        ExtHeader(Need(s, len, TruncIpv6Ext, BadIpv6Ext), len)
  }

  /** Only a fragment header changes what is known about the packet. */
  function Ipv6ExtFields(s: Span, next: byte, l3: L3): L3
    requires |s.data| >= 8
  {
    if next == IP6_EXT_FRAGMENT
    then l3.(fragId := LoadBe32(s.data, 4), frag := Ipv6Frag(LoadBe16(s.data, 2), l3.frag))
    else l3
  }

  /** Walks the chain from the header of type `next`, `hops` of which have been walked already.
      The protocol is set only when the end of the chain, or a later fragment, is reached. */
  function WalkIpv6(s: Span, next: byte, hops: nat, l3: L3): (r: ChainResult)
    requires s.Valid() && hops <= IPV6_MAX_EXT_HEADERS
    ensures r.rest.Valid()
    decreases |s.data|
  {
    if !IsIpv6Ext(next) then ChainResult(Ok, l3.(proto := next), s)
    else if hops == IPV6_MAX_EXT_HEADERS then ChainResult(BadIpv6Ext, l3, s)
    else
      var h := Ipv6ExtHeader(s, next);
      if h.status != Ok then ChainResult(h.status, l3, s)
      else
        var l3' := Ipv6ExtFields(s, next, l3);
        if next == IP6_EXT_FRAGMENT && l3'.frag == FragLater
        then ChainResult(Ok, l3'.(proto := s.data[0]), Advance(s, h.len))
        else WalkIpv6(Advance(s, h.len), s.data[0], hops + 1, l3')
  }

  // One step of the walk, for proofs that hide the recursion.
  lemma Ipv6ExtStep(s: Span, next: byte, hops: nat, l3: L3)
    requires s.Valid() && hops <= IPV6_MAX_EXT_HEADERS
    ensures var h := Ipv6ExtHeader(s, next);
            WalkIpv6(s, next, hops, l3) ==
            if !IsIpv6Ext(next) then ChainResult(Ok, l3.(proto := next), s)
            else if hops == IPV6_MAX_EXT_HEADERS then ChainResult(BadIpv6Ext, l3, s)
            else if h.status != Ok then ChainResult(h.status, l3, s)
            else if next == IP6_EXT_FRAGMENT && Ipv6ExtFields(s, next, l3).frag == FragLater
            then ChainResult(Ok, Ipv6ExtFields(s, next, l3).(proto := s.data[0]), Advance(s, h.len))
            else WalkIpv6(Advance(s, h.len), s.data[0], hops + 1, Ipv6ExtFields(s, next, l3))
  {
  }

  function Ipv6Verdict(s: Span): (st: DecodeStatus)
    requires s.Valid()
    ensures st == Ok ==> IPV6_HDR_LEN <= |s.data| && LoadBe16(s.data, 4) <= s.wire - IPV6_HDR_LEN
  {
    var st := Need(s, IPV6_HDR_LEN, TruncIpv6, BadShortFrame);
    if st != Ok then st
    else if s.data[0] / 16 != 6 then BadIpv6Version
    else if LoadBe16(s.data, 4) > s.wire - IPV6_HDR_LEN then BadIpv6PayloadLen
    else Ok
  }

  function Ipv6L3(s: Span): L3
    requires |s.data| >= IPV6_HDR_LEN
  {
    L3(true, 6, 0, s.data[8..24], s.data[24..40], FragNone, 0)
  }

  function DecodeIpv6(s: Span): (r: IpResult)
    requires s.Valid()
    ensures r.rest.Valid()
    ensures r.status == Ok && r.l4.present && r.l3.proto == PROTO_UDP ==> |r.rest.data| >= UDP_HDR_LEN
  {
    var st := Ipv6Verdict(s);
    if st != Ok then IpResult(st, NO_L3, NO_L4, s)
    else
      var c := WalkIpv6(Clip(Advance(s, IPV6_HDR_LEN), LoadBe16(s.data, 4)), s.data[6], 0, Ipv6L3(s));
      if c.status != Ok then IpResult(c.status, c.l3, NO_L4, c.rest)
      else DecodeTransport(c.rest, c.l3)
  }

  // ----- GTPv1-U (sections 5.1 and 5.2 of 3GPP TS 29.281) -----

  /** The first header of the user packet inside a G-PDU says which IP version it is. */
  function DecodeInnerIp(s: Span): (r: IpResult)
    requires s.Valid()
  {
    var st := Need(s, 1, TruncGtpuInner, BadGtpuInner);
    if st != Ok then IpResult(st, NO_L3, NO_L4, s)
    else
      var r := if s.data[0] / 16 == 4 then DecodeIpv4(s)
               else if s.data[0] / 16 == 6 then DecodeIpv6(s)
               else IpResult(BadGtpuInner, NO_L3, NO_L4, s);
      if r.status == BadShortFrame then r.(status := BadGtpuInnerShort) else r
  }

  /** What is kept of the user packet. */
  function InnerOf(l3: L3, l4: L4): Inner {
    var i := if l3.present
             then NO_INNER.(present := true, version := l3.version, proto := l3.proto,
                            src := l3.src, dst := l3.dst)
             else NO_INNER;
    if l4.present
    then i.(hasL4 := true, srcPort := l4.srcPort, dstPort := l4.dstPort, nested := IsGtpuPort(l3, l4))
    else i
  }

  datatype ExtResult = ExtResult(status: DecodeStatus, count: nat, rest: Span)

  /** The length counts the whole header in four-byte units, so zero is impossible. */
  function GtpuExtHeader(s: Span): (h: ExtHeader)
    requires s.Valid()
    ensures h.status == Ok ==> 4 <= h.len <= |s.data|
  {
    var st := Need(s, 1, TruncGtpuExt, BadGtpuExt);
    if st != Ok then ExtHeader(st, 1)
    else
      var len := s.data[0] as nat * 4;
      if len == 0 then ExtHeader(BadGtpuExtLen, 0)
      else ExtHeader(Need(s, len, TruncGtpuExt, BadGtpuExt), len)
  }

  /** Walks the extension headers from the one of type `next`; `hops` have been walked already. */
  function WalkGtpuExt(s: Span, next: byte, hops: nat): (r: ExtResult)
    requires s.Valid() && hops <= GTPU_MAX_EXT_HEADERS
    ensures r.rest.Valid() && r.rest.off >= s.off && hops <= r.count <= GTPU_MAX_EXT_HEADERS
    decreases |s.data|
  {
    if next == 0 then ExtResult(Ok, hops, s)
    else if hops == GTPU_MAX_EXT_HEADERS then ExtResult(BadGtpuExt, hops, s)
    else
      var h := GtpuExtHeader(s);
      if h.status != Ok then ExtResult(h.status, hops, s)
      else WalkGtpuExt(Advance(s, h.len), s.data[h.len - 1], hops + 1)
  }

  // One step of the walk, for proofs that hide the recursion.
  lemma GtpuExtStep(s: Span, next: byte, hops: nat)
    requires s.Valid() && hops <= GTPU_MAX_EXT_HEADERS
    ensures var h := GtpuExtHeader(s);
            WalkGtpuExt(s, next, hops) ==
            if next == 0 then ExtResult(Ok, hops, s)
            else if hops == GTPU_MAX_EXT_HEADERS then ExtResult(BadGtpuExt, hops, s)
            else if h.status != Ok then ExtResult(h.status, hops, s)
            else WalkGtpuExt(Advance(s, h.len), s.data[h.len - 1], hops + 1)
  {
  }

  /** `body` is where decoding stopped or, once every GTP-U header has been read, where the user
      packet starts. */
  datatype GtpResult = GtpResult(gtp: Gtp, inner: Inner, body: Span)

  /** The extension headers and the user packet, after the fixed and the optional fields. */
  function DecodeGtpuBody(s: Span, next: byte, g: Gtp): GtpResult
    requires s.Valid()
  {
    var e := WalkGtpuExt(s, next, 0);
    if e.status != Ok then GtpResult(g.(status := e.status, extCount := e.count), NO_INNER, e.rest)
    else
      var g := g.(extCount := e.count, msgOk := true);
      if g.msgType != GTPU_MSG_GPDU then GtpResult(g, NO_INNER, e.rest)
      else
        var r := DecodeInnerIp(e.rest);
        GtpResult(g.(status := r.status), InnerOf(r.l3, r.l4), e.rest)
  }

  /** The four optional fields, present when any option bit is set. With the E bit clear the
      next-type byte is not looked at. */
  function DecodeGtpuOptions(s: Span, g: Gtp): GtpResult
    requires s.Valid()
  {
    if !GtpuHasOptions(g.flags) then DecodeGtpuBody(s, 0, g)
    else
      var st := Need(s, GTPU_OPT_LEN, TruncGtpu, BadGtpuLen);
      if st != Ok then GtpResult(g.(status := st), NO_INNER, s)
      else
        var g := if GtpuFlagS(g.flags) then g.(seqNo := LoadBe16(s.data, 0)) else g;
        DecodeGtpuBody(Advance(s, GTPU_OPT_LEN), if GtpuFlagE(g.flags) then s.data[3] else 0, g)
  }

  function GtpuFields(s: Span): Gtp
    requires |s.data| >= GTPU_HDR_LEN
  {
    NO_GTP.(isGtpu := true, v1u := true, flags := s.data[0], msgType := s.data[1],
            teid := LoadBe32(s.data, 4))
  }

  function DecodeGtpu(s: Span): GtpResult
    requires s.Valid() && s.wire >= GTPU_HDR_LEN
  {
    var st := Need(s, GTPU_HDR_LEN, TruncGtpu, BadGtpuLen);
    if st != Ok then GtpResult(NO_GTP.(isGtpu := true, status := st), NO_INNER, s)
    else if !IsGtpV1U(s.data[0]) then GtpResult(NO_GTP.(isGtpu := true), NO_INNER, s)
    else
      var len := LoadBe16(s.data, 2);
      if len > s.wire - GTPU_HDR_LEN then GtpResult(GtpuFields(s).(status := BadGtpuLen), NO_INNER, s)
      else DecodeGtpuOptions(Clip(Advance(s, GTPU_HDR_LEN), len), GtpuFields(s))
  }

  // ----- Ethernet and VLAN tags -----

  predicate IsVlanTag(ethertype: uint16) {
    ethertype == ETHERTYPE_VLAN || ethertype == ETHERTYPE_QINQ || ethertype == ETHERTYPE_QINQ_LEGACY
  }

  datatype VlanResult = VlanResult(status: DecodeStatus, ethertype: uint16, vlans: seq<uint16>, rest: Span)

  function WalkVlans(s: Span, ethertype: uint16, vlans: seq<uint16>): (r: VlanResult)
    requires s.Valid() && |vlans| <= DECODE_MAX_VLANS
    ensures r.rest.Valid() && |r.vlans| <= DECODE_MAX_VLANS
    ensures r.status == Ok ==> !IsVlanTag(r.ethertype)
    decreases |s.data|
  {
    if !IsVlanTag(ethertype) then VlanResult(Ok, ethertype, vlans, s)
    else if |vlans| == DECODE_MAX_VLANS then VlanResult(BadVlanDepth, ethertype, vlans, s)
    else
      var st := Need(s, VLAN_TAG_LEN, TruncVlan, BadShortFrame);
      if st != Ok then VlanResult(st, ethertype, vlans, s)
      else WalkVlans(Advance(s, VLAN_TAG_LEN), LoadBe16(s.data, 2), vlans + [LoadBe16(s.data, 0) % 0x1000])
  }

  // One step of the walk, for proofs that hide the recursion.
  lemma VlanStep(s: Span, ethertype: uint16, vlans: seq<uint16>)
    requires s.Valid() && |vlans| <= DECODE_MAX_VLANS
    ensures var st := Need(s, VLAN_TAG_LEN, TruncVlan, BadShortFrame);
            WalkVlans(s, ethertype, vlans) ==
            if !IsVlanTag(ethertype) then VlanResult(Ok, ethertype, vlans, s)
            else if |vlans| == DECODE_MAX_VLANS then VlanResult(BadVlanDepth, ethertype, vlans, s)
            else if st != Ok then VlanResult(st, ethertype, vlans, s)
            else WalkVlans(Advance(s, VLAN_TAG_LEN), LoadBe16(s.data, 2), vlans + [LoadBe16(s.data, 0) % 0x1000])
  {
  }

  /** The outer packet: everything but the GTP-U message. */
  datatype OuterResult = OuterResult(status: DecodeStatus, l2: L2, l3: L3, l4: L4, rest: Span)

  function DecodeNetwork(s: Span, ethertype: uint16): (r: IpResult)
    requires s.Valid()
    ensures r.rest.Valid()
    ensures r.status == Ok && r.l4.present && r.l3.proto == PROTO_UDP ==> |r.rest.data| >= UDP_HDR_LEN
  {
    if ethertype == ETHERTYPE_IPV4 then DecodeIpv4(s)
    else if ethertype == ETHERTYPE_IPV6 then DecodeIpv6(s)
    else IpResult(Ok, NO_L3, NO_L4, s)
  }

  function DecodeOuter(s: Span): (r: OuterResult)
    requires s.Valid()
    ensures r.rest.Valid()
    ensures r.status == Ok && r.l4.present && r.l3.proto == PROTO_UDP ==> |r.rest.data| >= UDP_HDR_LEN
  {
    var st := Need(s, ETH_HDR_LEN, TruncEthernet, BadShortFrame);
    if st != Ok then OuterResult(st, NO_L2, NO_L3, NO_L4, s)
    else
      var v := WalkVlans(Advance(s, ETH_HDR_LEN), LoadBe16(s.data, 12), []);
      if v.status != Ok then OuterResult(v.status, NO_L2.(vlans := v.vlans), NO_L3, NO_L4, v.rest)
      else
        var n := DecodeNetwork(v.rest, v.ethertype);
        OuterResult(n.status, L2(true, v.ethertype, v.vlans), n.l3, n.l4, n.rest)
  }

  /** Does the outer packet carry a GTP-U message that will be decoded? */
  predicate CarriesGtpu(o: OuterResult) {
    o.status == Ok && o.l3.frag == FragNone && IsGtpuPort(o.l3, o.l4) &&
    o.rest.wire >= UDP_HDR_LEN + GTPU_HDR_LEN
  }

  function GtpuSpan(o: OuterResult): (s: Span)
    requires o.rest.Valid() && CarriesGtpu(o) && |o.rest.data| >= UDP_HDR_LEN
    ensures s.Valid() && s.wire >= GTPU_HDR_LEN
  {
    Advance(o.rest, UDP_HDR_LEN)
  }

  function FrameSpan(frame: seq<byte>, wirelen: nat): (s: Span)
    ensures s.Valid()
  {
    Span(0, frame, Max(wirelen, |frame|))
  }

  /** `frame` holds the captured bytes; `wirelen` is the length the frame had on the wire. */
  function DecodeFrame(frame: seq<byte>, wirelen: nat): PacketInfo {
    var o := DecodeOuter(FrameSpan(frame, wirelen));
    if CarriesGtpu(o) then
      var g := DecodeGtpu(GtpuSpan(o));
      PacketInfo(o.status, o.l2, o.l3, o.l4, g.gtp, g.inner)
    else PacketInfo(o.status, o.l2, o.l3, o.l4, NO_GTP, NO_INNER)
  }
}
