/** What holds of every decoded frame: the invariants that the accounting relies on, and the
    promise that a frame captured in full is never called truncated. */
module DecodeProofs {
  import opened Bytes
  import opened Packet
  import opened DecodeSpec

  // ----- A complete frame is never truncated -----

  /** Every byte the enclosing header announces was captured. */
  predicate Complete(s: Span) {
    |s.data| == s.wire
  }

  lemma {:induction false} ChainComplete(s: Span, next: byte, hops: nat, l3: L3)
    requires s.Valid() && Complete(s) && hops <= IPV6_MAX_EXT_HEADERS
    ensures var r := WalkIpv6(s, next, hops, l3); !r.status.IsTruncation() && Complete(r.rest)
    decreases |s.data|
  {
    hide WalkIpv6, Ipv6ExtFields;
    Ipv6ExtStep(s, next, hops, l3);
    var h := Ipv6ExtHeader(s, next);
    if IsIpv6Ext(next) && hops < IPV6_MAX_EXT_HEADERS && h.status == Ok {
      ChainComplete(Advance(s, h.len), s.data[0], hops + 1, Ipv6ExtFields(s, next, l3));
    }
  }

  lemma L4Complete(s: Span, proto: byte, frag: FragKind)
    requires s.Valid() && Complete(s)
    ensures var r := DecodeL4(s, proto, frag); !r.status.IsTruncation() && Complete(r.rest)
  {
  }

  lemma Ipv4Complete(s: Span)
    requires s.Valid() && Complete(s)
    ensures var r := DecodeIpv4(s); !r.status.IsTruncation() && Complete(r.rest)
  {
    hide DecodeL4, Ipv4Frag;
    if Ipv4Verdict(s) == Ok {
      L4Complete(Advance(Clip(s, Ipv4TotalLen(s)), Ipv4HeaderLen(s)), Ipv4L3(s).proto, Ipv4L3(s).frag);
    }
  }

  lemma Ipv6Complete(s: Span)
    requires s.Valid() && Complete(s)
    ensures var r := DecodeIpv6(s); !r.status.IsTruncation() && Complete(r.rest)
  {
    hide DecodeL4, WalkIpv6;
    if Ipv6Verdict(s) == Ok {
      var b := Clip(Advance(s, IPV6_HDR_LEN), LoadBe16(s.data, 4));
      ChainComplete(b, s.data[6], 0, Ipv6L3(s));
      var c := WalkIpv6(b, s.data[6], 0, Ipv6L3(s));
      L4Complete(c.rest, c.l3.proto, c.l3.frag);
    }
  }

  lemma {:induction false} ExtComplete(s: Span, next: byte, hops: nat)
    requires s.Valid() && Complete(s) && hops <= GTPU_MAX_EXT_HEADERS
    ensures var r := WalkGtpuExt(s, next, hops); !r.status.IsTruncation() && Complete(r.rest)
    decreases |s.data|
  {
    hide WalkGtpuExt;
    GtpuExtStep(s, next, hops);
    var h := GtpuExtHeader(s);
    if next != 0 && hops < GTPU_MAX_EXT_HEADERS && h.status == Ok {
      ExtComplete(Advance(s, h.len), s.data[h.len - 1], hops + 1);
    }
  }

  lemma GtpuComplete(s: Span)
    requires s.Valid() && Complete(s) && s.wire >= GTPU_HDR_LEN
    ensures !DecodeGtpu(s).gtp.status.IsTruncation()
  {
    hide DecodeGtpuOptions, LoadBe16, LoadBe32, IsGtpV1U;
    if LoadBe16(s.data, 2) <= s.wire - GTPU_HDR_LEN {
      GtpuOptionsComplete(Clip(Advance(s, GTPU_HDR_LEN), LoadBe16(s.data, 2)), GtpuFields(s));
    }
  }

  lemma GtpuOptionsComplete(s: Span, g: Gtp)
    requires s.Valid() && Complete(s) && g.status == Ok
    ensures !DecodeGtpuOptions(s, g).gtp.status.IsTruncation()
  {
    hide DecodeGtpuBody, LoadBe16, GtpuHasOptions, GtpuFlagS, GtpuFlagE;
    GtpuBodyComplete(s, 0, g);
    if |s.data| >= GTPU_OPT_LEN {
      var g' := if GtpuFlagS(g.flags) then g.(seqNo := LoadBe16(s.data, 0)) else g;
      GtpuBodyComplete(Advance(s, GTPU_OPT_LEN), if GtpuFlagE(g.flags) then s.data[3] else 0, g');
    }
  }

  lemma GtpuBodyComplete(s: Span, next: byte, g: Gtp)
    requires s.Valid() && Complete(s) && g.status == Ok
    ensures !DecodeGtpuBody(s, next, g).gtp.status.IsTruncation()
  {
    hide DecodeInnerIp, WalkGtpuExt, InnerOf;
    ExtComplete(s, next, 0);
    InnerComplete(WalkGtpuExt(s, next, 0).rest);
  }

  lemma InnerComplete(s: Span)
    requires s.Valid() && Complete(s)
    ensures !DecodeInnerIp(s).status.IsTruncation()
  {
    hide DecodeIpv4, DecodeIpv6;
    Ipv4Complete(s);
    Ipv6Complete(s);
  }

  lemma {:induction false} VlansComplete(s: Span, ethertype: uint16, vlans: seq<uint16>)
    requires s.Valid() && Complete(s) && |vlans| <= DECODE_MAX_VLANS
    ensures var r := WalkVlans(s, ethertype, vlans); !r.status.IsTruncation() && Complete(r.rest)
    decreases |s.data|
  {
    if IsVlanTag(ethertype) && |vlans| < DECODE_MAX_VLANS && |s.data| >= VLAN_TAG_LEN {
      VlansComplete(Advance(s, VLAN_TAG_LEN), LoadBe16(s.data, 2), vlans + [LoadBe16(s.data, 0) % 0x1000]);
    }
  }

  lemma OuterComplete(s: Span)
    requires s.Valid() && Complete(s)
    ensures var o := DecodeOuter(s); !o.status.IsTruncation() && Complete(o.rest)
  {
    hide DecodeIpv4, DecodeIpv6, WalkVlans;
    if |s.data| >= ETH_HDR_LEN {
      var v := WalkVlans(Advance(s, ETH_HDR_LEN), LoadBe16(s.data, 12), []);
      VlansComplete(Advance(s, ETH_HDR_LEN), LoadBe16(s.data, 12), []);
      Ipv4Complete(v.rest);
      Ipv6Complete(v.rest);
    }
  }

  /** A frame captured in full is never called truncated, nor is the message it tunnels: whatever
      is missing is missing from the frame itself. */
  lemma CompleteFrameNeverTruncated(frame: seq<byte>, wirelen: nat)
    requires wirelen <= |frame|
    ensures !DecodeFrame(frame, wirelen).status.IsTruncation()
    ensures !DecodeFrame(frame, wirelen).gtp.status.IsTruncation()
  {
    hide DecodeOuter, DecodeGtpu;
    OuterComplete(FrameSpan(frame, wirelen));
    var o := DecodeOuter(FrameSpan(frame, wirelen));
    if CarriesGtpu(o) {
      GtpuComplete(GtpuSpan(o));
    }
  }

  // ----- Invariants of every result -----

  /** What the two IP decoders promise alike. */
  predicate IpShape(r: IpResult) {
    && (r.l4.present ==> r.status == Ok && r.l3.present && r.l3.frag != FragLater)
    && (r.l3.present ==> r.l3.version == 4 || r.l3.version == 6)
    && (r.status == Ok ==> r.l3.present)
    && (r.status in {TruncIpv6Ext, BadIpv6Ext} ==> r.l3.present && r.l3.version == 6 && r.l3.proto == 0)
    && (!r.l3.present ==> r.l3 == NO_L3)
    && r.status !in {TruncEthernet, TruncVlan, BadVlanDepth, TruncGtpu, TruncGtpuExt, TruncGtpuInner, BadGtpuLen,
                     BadGtpuExtLen, BadGtpuExt, BadGtpuInner, BadGtpuInnerShort}
  }

  lemma L4Shape(s: Span, proto: byte, frag: FragKind)
    requires s.Valid()
    ensures var r := DecodeL4(s, proto, frag);
            && (r.l4.present ==> r.status == Ok)
            && r.status in {Ok, TruncTcp, TruncUdp, TruncIcmp, BadL4Len, BadTcpDoff, BadUdpLen}
  {
  }

  lemma {:induction false} ChainShape(s: Span, next: byte, hops: nat, l3: L3)
    requires s.Valid() && hops <= IPV6_MAX_EXT_HEADERS
    ensures var r := WalkIpv6(s, next, hops, l3);
            && r.status in {Ok, TruncIpv6Ext, BadIpv6Ext}
            && r.l3.(frag := l3.frag, fragId := l3.fragId, proto := l3.proto) == l3
            && (r.status != Ok ==> r.l3.proto == l3.proto)
    decreases |s.data|
  {
    hide Ipv6Frag, LoadBe16, LoadBe32;
    var h := Ipv6ExtHeader(s, next);
    if IsIpv6Ext(next) && hops < IPV6_MAX_EXT_HEADERS && h.status == Ok {
      ChainShape(Advance(s, h.len), s.data[0], hops + 1, Ipv6ExtFields(s, next, l3));
    }
  }

  lemma Ipv4Shape(s: Span)
    requires s.Valid()
    ensures IpShape(DecodeIpv4(s))
    ensures DecodeIpv4(s).l3.present ==> DecodeIpv4(s).l3.version == 4
    ensures DecodeIpv4(s).status !in {TruncIpv6Ext, BadIpv6Ext}
  {
    hide DecodeL4, Ipv4Frag, Padded, LoadBe16;
    if Ipv4Verdict(s) == Ok {
      L4Shape(Advance(Clip(s, Ipv4TotalLen(s)), Ipv4HeaderLen(s)), Ipv4L3(s).proto, Ipv4L3(s).frag);
    }
  }

  lemma Ipv6Shape(s: Span)
    requires s.Valid()
    ensures IpShape(DecodeIpv6(s))
    ensures DecodeIpv6(s).l3.present ==> DecodeIpv6(s).l3.version == 6
  {
    hide DecodeL4, WalkIpv6, LoadBe16;
    if Ipv6Verdict(s) == Ok {
      var b := Clip(Advance(s, IPV6_HDR_LEN), LoadBe16(s.data, 4));
      ChainShape(b, s.data[6], 0, Ipv6L3(s));
      var c := WalkIpv6(b, s.data[6], 0, Ipv6L3(s));
      L4Shape(c.rest, c.l3.proto, c.l3.frag);
    }
  }

  /** The outer packet is an Ethernet frame that carries one valid IP packet, one that carries
      something else, or one that was rejected for a reason its own layer explains. */
  predicate OuterShape(p: PacketInfo) {
    && |p.l2.vlans| <= DECODE_MAX_VLANS
    && (p.l4.present ==> p.status == Ok && p.l3.present && p.l3.frag != FragLater)
    && (p.l3.present ==> p.l2.present && (p.l3.version == 4 || p.l3.version == 6))
    && (p.l3.present ==> p.l2.ethertype in {ETHERTYPE_IPV4, ETHERTYPE_IPV6})
    && (p.l3.frag != FragNone ==> p.l3.present)
    && (p.status == Ok ==> p.l2.present)
    && (p.l2.present && p.l2.ethertype !in {ETHERTYPE_IPV4, ETHERTYPE_IPV6} ==> p.status == Ok)
    && (p.status == Ok && p.l2.ethertype in {ETHERTYPE_IPV4, ETHERTYPE_IPV6} ==> p.l3.present)
    && (p.status in {TruncIpv6Ext, BadIpv6Ext} ==> p.l3.present && p.l3.version == 6)
    && p.status !in {TruncGtpu, TruncGtpuExt, TruncGtpuInner, BadGtpuLen, BadGtpuExtLen, BadGtpuExt,
                     BadGtpuInner, BadGtpuInnerShort}
  }

  /** GTP-U sits only on a clean, unfragmented UDP datagram of port 2152; its message is known in
      full exactly when none of the five header problems was met; only then, and only in a G-PDU,
      is there a user packet to speak of. */
  predicate GtpuShape(g: Gtp, i: Inner) {
    && (!g.isGtpu ==> g == NO_GTP && i == NO_INNER)
    && (g.msgOk ==> g.v1u)
    && (g.v1u ==> (g.msgOk <==> !g.status.IsGtpuHeaderProblem()))
    && (g.msgOk && g.msgType != GTPU_MSG_GPDU ==> g.status == Ok)
    && (!g.v1u ==> g.status in {Ok, TruncGtpu})
    && g.extCount <= GTPU_MAX_EXT_HEADERS
    && (i.present ==> g.msgOk && g.msgType == GTPU_MSG_GPDU && (i.version == 4 || i.version == 6))
    && (i.hasL4 ==> i.present)
    && (i.nested <==> i.hasL4 && i.proto == PROTO_UDP && (i.srcPort == GTPU_PORT || i.dstPort == GTPU_PORT))
    && (g.status == Ok && g.msgOk && g.msgType == GTPU_MSG_GPDU ==> i.present)
    && (g.status in {TruncIpv6Ext, BadIpv6Ext} ==> i.present && i.version == 6)
  }

  predicate WellFormed(p: PacketInfo) {
    && OuterShape(p)
    && GtpuShape(p.gtp, p.inner)
    && (p.gtp.isGtpu ==> p.status == Ok && p.l3.frag == FragNone && IsGtpuPort(p.l3, p.l4))
  }

  lemma InnerIpShape(s: Span)
    requires s.Valid()
    ensures var r := DecodeInnerIp(s); var i := InnerOf(r.l3, r.l4);
            && !r.status.IsGtpuHeaderProblem()
            && (i.present ==> i.version == 4 || i.version == 6)
            && (i.hasL4 ==> i.present)
            && (i.nested <==> i.hasL4 && i.proto == PROTO_UDP && (i.srcPort == GTPU_PORT || i.dstPort == GTPU_PORT))
            && (r.status == Ok ==> i.present)
            && (r.status in {TruncIpv6Ext, BadIpv6Ext} ==> i.present && i.version == 6)
  {
    hide DecodeIpv4, DecodeIpv6;
    Ipv4Shape(s);
    Ipv6Shape(s);
  }

  lemma {:induction false} ExtShape(s: Span, next: byte, hops: nat)
    requires s.Valid() && hops <= GTPU_MAX_EXT_HEADERS
    ensures WalkGtpuExt(s, next, hops).status in {Ok, TruncGtpuExt, BadGtpuExtLen, BadGtpuExt}
    decreases |s.data|
  {
    hide WalkGtpuExt;
    GtpuExtStep(s, next, hops);
    var h := GtpuExtHeader(s);
    if next != 0 && hops < GTPU_MAX_EXT_HEADERS && h.status == Ok {
      ExtShape(Advance(s, h.len), s.data[h.len - 1], hops + 1);
    }
  }

  lemma GtpuBodyShape(s: Span, next: byte, g: Gtp)
    requires s.Valid() && g.isGtpu && g.v1u && !g.msgOk && g.status == Ok
    ensures GtpuShape(DecodeGtpuBody(s, next, g).gtp, DecodeGtpuBody(s, next, g).inner)
  {
    hide WalkGtpuExt, DecodeInnerIp, InnerOf;
    ExtShape(s, next, 0);
    InnerIpShape(WalkGtpuExt(s, next, 0).rest);
  }

  lemma GtpuMessageShape(s: Span)
    requires s.Valid() && s.wire >= GTPU_HDR_LEN
    ensures GtpuShape(DecodeGtpu(s).gtp, DecodeGtpu(s).inner) && DecodeGtpu(s).gtp.isGtpu
  {
    hide DecodeGtpuBody, GtpuFlagE, GtpuFlagS, GtpuHasOptions;
    if |s.data| >= GTPU_HDR_LEN && LoadBe16(s.data, 2) <= s.wire - GTPU_HDR_LEN {
      var b, g := Clip(Advance(s, GTPU_HDR_LEN), LoadBe16(s.data, 2)), GtpuFields(s);
      GtpuBodyKeeps(b, 0, g);
      GtpuBodyShape(b, 0, g);
      if |b.data| >= GTPU_OPT_LEN {
        var g' := if GtpuFlagS(g.flags) then g.(seqNo := LoadBe16(b.data, 0)) else g;
        var next := if GtpuFlagE(g.flags) then b.data[3] else 0;
        GtpuBodyKeeps(Advance(b, GTPU_OPT_LEN), next, g');
        GtpuBodyShape(Advance(b, GTPU_OPT_LEN), next, g');
      }
    }
  }

  lemma GtpuBodyKeeps(s: Span, next: byte, g: Gtp)
    requires s.Valid()
    ensures DecodeGtpuBody(s, next, g).gtp.isGtpu == g.isGtpu
  {
    hide WalkGtpuExt, DecodeInnerIp, InnerOf;
  }

  lemma {:induction false} VlansShape(s: Span, ethertype: uint16, vlans: seq<uint16>)
    requires s.Valid() && |vlans| <= DECODE_MAX_VLANS
    ensures WalkVlans(s, ethertype, vlans).status in {Ok, TruncVlan, BadShortFrame, BadVlanDepth}
    decreases |s.data|
  {
    if IsVlanTag(ethertype) && |vlans| < DECODE_MAX_VLANS && |s.data| >= VLAN_TAG_LEN {
      VlansShape(Advance(s, VLAN_TAG_LEN), LoadBe16(s.data, 2), vlans + [LoadBe16(s.data, 0) % 0x1000]);
    }
  }

  /** Every frame whatsoever decodes to a well-formed packet. */
  lemma EveryFrameWellFormed(frame: seq<byte>, wirelen: nat)
    ensures WellFormed(DecodeFrame(frame, wirelen))
  {
    hide DecodeGtpu, WalkVlans, DecodeIpv4, DecodeIpv6, GtpuShape;
    var s := FrameSpan(frame, wirelen);
    if |s.data| >= ETH_HDR_LEN {
      var v := WalkVlans(Advance(s, ETH_HDR_LEN), LoadBe16(s.data, 12), []);
      VlansShape(Advance(s, ETH_HDR_LEN), LoadBe16(s.data, 12), []);
      Ipv4Shape(v.rest);
      Ipv6Shape(v.rest);
    }
    NoGtpuShape();
    var o := DecodeOuter(s);
    if CarriesGtpu(o) {
      GtpuMessageShape(GtpuSpan(o));
    }
  }

  lemma NoGtpuShape()
    ensures GtpuShape(NO_GTP, NO_INNER)
  {
  }
}
