/** Cutting a capture short can only hide a packet, never change it.

    Decoding the first `k` bytes of a frame (its length on the wire unchanged) simulates decoding
    the whole of it, stage by stage: a stage either stops with a truncation or does exactly what it
    does on the longer capture, leaving the same span cut at the same place. And a stage that the
    longer capture passes is passed by the shorter one too if `k` reaches past its headers. */
module SnapshotProofs {
  import opened Bytes
  import opened Packet
  import opened DecodeSpec

  /** The span seen by a capture that stops at frame offset `k`. */
  function CutAt(s: Span, k: nat): (r: Span)
    requires s.off <= k
    ensures s.Valid() ==> r.Valid()
  {
    s.(data := s.data[..Min(|s.data|, k - s.off)])
  }

  lemma AdvanceCut(s: Span, k: nat, n: nat)
    requires s.Valid() && s.off + n <= k && n <= |s.data|
    ensures n <= |CutAt(s, k).data| && Advance(CutAt(s, k), n) == CutAt(Advance(s, n), k)
  {
    assert CutAt(s, k).data[n..] == s.data[n..][..Min(|s.data| - n, k - s.off - n)];
  }

  lemma ClipCut(s: Span, k: nat, len: nat)
    requires s.Valid() && s.off <= k
    ensures Clip(CutAt(s, k), len) == CutAt(Clip(s, len), k)
  {
    assert Clip(CutAt(s, k), len).data == CutAt(Clip(s, len), k).data;
  }

  lemma SliceCut(s: Span, k: nat, i: nat, j: nat)
    requires s.off <= k && i <= j <= |CutAt(s, k).data|
    ensures CutAt(s, k).data[i..j] == s.data[i..j]
  {
    assert CutAt(s, k).data[i..j] == s.data[i..j];
  }

  // ----- The IP packet, outer or inner -----

  predicate SameL4(a: L4Result, b: L4Result, k: nat) {
    a.status.IsTruncation() || (b.rest.off <= k && a == b.(rest := CutAt(b.rest, k)))
  }

  lemma UdpSimulates(s: Span, k: nat, frag: FragKind)
    requires s.Valid() && s.off <= k
    ensures SameL4(DecodeUdp(CutAt(s, k), frag), DecodeUdp(s, frag), k)
    ensures DecodeUdp(s, frag).status == Ok && s.off + UDP_HDR_LEN <= k ==>
              DecodeUdp(CutAt(s, k), frag).status == Ok
  {
    if |CutAt(s, k).data| >= UDP_HDR_LEN {
      ClipCut(s, k, LoadBe16(s.data, 4));
    }
  }

  lemma TcpSimulates(s: Span, k: nat)
    requires s.Valid() && s.off <= k
    ensures SameL4(DecodeTcp(CutAt(s, k)), DecodeTcp(s), k)
  {
  }

  lemma IcmpSimulates(s: Span, k: nat)
    requires s.Valid() && s.off <= k
    ensures SameL4(DecodeIcmp(CutAt(s, k)), DecodeIcmp(s), k)
  {
  }

  lemma L4Simulates(s: Span, k: nat, proto: byte, frag: FragKind)
    requires s.Valid() && s.off <= k
    ensures SameL4(DecodeL4(CutAt(s, k), proto, frag), DecodeL4(s, proto, frag), k)
    ensures DecodeL4(s, proto, frag).status == Ok && proto == PROTO_UDP && s.off + UDP_HDR_LEN <= k ==>
              DecodeL4(CutAt(s, k), proto, frag).status == Ok
  {
    hide DecodeTcp, DecodeUdp, DecodeIcmp;
    TcpSimulates(s, k);
    UdpSimulates(s, k, frag);
    IcmpSimulates(s, k);
  }

  /** Does the capture reach behind the UDP header that follows the IP headers? */
  predicate ReachesUdp(b: IpResult, k: nat) {
    b.status == Ok && b.l3.proto == PROTO_UDP && b.rest.off + UDP_HDR_LEN <= k
  }

  predicate SameIp(a: IpResult, b: IpResult, k: nat) {
    (a.status.IsTruncation() || (b.rest.off <= k && a == b.(rest := CutAt(b.rest, k)))) &&
    (ReachesUdp(b, k) ==> a.status == Ok)
  }

  lemma TransportSimulates(s: Span, k: nat, l3: L3)
    requires s.Valid() && s.off <= k
    ensures SameIp(DecodeTransport(CutAt(s, k), l3), DecodeTransport(s, l3), k)
  {
    hide DecodeL4;
    L4Simulates(s, k, l3.proto, l3.frag);
  }

  lemma TransportKeeps(s: Span, l3: L3)
    requires s.Valid()
    ensures DecodeTransport(s, l3).rest.off == s.off && DecodeTransport(s, l3).l3 == l3
  {
  }

  lemma Ipv4VerdictSimulates(s: Span, k: nat)
    requires s.Valid() && s.off <= k
    ensures var a, b := Ipv4Verdict(CutAt(s, k)), Ipv4Verdict(s);
            (a.IsTruncation() || a == b) &&
            (b == Ok && s.off + Ipv4HeaderLen(s) <= k ==> a == Ok)
  {
  }

  lemma Ipv4L3Cut(s: Span, k: nat)
    requires s.off <= k && IPV4_MIN_HDR <= |CutAt(s, k).data|
    ensures Ipv4L3(CutAt(s, k)) == Ipv4L3(s)
  {
    hide Ipv4Frag;
    SliceCut(s, k, 12, 16);
    SliceCut(s, k, 16, 20);
  }

  lemma LoadCut(s: Span, k: nat, i: nat)
    requires s.off <= k && i + 2 <= |CutAt(s, k).data|
    ensures LoadBe16(CutAt(s, k).data, i) == LoadBe16(s.data, i)
  {
  }

  lemma Ipv4LengthsCut(s: Span, k: nat)
    requires s.off <= k && IPV4_MIN_HDR <= |CutAt(s, k).data|
    ensures Ipv4HeaderLen(CutAt(s, k)) == Ipv4HeaderLen(s) && Ipv4TotalLen(CutAt(s, k)) == Ipv4TotalLen(s)
  {
    hide LoadBe16;
    LoadCut(s, k, 2);
  }

  lemma Ipv4Simulates(s: Span, k: nat)
    requires s.Valid() && s.off <= k
    ensures SameIp(DecodeIpv4(CutAt(s, k)), DecodeIpv4(s), k)
  {
    hide Ipv4Verdict, DecodeTransport, Ipv4L3, Ipv4HeaderLen, Ipv4TotalLen, LoadBe16;
    var c := CutAt(s, k);
    Ipv4VerdictSimulates(s, k);
    if Ipv4Verdict(s) == Ok {
      var hlen, total := Ipv4HeaderLen(s), Ipv4TotalLen(s);
      TransportKeeps(Advance(Clip(s, total), hlen), Ipv4L3(s));
      if Ipv4Verdict(c) == Ok {
        Ipv4L3Cut(s, k);
        Ipv4LengthsCut(s, k);
        ClipCut(s, k, total);
        AdvanceCut(Clip(s, total), k, hlen);
        TransportSimulates(Advance(Clip(s, total), hlen), k, Ipv4L3(s));
      }
    }
  }

  lemma ExtHeaderSimulates(s: Span, k: nat, next: byte)
    requires s.Valid() && s.off <= k
    ensures var a, b := Ipv6ExtHeader(CutAt(s, k), next), Ipv6ExtHeader(s, next);
            (a.status.IsTruncation() || a == b) &&
            (b.status == Ok && s.off + b.len <= k ==> a.status == Ok)
  {
  }

  predicate SameChain(a: ChainResult, b: ChainResult, k: nat) {
    (a.status.IsTruncation() || (b.rest.off <= k && a == b.(rest := CutAt(b.rest, k)))) &&
    (b.status == Ok && b.rest.off <= k ==> a.status == Ok)
  }

  lemma {:induction false} ChainMovesOn(s: Span, next: byte, hops: nat, l3: L3)
    requires s.Valid() && hops <= IPV6_MAX_EXT_HEADERS
    ensures WalkIpv6(s, next, hops, l3).rest.off >= s.off
    decreases |s.data|
  {
    hide Ipv6ExtHeader, Ipv6ExtFields;
    var h := Ipv6ExtHeader(s, next);
    if IsIpv6Ext(next) && hops < IPV6_MAX_EXT_HEADERS && h.status == Ok {
      ChainMovesOn(Advance(s, h.len), s.data[0], hops + 1, Ipv6ExtFields(s, next, l3));
    }
  }

  lemma {:induction false} ChainSimulates(s: Span, k: nat, next: byte, hops: nat, l3: L3)
    requires s.Valid() && s.off <= k && hops <= IPV6_MAX_EXT_HEADERS
    ensures SameChain(WalkIpv6(CutAt(s, k), next, hops, l3), WalkIpv6(s, next, hops, l3), k)
    decreases |s.data|
  {
    hide Ipv6ExtHeader, Ipv6ExtFields, IsIpv6Ext, WalkIpv6;
    Ipv6ExtStep(s, next, hops, l3);
    Ipv6ExtStep(CutAt(s, k), next, hops, l3);
    if IsIpv6Ext(next) && hops < IPV6_MAX_EXT_HEADERS {
      ExtHeaderSimulates(s, k, next);
      var h := Ipv6ExtHeader(s, next);
      if h.status == Ok {
        var l3' := Ipv6ExtFields(s, next, l3);
        ChainMovesOn(Advance(s, h.len), s.data[0], hops + 1, l3');
        if Ipv6ExtHeader(CutAt(s, k), next).status == Ok {
          ExtFieldsCut(s, k, next, l3);
          AdvanceCut(s, k, h.len);
          ChainSimulates(Advance(s, h.len), k, s.data[0], hops + 1, l3');
        }
      }
    }
  }

  lemma LoadsCut(s: Span, k: nat)
    requires s.off <= k && 8 <= |CutAt(s, k).data|
    ensures LoadBe16(CutAt(s, k).data, 2) == LoadBe16(s.data, 2)
    ensures LoadBe32(CutAt(s, k).data, 4) == LoadBe32(s.data, 4)
  {
  }

  lemma ExtFieldsCut(s: Span, k: nat, next: byte, l3: L3)
    requires s.off <= k && 8 <= |CutAt(s, k).data|
    ensures Ipv6ExtFields(CutAt(s, k), next, l3) == Ipv6ExtFields(s, next, l3) && CutAt(s, k).data[0] == s.data[0]
  {
    hide LoadBe16, LoadBe32, Ipv6Frag;
    LoadsCut(s, k);
  }

  lemma Ipv6VerdictSimulates(s: Span, k: nat)
    requires s.Valid() && s.off <= k
    ensures var a, b := Ipv6Verdict(CutAt(s, k)), Ipv6Verdict(s);
            (a.IsTruncation() || a == b) && (b == Ok && s.off + IPV6_HDR_LEN <= k ==> a == Ok)
  {
  }

  lemma Ipv6FieldsCut(s: Span, k: nat)
    requires s.off <= k && IPV6_HDR_LEN <= |CutAt(s, k).data|
    ensures Ipv6L3(CutAt(s, k)) == Ipv6L3(s) && CutAt(s, k).data[6] == s.data[6]
    ensures LoadBe16(CutAt(s, k).data, 4) == LoadBe16(s.data, 4)
  {
    hide LoadBe16;
    SliceCut(s, k, 8, 24);
    SliceCut(s, k, 24, 40);
    LoadCut(s, k, 4);
  }

  lemma Ipv6Simulates(s: Span, k: nat)
    requires s.Valid() && s.off <= k
    ensures SameIp(DecodeIpv6(CutAt(s, k)), DecodeIpv6(s), k)
  {
    hide Ipv6Verdict, WalkIpv6, DecodeTransport, Ipv6L3, LoadBe16;
    Ipv6VerdictSimulates(s, k);
    if Ipv6Verdict(s) == Ok {
      var b := Clip(Advance(s, IPV6_HDR_LEN), LoadBe16(s.data, 4));
      var r := WalkIpv6(b, s.data[6], 0, Ipv6L3(s));
      ChainMovesOn(b, s.data[6], 0, Ipv6L3(s));
      TransportKeeps(r.rest, r.l3);
      if Ipv6Verdict(CutAt(s, k)) == Ok {
        Ipv6FieldsCut(s, k);
        AdvanceCut(s, k, IPV6_HDR_LEN);
        ClipCut(Advance(s, IPV6_HDR_LEN), k, LoadBe16(s.data, 4));
        ChainSimulates(b, k, s.data[6], 0, Ipv6L3(s));
        if r.status == Ok && r.rest.off <= k {
          TransportSimulates(r.rest, k, r.l3);
        }
      }
    }
  }

  // ----- The GTP-U message -----

  lemma InnerIpSimulates(s: Span, k: nat)
    requires s.Valid() && s.off <= k
    ensures var a, b := DecodeInnerIp(CutAt(s, k)), DecodeInnerIp(s);
            a.status.IsTruncation() || (a.status == b.status && a.l3 == b.l3 && a.l4 == b.l4)
  {
    assert TruncGtpuInner.IsTruncation() && !BadShortFrame.IsTruncation();
    hide DecodeIpv4, DecodeIpv6, ReachesUdp, DecodeStatus.IsTruncation;
    if |CutAt(s, k).data| > 0 {
      if s.data[0] / 16 == 4 {
        Ipv4Simulates(s, k);
      } else if s.data[0] / 16 == 6 {
        Ipv6Simulates(s, k);
      }
    }
  }

  predicate SameExt(a: ExtResult, b: ExtResult, k: nat) {
    (a.status.IsTruncation() || (b.rest.off <= k && a == b.(rest := CutAt(b.rest, k)))) &&
    (b.status == Ok && b.rest.off <= k ==> a.status == Ok)
  }

  lemma GtpuExtHeaderSimulates(s: Span, k: nat)
    requires s.Valid() && s.off <= k
    ensures var a, b := GtpuExtHeader(CutAt(s, k)), GtpuExtHeader(s);
            (a.status.IsTruncation() || a == b) &&
            (b.status == Ok && s.off + b.len <= k ==> a.status == Ok)
  {
  }

  lemma {:induction false} ExtSimulates(s: Span, k: nat, next: byte, hops: nat)
    requires s.Valid() && s.off <= k && hops <= GTPU_MAX_EXT_HEADERS
    ensures SameExt(WalkGtpuExt(CutAt(s, k), next, hops), WalkGtpuExt(s, next, hops), k)
    decreases |s.data|
  {
    hide GtpuExtHeader, WalkGtpuExt;
    GtpuExtHeaderSimulates(s, k);
    GtpuExtStep(s, next, hops);
    GtpuExtStep(CutAt(s, k), next, hops);
    var h := GtpuExtHeader(s);
    if next != 0 && hops < GTPU_MAX_EXT_HEADERS && h.status == Ok && h.len <= |CutAt(s, k).data| {
      AdvanceCut(s, k, h.len);
      ExtSimulates(Advance(s, h.len), k, s.data[h.len - 1], hops + 1);
    }
  }

  /** A cut message is a truncated one, or the same message; and it keeps its headers exactly when
      the capture reaches the user packet. */
  predicate SameGtp(a: GtpResult, b: GtpResult, k: nat) {
    (a.gtp.status.IsTruncation() || (a.gtp == b.gtp && a.inner == b.inner)) &&
    (a.gtp.msgOk ==> b.gtp.msgOk && a.gtp.(status := b.gtp.status) == b.gtp) &&
    (b.gtp.msgOk ==> (a.gtp.msgOk <==> b.body.off <= k))
  }

  lemma GtpuBodySimulates(s: Span, k: nat, next: byte, g: Gtp)
    requires s.Valid() && s.off <= k && !g.msgOk
    ensures SameGtp(DecodeGtpuBody(CutAt(s, k), next, g), DecodeGtpuBody(s, next, g), k)
  {
    hide WalkGtpuExt, DecodeInnerIp, InnerOf;
    ExtSimulates(s, k, next, 0);
    var e := WalkGtpuExt(s, next, 0);
    if e.status == Ok && e.rest.off <= k {
      InnerIpSimulates(e.rest, k);
    }
  }

  lemma GtpuOptionsSimulate(s: Span, k: nat, g: Gtp)
    requires s.Valid() && s.off <= k && !g.msgOk
    ensures SameGtp(DecodeGtpuOptions(CutAt(s, k), g), DecodeGtpuOptions(s, g), k)
    ensures DecodeGtpuOptions(s, g).gtp.msgOk ==> DecodeGtpuOptions(s, g).body.off >= s.off
  {
    hide DecodeGtpuBody;
    GtpuBodyMovesOn(s, 0, g);
    if !GtpuHasOptions(g.flags) {
      GtpuBodySimulates(s, k, 0, g);
    } else if |s.data| >= GTPU_OPT_LEN {
      var next := if GtpuFlagE(g.flags) then s.data[3] else 0;
      var g' := if GtpuFlagS(g.flags) then g.(seqNo := LoadBe16(s.data, 0)) else g;
      GtpuBodyMovesOn(Advance(s, GTPU_OPT_LEN), next, g');
      if |CutAt(s, k).data| >= GTPU_OPT_LEN {
        AdvanceCut(s, k, GTPU_OPT_LEN);
        GtpuBodySimulates(Advance(s, GTPU_OPT_LEN), k, next, g');
      }
    }
  }

  lemma GtpuBodyMovesOn(s: Span, next: byte, g: Gtp)
    requires s.Valid()
    ensures DecodeGtpuBody(s, next, g).body.off >= s.off
  {
    hide WalkGtpuExt, DecodeInnerIp, InnerOf;
  }

  lemma GtpuSimulates(s: Span, k: nat)
    requires s.Valid() && s.off <= k && s.wire >= GTPU_HDR_LEN
    ensures SameGtp(DecodeGtpu(CutAt(s, k)), DecodeGtpu(s), k)
    ensures DecodeGtpu(s).gtp.msgOk ==> DecodeGtpu(s).body.off >= s.off + GTPU_HDR_LEN
  {
    hide DecodeGtpuOptions, LoadBe16, LoadBe32, IsGtpV1U;
    if |CutAt(s, k).data| >= GTPU_HDR_LEN {
      LoadsCut(s, k);
    }
    if |s.data| >= GTPU_HDR_LEN && LoadBe16(s.data, 2) <= s.wire - GTPU_HDR_LEN {
      var b := Clip(Advance(s, GTPU_HDR_LEN), LoadBe16(s.data, 2));
      if |CutAt(s, k).data| >= GTPU_HDR_LEN {
        AdvanceCut(s, k, GTPU_HDR_LEN);
        ClipCut(Advance(s, GTPU_HDR_LEN), k, LoadBe16(s.data, 2));
        GtpuOptionsSimulate(b, k, GtpuFields(s));
      } else {
        GtpuOptionsSimulate(b, b.off, GtpuFields(s));
      }
    }
  }

  // ----- The whole frame -----

  predicate SameVlan(a: VlanResult, b: VlanResult, k: nat) {
    (a.status.IsTruncation() || (b.rest.off <= k && a == b.(rest := CutAt(b.rest, k)))) &&
    (b.status == Ok && b.rest.off <= k ==> a.status == Ok)
  }

  lemma {:induction false} VlanSimulates(s: Span, k: nat, ethertype: uint16, vlans: seq<uint16>)
    requires s.Valid() && s.off <= k && |vlans| <= DECODE_MAX_VLANS
    ensures SameVlan(WalkVlans(CutAt(s, k), ethertype, vlans), WalkVlans(s, ethertype, vlans), k)
    ensures WalkVlans(s, ethertype, vlans).rest.off >= s.off
    decreases |s.data|
  {
    hide WalkVlans, LoadBe16, IsVlanTag;
    VlanStep(s, ethertype, vlans);
    VlanStep(CutAt(s, k), ethertype, vlans);
    if IsVlanTag(ethertype) && |vlans| < DECODE_MAX_VLANS && |s.data| >= VLAN_TAG_LEN {
      var next, vlans' := LoadBe16(s.data, 2), vlans + [LoadBe16(s.data, 0) % 0x1000];
      if |CutAt(s, k).data| >= VLAN_TAG_LEN {
        LoadCut(s, k, 0);
        LoadCut(s, k, 2);
        AdvanceCut(s, k, VLAN_TAG_LEN);
        VlanSimulates(Advance(s, VLAN_TAG_LEN), k, next, vlans');
      } else {
        VlanSimulates(Advance(s, VLAN_TAG_LEN), s.off + VLAN_TAG_LEN, next, vlans');
      }
    }
  }

  predicate SameOuter(a: OuterResult, b: OuterResult, k: nat) {
    (a.status.IsTruncation() || (b.rest.off <= k && a == b.(rest := CutAt(b.rest, k)))) &&
    (ReachesUdp(IpResult(b.status, b.l3, b.l4, b.rest), k) ==> a.status == Ok)
  }

  lemma NetworkSimulates(s: Span, k: nat, ethertype: uint16)
    requires s.Valid() && s.off <= k
    ensures SameIp(DecodeNetwork(CutAt(s, k), ethertype), DecodeNetwork(s, ethertype), k)
  {
    hide DecodeIpv4, DecodeIpv6;
    Ipv4Simulates(s, k);
    Ipv6Simulates(s, k);
  }

  lemma NetworkMovesOn(s: Span, ethertype: uint16)
    requires s.Valid()
    ensures DecodeNetwork(s, ethertype).rest.off >= s.off
  {
    hide Ipv4Verdict, Ipv6Verdict, WalkIpv6, DecodeTransport;
    if Ipv4Verdict(s) == Ok {
      TransportKeeps(Advance(Clip(s, Ipv4TotalLen(s)), Ipv4HeaderLen(s)), Ipv4L3(s));
    }
    if Ipv6Verdict(s) == Ok {
      var b := Clip(Advance(s, IPV6_HDR_LEN), LoadBe16(s.data, 4));
      ChainMovesOn(b, s.data[6], 0, Ipv6L3(s));
      TransportKeeps(WalkIpv6(b, s.data[6], 0, Ipv6L3(s)).rest, WalkIpv6(b, s.data[6], 0, Ipv6L3(s)).l3);
    }
  }

  lemma OuterSimulates(s: Span, k: nat)
    requires s.Valid() && s.off <= k
    ensures SameOuter(DecodeOuter(CutAt(s, k)), DecodeOuter(s), k)
  {
    hide WalkVlans, DecodeNetwork, LoadBe16, IsVlanTag;
    if |s.data| >= ETH_HDR_LEN {
      var v := WalkVlans(Advance(s, ETH_HDR_LEN), LoadBe16(s.data, 12), []);
      VlanSimulates(Advance(s, ETH_HDR_LEN), Max(k, s.off + ETH_HDR_LEN), LoadBe16(s.data, 12), []);
      NetworkMovesOn(v.rest, v.ethertype);
      if |CutAt(s, k).data| >= ETH_HDR_LEN {
        AdvanceCut(s, k, ETH_HDR_LEN);
        LoadCut(s, k, 12);
        if v.status == Ok && v.rest.off <= k {
          NetworkSimulates(v.rest, k, v.ethertype);
        }
      }
    }
  }

  /** Where the user packet of a frame's GTP-U message starts (0 if there is none): the captured
      length from which on the tunnel is known. */
  function GtpuHeadersEnd(frame: seq<byte>, wirelen: nat): nat {
    var o := DecodeOuter(FrameSpan(frame, wirelen));
    if CarriesGtpu(o) then DecodeGtpu(GtpuSpan(o)).body.off else 0
  }

  /** Decoding the first `k` bytes reports a truncation, in the outer packet or, the outer packet
      being the same, in its GTP-U message; or it yields the very same packet. */
  lemma SnapshotSimulation(frame: seq<byte>, wirelen: nat, k: nat)
    requires k <= |frame| <= wirelen
    ensures var a, b := DecodeFrame(frame[..k], wirelen), DecodeFrame(frame, wirelen);
            || a.status.IsTruncation()
            || (a.gtp.status.IsTruncation() && a == b.(gtp := a.gtp, inner := a.inner))
            || a == b
  {
    hide DecodeOuter, DecodeGtpu;
    SimulatesFrame(frame, wirelen, k);
  }

  /** A cut capture knows the tunnel of a GTP-U message exactly when it reaches the user packet,
      and then it knows the right one. */
  lemma SnapshotTunnel(frame: seq<byte>, wirelen: nat, k: nat)
    requires k <= |frame| <= wirelen
    ensures var a, b := DecodeFrame(frame[..k], wirelen), DecodeFrame(frame, wirelen);
            && (a.gtp.msgOk ==> b.gtp.msgOk && a == b.(gtp := b.gtp.(status := a.gtp.status), inner := a.inner))
            && (b.gtp.msgOk ==> (a.gtp.msgOk <==> GtpuHeadersEnd(frame, wirelen) <= k))
  {
    hide DecodeOuter, DecodeGtpu;
    SimulatesFrame(frame, wirelen, k);
  }

  lemma SimulatesFrame(frame: seq<byte>, wirelen: nat, k: nat)
    requires k <= |frame| <= wirelen
    ensures var a, b := DecodeOuter(FrameSpan(frame[..k], wirelen)), DecodeOuter(FrameSpan(frame, wirelen));
            && SameOuter(a, b, k)
            && (CarriesGtpu(b) ==>
                  && (CarriesGtpu(a) ==> SameGtp(DecodeGtpu(GtpuSpan(a)), DecodeGtpu(GtpuSpan(b)), k))
                  && (DecodeGtpu(GtpuSpan(b)).gtp.msgOk && !CarriesGtpu(a) ==> k < DecodeGtpu(GtpuSpan(b)).body.off))
  {
    hide DecodeOuter, DecodeGtpu;
    var s := FrameSpan(frame, wirelen);
    assert FrameSpan(frame[..k], wirelen) == CutAt(s, k);
    OuterSimulates(s, k);
    var b := DecodeOuter(s);
    if CarriesGtpu(b) {
      var g := GtpuSpan(b);
      GtpuSimulates(g, Max(k, g.off));
      if b.rest.off + UDP_HDR_LEN <= k {
        AdvanceCut(b.rest, k, UDP_HDR_LEN);
      }
    }
  }
}
