/** When the decoder gives which verdict, and what it reads, layer by layer, in terms of the bytes: `d`
    are the captured ones, `n` of them, and `w` bytes were on the wire. */
module DecodeVerdicts {
  import opened Bytes
  import opened DecodeSpec
  import opened Packet

  /** The number in two bytes, high byte first. */
  function Word(d: seq<byte>, i: nat): nat
    requires i + 2 <= |d|
  {
    256 * d[i] as nat + d[i + 1]
  }

  // ----- Transport headers -----

  /** TCP (section 3.1 of RFC 9293): the header has five to fifteen words and must fit the segment. */
  lemma TcpVerdict(s: Span, frag: FragKind)
    requires s.Valid()
    ensures var d, n, w, r := s.data, |s.data|, s.wire, DecodeL4(s, 6, frag);
            && (r.status == Ok <==> n >= 20 && 5 <= d[12] / 16 && 4 * (d[12] / 16) <= n)
            && (r.status == BadTcpDoff <==> n >= 20 && (d[12] / 16 < 5 || 4 * (d[12] / 16) > w))
            && (r.status == TruncTcp <==> n < 20 <= w || (n >= 20 && 5 <= d[12] / 16 && n < 4 * (d[12] / 16) <= w))
            && (r.status == BadL4Len <==> w < 20)
            && r.rest == s && (r.l4.present <==> r.status == Ok)
            && r.l4.(present := false) ==
               if n < 20 then L4(false, 0, 0, 0, 0, 0) else L4(false, Word(d, 0), Word(d, 2), d[13], 0, 0)
  {
  }

  /** UDP (RFC 768): a fragment holds only the start of what the length counts. */
  lemma UdpVerdict(s: Span, frag: FragKind)
    requires s.Valid()
    ensures var d, n, w, r := s.data, |s.data|, s.wire, DecodeL4(s, 17, frag);
            && (r.status == Ok <==> n >= 8 && Word(d, 4) >= 8 && (frag == FragNone ==> Word(d, 4) <= w))
            && (r.status == BadUdpLen <==> n >= 8 && (Word(d, 4) < 8 || (frag == FragNone && Word(d, 4) > w)))
            && (r.status == TruncUdp <==> n < 8 <= w)
            && (r.status == BadL4Len <==> w < 8)
            && (r.l4.present <==> r.status == Ok)
            && r.l4.(present := false) ==
               (if n < 8 then L4(false, 0, 0, 0, 0, 0) else L4(false, Word(d, 0), Word(d, 2), 0, 0, 0))
            && r.rest ==
               if r.status == Ok && frag == FragNone then Span(s.off, d[..Min(n, Word(d, 4))], Word(d, 4)) else s
  {
  }

  /** ICMP and ICMPv6: type, code and checksum. */
  lemma IcmpVerdict(s: Span, frag: FragKind, proto: byte)
    requires s.Valid() && (proto == 1 || proto == 58)
    ensures var d, n, w, r := s.data, |s.data|, s.wire, DecodeL4(s, proto, frag);
            && (r.status == Ok <==> n >= 4)
            && (r.status == TruncIcmp <==> n < 4 <= w)
            && (r.status == BadL4Len <==> w < 4)
            && r.rest == s
            && r.l4 == if n < 4 then L4(false, 0, 0, 0, 0, 0) else L4(true, 0, 0, 0, d[0], d[1])
  {
  }

  lemma OtherTransport(s: Span, frag: FragKind, proto: byte)
    requires s.Valid() && proto != 6 && proto != 17 && proto != 1 && proto != 58
    ensures DecodeL4(s, proto, frag) == L4Result(Ok, L4(false, 0, 0, 0, 0, 0), s)
  {
  }

  /** A later fragment has no transport header; every other packet has what its protocol says. */
  lemma TransportOf(s: Span, l3: L3)
    requires s.Valid()
    ensures var r := DecodeTransport(s, l3);
            r.l3 == l3 &&
            if l3.frag == FragLater then r.status == Ok && r.l4 == L4(false, 0, 0, 0, 0, 0) && r.rest == s
            else L4Result(r.status, r.l4, r.rest) == DecodeL4(s, l3.proto, l3.frag)
  {
  }

  // ----- IPv4 (section 3.1 of RFC 791) -----

  /** Sixteen bytes: the four of an IPv4 address and twelve zeroes. */
  function FourBytes(d: seq<byte>, i: nat): (a: Address)
    requires i + 4 <= |d|
  {
    [d[i], d[i + 1], d[i + 2], d[i + 3], 0, 0, 0, 0, 0, 0, 0, 0, 0, 0, 0, 0]
  }

  /** The three flag bits and the offset: later fragments have an offset, first ones only the bit that
      says that more follow; the don't-fragment bit means neither. */
  lemma FragmentBits(dontFragment: bool, reserved: bool, more: bool, offset: nat)
    requires offset < 0x2000
    ensures Ipv4Frag((if reserved then 0x8000 else 0) + (if dontFragment then 0x4000 else 0)
                     + (if more then 0x2000 else 0) + offset) ==
            if offset > 0 then FragLater else if more then FragFirst else FragNone
  {
  }

  /** The header length in bytes, and the total length; a total length of zero means the rest of the frame. */
  function HeaderBytes(d: seq<byte>): nat
    requires |d| >= 1
  {
    4 * (d[0] as nat % 16)
  }

  function TotalBytes(d: seq<byte>, w: nat): nat
    requires |d| >= 4
  {
    if Word(d, 2) == 0 then w else Word(d, 2)
  }

  /** Which of the header's own checks fails first. */
  lemma Ipv4HeaderVerdict(s: Span)
    requires s.Valid()
    ensures var d, n, w, st := s.data, |s.data|, s.wire, Ipv4Verdict(s);
            && (st == BadShortFrame <==> w < 20)
            && (n < 20 <= w ==> st == TruncIpv4)
            && (n >= 20 ==>
                  var v4, hlen, total := d[0] / 16 == 4, HeaderBytes(d), TotalBytes(d, w);
                  && (st == BadIpv4Version <==> !v4)
                  && (st == BadIpv4Ihl <==> v4 && hlen < 20)
                  && (st == BadIpv4TotalLen <==> v4 && hlen >= 20 && !(hlen <= total <= w))
                  && (st == TruncIpv4 <==> v4 && 20 <= hlen <= total <= w && n < hlen)
                  && (st == Ok <==> v4 && 20 <= hlen <= total <= w && hlen <= n)
                  && Ipv4HeaderLen(s) == hlen && Ipv4TotalLen(s) == total)
  {
  }

  /** A packet whose header fails a check has no other verdict and no fields. */
  lemma Ipv4Refused(s: Span)
    requires s.Valid() && Ipv4Verdict(s) != Ok
    ensures DecodeIpv4(s).status == Ipv4Verdict(s) && DecodeIpv4(s).l3 == NO_L3 && DecodeIpv4(s).l4 == NO_L4
  {
    hide Ipv4Verdict, DecodeTransport;
  }

  /** The others have the fields of their header and are what their transport header makes of them. */
  lemma Ipv4Accepted(s: Span)
    requires s.Valid() && Ipv4Verdict(s) == Ok
    ensures |s.data| >= 20 && HeaderBytes(s.data) <= Min(|s.data|, TotalBytes(s.data, s.wire))
    ensures var d, r, hlen, total := s.data, DecodeIpv4(s), HeaderBytes(s.data), TotalBytes(s.data, s.wire);
            && r.l3 == L3(true, 4, d[9], FourBytes(d, 12), FourBytes(d, 16), Ipv4Frag(Word(d, 6)), Word(d, 4))
            && r == DecodeTransport(Span(s.off + hlen, d[hlen..Min(|d|, total)], total - hlen), r.l3)
  {
    hide DecodeTransport, Ipv4Verdict, Ipv4L3, Ipv4HeaderLen, Ipv4TotalLen, HeaderBytes, TotalBytes, Advance, Clip,
      FourBytes, Word;
    Ipv4HeaderVerdict(s);
    ClippedThenAdvanced(s, Ipv4TotalLen(s), Ipv4HeaderLen(s));
    TransportOf(Advance(Clip(s, Ipv4TotalLen(s)), Ipv4HeaderLen(s)), Ipv4L3(s));
    Ipv4Fields(s);
  }

  lemma ClippedThenAdvanced(s: Span, total: nat, hlen: nat)
    requires s.Valid() && hlen <= total <= s.wire && hlen <= |s.data|
    ensures hlen <= |Clip(s, total).data| && Clip(s, total).Valid()
    ensures Advance(Clip(s, total), hlen) == Span(s.off + hlen, s.data[hlen..Min(|s.data|, total)], total - hlen)
  {
    assert s.data[..Min(|s.data|, total)][hlen..] == s.data[hlen..Min(|s.data|, total)];
  }

  lemma Ipv4Fields(s: Span)
    requires s.Valid() && |s.data| >= 20
    ensures var d := s.data;
            Ipv4L3(s) == L3(true, 4, d[9], FourBytes(d, 12), FourBytes(d, 16), Ipv4Frag(Word(d, 6)), Word(d, 4))
  {
    hide Ipv4Frag, Padded;
    PaddedIs(s.data, 12);
    PaddedIs(s.data, 16);
  }

  lemma PaddedIs(d: seq<byte>, i: nat)
    requires i + 4 <= |d|
    ensures Padded(d[i..i + 4]) == FourBytes(d, i)
  {
  }

  // ----- IPv6 and its extension headers (sections 3 and 4 of RFC 8200) -----

  lemma Ipv6HeaderVerdict(s: Span)
    requires s.Valid()
    ensures var d, n, w, st := s.data, |s.data|, s.wire, Ipv6Verdict(s);
            && (st == BadShortFrame <==> w < 40)
            && (st == TruncIpv6 <==> n < 40 <= w)
            && (st == BadIpv6Version <==> n >= 40 && d[0] / 16 != 6)
            && (st == BadIpv6PayloadLen <==> n >= 40 && d[0] / 16 == 6 && Word(d, 4) > w - 40)
            && (st == Ok <==> n >= 40 && d[0] / 16 == 6 && Word(d, 4) <= w - 40)
  {
  }

  lemma Ipv6Refused(s: Span)
    requires s.Valid() && Ipv6Verdict(s) != Ok
    ensures DecodeIpv6(s).status == Ipv6Verdict(s) && DecodeIpv6(s).l3 == NO_L3 && DecodeIpv6(s).l4 == NO_L4
  {
    hide Ipv6Verdict, WalkIpv6, DecodeTransport;
  }

  /** What the chain makes of a packet with a valid header and, if it has an end, its transport header. */
  lemma Ipv6Accepted(s: Span)
    requires s.Valid() && Ipv6Verdict(s) == Ok
    ensures |s.data| >= 40 && Word(s.data, 4) <= s.wire - 40
    ensures var d, r := s.data, DecodeIpv6(s);
            var body := Span(s.off + 40, d[40..Min(|d|, 40 + Word(d, 4))], Word(d, 4));
            var c := WalkIpv6(body, d[6], 0, L3(true, 6, 0, d[8..24], d[24..40], FragNone, 0));
            if c.status == Ok then r == DecodeTransport(c.rest, c.l3) && r.l3 == c.l3
            else r.status == c.status && r.l3 == c.l3 && r.l4 == NO_L4
  {
    hide DecodeTransport, WalkIpv6, Advance, Clip, Ipv6Verdict;
    Ipv6HeaderVerdict(s);
    AdvancedThenClipped(s, 40, Word(s.data, 4));
    var c := WalkIpv6(Clip(Advance(s, 40), Word(s.data, 4)), s.data[6], 0, Ipv6L3(s));
    TransportOf(c.rest, c.l3);
  }

  lemma AdvancedThenClipped(s: Span, n: nat, len: nat)
    requires s.Valid() && n <= |s.data| && len <= s.wire - n
    ensures Advance(s, n).Valid()
    ensures Clip(Advance(s, n), len) == Span(s.off + n, s.data[n..Min(|s.data|, n + len)], len)
  {
    assert s.data[n..][..Min(|s.data| - n, len)] == s.data[n..Min(|s.data|, n + len)];
  }

  /** One step along the chain, for every type of header, every number of headers already walked and
      every amount of bytes that is left. */
  lemma ChainStep(s: Span, next: byte, hops: nat, l3: L3)
    requires s.Valid() && hops <= 8
    ensures var d, n, w, r := s.data, |s.data|, s.wire, WalkIpv6(s, next, hops, l3);
            // Hop-by-hop options, routing, fragment and destination options.
            var ext := next == 0 || next == 43 || next == 44 || next == 60;
            // How much of the header has to be there to know how long it is, and how long it is.
            var least := if next == 44 then 8 else 2;
            var len := if next == 44 || n < 2 then 8 else 8 * (d[1] as nat + 1);
            && (!ext ==> r == ChainResult(Ok, l3.(proto := next), s))
            && (ext && hops == 8 ==> r == ChainResult(BadIpv6Ext, l3, s))
            && (ext && hops < 8 && n < least ==>
                  r == ChainResult(if least <= w then TruncIpv6Ext else BadIpv6Ext, l3, s))
            && (ext && hops < 8 && least <= n < len ==>
                  r == ChainResult(if len <= w then TruncIpv6Ext else BadIpv6Ext, l3, s))
            && (ext && hops < 8 && least <= n && len <= n ==>
                  var rest := Span(s.off + len, d[len..], w - len);
                  if next != 44 then r == WalkIpv6(rest, d[0], hops + 1, l3)
                  else
                    var offset, more, id := Word(d, 2) / 8, Word(d, 2) % 2 == 1, 65536 * Word(d, 4) + Word(d, 6);
                    if offset > 0 then r == ChainResult(Ok, l3.(fragId := id, frag := FragLater, proto := d[0]), rest)
                    else
                      var l3' := l3.(fragId := id, frag := if more then FragFirst else l3.frag);
                      l3.frag != FragLater ==> r == WalkIpv6(rest, d[0], hops + 1, l3'))
  {
    hide WalkIpv6;
    Ipv6ExtStep(s, next, hops, l3);
  }

  // ----- GTPv1-U (sections 5.1 and 5.2 of 3GPP TS 29.281) -----

  /** The fixed header and the optional fields. */
  lemma GtpuVerdict(s: Span)
    requires s.Valid() && s.wire >= 8
    ensures var d, n, w, r := s.data, |s.data|, s.wire, DecodeGtpu(s);
            && (n < 8 ==> r.gtp == Gtp(true, TruncGtpu, false, 0, 0, false, 0, 0, 0) && r.inner == NO_INNER)
            && (n >= 8 && d[0] / 16 != 3 ==> r.gtp == Gtp(true, Ok, false, 0, 0, false, 0, 0, 0) && r.inner == NO_INNER)
            && (n >= 8 && d[0] / 16 == 3 ==>
                  var len, teid := Word(d, 2), 65536 * Word(d, 4) + Word(d, 6);
                  var options := d[0] % 8 != 0;
                  var n', w' := Min(n - 8, len), len;
                  var g := Gtp(true, Ok, true, d[0], d[1], false, 0, teid, 0);
                  if len > w - 8 then r.gtp == g.(status := BadGtpuLen) && r.inner == NO_INNER
                  else if !options then r == DecodeGtpuBody(Span(s.off + 8, d[8..8 + n'], w'), 0, g)
                  else if n' < 4
                  then r.gtp == g.(status := if 4 <= w' then TruncGtpu else BadGtpuLen) && r.inner == NO_INNER
                  else
                    var seqNo := if d[0] / 2 % 2 == 1 then Word(d, 8) else 0;
                    var next := if d[0] / 4 % 2 == 1 then d[11] else 0;
                    r == DecodeGtpuBody(Span(s.off + 12, d[12..8 + n'], w' - 4), next, g.(seqNo := seqNo)))
  {
    hide DecodeGtpuBody;
    if |s.data| >= 8 {
      FlagNibble(s.data[0]);
      var len := Word(s.data, 2);
      if len <= s.wire - 8 {
        var b := Clip(Advance(s, 8), len);
        assert b.data == s.data[8..8 + Min(|s.data| - 8, len)];
        if |b.data| >= 4 {
          assert b.data[4..] == s.data[12..8 + Min(|s.data| - 8, len)];
        }
      }
    }
  }

  lemma FlagNibble(flags: byte)
    ensures IsGtpV1U(flags) <==> flags / 16 == 3
    ensures GtpuFlagPn(flags) <==> flags % 2 == 1
    ensures GtpuHasOptions(flags) <==> flags % 8 != 0
    ensures GtpuFlagE(flags) <==> flags / 4 % 2 == 1
    ensures GtpuFlagS(flags) <==> flags / 2 % 2 == 1
  {
  }

  /** The extension headers and what follows them. */
  lemma GtpuBodyVerdict(s: Span, next: byte, g: Gtp)
    requires s.Valid()
    ensures var e, r := WalkGtpuExt(s, next, 0), DecodeGtpuBody(s, next, g);
            && (e.status != Ok ==> r.gtp == g.(status := e.status, extCount := e.count) && r.inner == NO_INNER)
            && (e.status == Ok && g.msgType != 255 ==>
                  r.gtp == g.(extCount := e.count, msgOk := true) && r.inner == NO_INNER)
            && (e.status == Ok && g.msgType == 255 ==>
                  var u := DecodeInnerIp(e.rest);
                  r.gtp == g.(extCount := e.count, msgOk := true, status := u.status) && r.inner == InnerOf(u.l3, u.l4))
  {
  }

  /** One step along the chain of extension headers. */
  lemma ExtStep(s: Span, next: byte, hops: nat)
    requires s.Valid() && hops <= 16
    ensures var d, n, w, r := s.data, |s.data|, s.wire, WalkGtpuExt(s, next, hops);
            var len := if n < 1 then 1 else 4 * d[0] as nat;
            && (next == 0 ==> r == ExtResult(Ok, hops, s))
            && (next != 0 && hops == 16 ==> r == ExtResult(BadGtpuExt, hops, s))
            && (next != 0 && hops < 16 && n < 1 ==>
                  r == ExtResult(if 1 <= w then TruncGtpuExt else BadGtpuExt, hops, s))
            && (next != 0 && hops < 16 && n >= 1 && len == 0 ==> r == ExtResult(BadGtpuExtLen, hops, s))
            && (next != 0 && hops < 16 && 1 <= n < len ==>
                  r == ExtResult(if len <= w then TruncGtpuExt else BadGtpuExt, hops, s))
            && (next != 0 && hops < 16 && n >= 1 && 0 < len <= n ==>
                  r == WalkGtpuExt(Span(s.off + len, d[len..], w - len), d[len - 1], hops + 1))
  {
    hide WalkGtpuExt;
    GtpuExtStep(s, next, hops);
  }

  /** The user packet: its first four bits choose the decoder, and a frame that is too short is reported
      in the words of the tunnel. */
  lemma InnerVerdict(s: Span)
    requires s.Valid()
    ensures var d, n, w, r := s.data, |s.data|, s.wire, DecodeInnerIp(s);
            && (n < 1 ==>
                  r.status == (if 1 <= w then TruncGtpuInner else BadGtpuInner) && !r.l3.present && !r.l4.present)
            && (n >= 1 && d[0] / 16 != 4 && d[0] / 16 != 6 ==>
                  r.status == BadGtpuInner && !r.l3.present && !r.l4.present)
            && (n >= 1 && (d[0] / 16 == 4 || d[0] / 16 == 6) ==>
                  var p := if d[0] / 16 == 4 then DecodeIpv4(s) else DecodeIpv6(s);
                  && r.l3 == p.l3 && r.l4 == p.l4
                  && r.status == if p.status == BadShortFrame then BadGtpuInnerShort else p.status)
  {
    hide DecodeIpv4, DecodeIpv6;
  }

  /** What is kept of the user packet, and when it counts as a tunnel in a tunnel. */
  lemma InnerFields(l3: L3, l4: L4)
    ensures var i := InnerOf(l3, l4);
            && i.present == l3.present && i.hasL4 == l4.present
            && (i.version, i.proto, i.src, i.dst) ==
               (if l3.present then (l3.version, l3.proto, l3.src, l3.dst) else (0, 0, NO_ADDRESS, NO_ADDRESS))
            && (i.srcPort, i.dstPort) == (if l4.present then (l4.srcPort, l4.dstPort) else (0, 0))
            && (i.nested <==> l4.present && l3.proto == 17 && (l4.srcPort == 2152 || l4.dstPort == 2152))
  {
  }

  // ----- Frames -----

  /** One step along the VLAN tags. */
  lemma VlanTagStep(s: Span, ethertype: uint16, vlans: seq<uint16>)
    requires s.Valid() && |vlans| <= 2
    ensures var d, n, w, r := s.data, |s.data|, s.wire, WalkVlans(s, ethertype, vlans);
            var tag := ethertype == 0x8100 || ethertype == 0x88A8 || ethertype == 0x9100;
            && (!tag ==> r == VlanResult(Ok, ethertype, vlans, s))
            && (tag && |vlans| == 2 ==> r == VlanResult(BadVlanDepth, ethertype, vlans, s))
            && (tag && |vlans| < 2 && n < 4 ==>
                  r == VlanResult(if 4 <= w then TruncVlan else BadShortFrame, ethertype, vlans, s))
            && (tag && |vlans| < 2 && n >= 4 ==>
                  r == WalkVlans(Span(s.off + 4, d[4..], w - 4), Word(d, 2), vlans + [Word(d, 0) % 4096]))
  {
    hide WalkVlans;
    VlanStep(s, ethertype, vlans);
  }

  /** What is said of a frame at each layer. */
  lemma FrameVerdict(d: seq<byte>, wirelen: nat)
    ensures var n, w, p := |d|, Max(wirelen, |d|), DecodeFrame(d, wirelen);
            && (n < 14 ==> p == NO_PACKET.(status := if 14 <= w then TruncEthernet else BadShortFrame))
            && (n >= 14 ==>
                  var v := WalkVlans(Span(14, d[14..], w - 14), Word(d, 12), []);
                  && (v.status != Ok ==> p == NO_PACKET.(status := v.status, l2 := L2(false, 0, v.vlans)))
                  && (v.status == Ok ==>
                        && p.l2 == L2(true, v.ethertype, v.vlans)
                        && (v.ethertype != 0x0800 && v.ethertype != 0x86DD ==>
                              p == NO_PACKET.(l2 := L2(true, v.ethertype, v.vlans)))
                        && (v.ethertype == 0x0800 || v.ethertype == 0x86DD ==>
                              var r := if v.ethertype == 0x0800 then DecodeIpv4(v.rest) else DecodeIpv6(v.rest);
                              && p.status == r.status && p.l3 == r.l3 && p.l4 == r.l4
                              && (p.gtp.isGtpu <==>
                                    && r.status == Ok && r.l3.frag == FragNone && r.l4.present && r.l3.proto == 17
                                    && (r.l4.srcPort == 2152 || r.l4.dstPort == 2152) && r.rest.wire >= 16)
                              && (!p.gtp.isGtpu ==> p.gtp == NO_GTP && p.inner == NO_INNER)
                              && (p.gtp.isGtpu ==>
                                    |r.rest.data| >= 8 && r.rest.wire >= 16 &&
                                    var g := DecodeGtpu(Span(r.rest.off + 8, r.rest.data[8..], r.rest.wire - 8));
                                    p.gtp == g.gtp && p.inner == g.inner))))
  {
    hide WalkVlans, DecodeIpv4, DecodeIpv6, DecodeGtpu;
    var o := DecodeOuter(FrameSpan(d, wirelen));
    if CarriesGtpu(o) {
      GtpuIsGtpu(GtpuSpan(o));
    }
  }

  lemma GtpuIsGtpu(s: Span)
    requires s.Valid() && s.wire >= 8
    ensures DecodeGtpu(s).gtp.isGtpu
  {
  }

  // ----- The reasons in the order of their numbers -----

  lemma TruncationOrder(st: DecodeStatus)
    ensures st.IsTruncation() <==>
            st in {TruncEthernet, TruncVlan, TruncIpv4, TruncIpv6, TruncIpv6Ext, TruncTcp, TruncUdp, TruncIcmp,
                   TruncGtpu, TruncGtpuExt, TruncGtpuInner}
    ensures st.IsMalformation() <==> !st.IsTruncation() && st != Ok
  {
  }

  lemma TruncationNumbers()
    ensures Ok.Number() == 0 && TruncEthernet.Number() == 1 && TruncVlan.Number() == 2 && TruncIpv4.Number() == 3
    ensures TruncIpv6.Number() == 4 && TruncIpv6Ext.Number() == 5 && TruncTcp.Number() == 6 && TruncUdp.Number() == 7
    ensures TruncIcmp.Number() == 8 && TruncGtpu.Number() == 9 && TruncGtpuExt.Number() == 10
    ensures TruncGtpuInner.Number() == 11
  {
  }

  lemma NetworkNumbers()
    ensures BadShortFrame.Number() == 12 && BadVlanDepth.Number() == 13 && BadIpv4Version.Number() == 14
    ensures BadIpv4Ihl.Number() == 15
    ensures BadIpv4TotalLen.Number() == 16 && BadIpv6Version.Number() == 17 && BadIpv6PayloadLen.Number() == 18
    ensures BadIpv6Ext.Number() == 19
  {
  }

  lemma TransportNumbers()
    ensures BadL4Len.Number() == 20 && BadTcpDoff.Number() == 21 && BadUdpLen.Number() == 22
    ensures BadGtpuLen.Number() == 23
    ensures BadGtpuExtLen.Number() == 24 && BadGtpuExt.Number() == 25 && BadGtpuInner.Number() == 26
    ensures BadGtpuInnerShort.Number() == 27
  {
  }

  lemma HeaderProblems(st: DecodeStatus)
    ensures st.IsGtpuHeaderProblem() <==>
            st == TruncGtpu || st == TruncGtpuExt || st == BadGtpuLen || st == BadGtpuExtLen || st == BadGtpuExt
  {
  }
}
