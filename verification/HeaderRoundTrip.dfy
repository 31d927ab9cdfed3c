/** Reading undoes writing, header by header: what a load finds in bytes that start with a written
    header, and where the decoder stands behind it. */
module HeaderRoundTrip {
  import opened Bytes
  import opened Collections
  import opened DecodeSpec
  import opened FrameFormat
  import opened Packet

  /** `data` starts with the bytes `b`. */
  predicate Starts(data: seq<byte>, b: seq<byte>) {
    |b| <= |data| && data[..|b|] == b
  }

  lemma Load16(data: seq<byte>, i: nat, v: uint16)
    requires i + 2 <= |data| && data[i..i + 2] == Be16(v)
    ensures LoadBe16(data, i) == v
  {
    LoadsUndoStores16(data, i, v);
  }

  lemma Load32(data: seq<byte>, i: nat, v: uint32)
    requires i + 4 <= |data| && data[i..i + 4] == Be32(v)
    ensures LoadBe32(data, i) == v
  {
    LoadsUndoStores32(data, i, v);
  }

  // ----- Transport headers -----

  /** A TCP header with up to ten words of options. */
  function TcpHeader(sport: uint16, dport: uint16, flags: byte, options: seq<byte>): (s: seq<byte>)
    requires |options| % 4 == 0 && |options| <= 40
    ensures |s| == 20 + |options|
  {
    TcpStart(sport, dport) + [16 * (5 + |options| / 4), flags] + Be16(65535) + [0, 0, 0, 0] + options
  }

  lemma TcpHeaderPlain(sport: uint16, dport: uint16, flags: byte)
    ensures TcpHeader(sport, dport, flags, []) == TcpBytes(sport, dport, flags)
  {
    hide TcpStart;
  }

  lemma TcpReads(data: seq<byte>, sport: uint16, dport: uint16, flags: byte, options: seq<byte>)
    requires |options| % 4 == 0 && |options| <= 40 && Starts(data, TcpHeader(sport, dport, flags, options))
    ensures LoadBe16(data, 0) == sport && LoadBe16(data, 2) == dport
    ensures data[12] / 16 == 5 + |options| / 4 && data[13] == flags
  {
    hide Be16, Be32;
    var b := TcpHeader(sport, dport, flags, options);
    assert data[0..2] == b[0..2] == Be16(sport);
    assert data[2..4] == b[2..4] == Be16(dport);
    Load16(data, 0, sport);
    Load16(data, 2, dport);
    assert data[12] == b[12] && data[13] == b[13];
  }

  lemma UdpReads(data: seq<byte>, sport: uint16, dport: uint16, payloadLen: nat)
    requires Starts(data, UdpBytes(sport, dport, payloadLen)) && 8 + payloadLen < 0x1_0000
    ensures LoadBe16(data, 0) == sport && LoadBe16(data, 2) == dport && LoadBe16(data, 4) == 8 + payloadLen
  {
    hide Be16;
    var b := UdpBytes(sport, dport, payloadLen);
    assert data[0..2] == b[0..2] == Be16(sport);
    assert data[2..4] == b[2..4] == Be16(dport);
    assert data[4..6] == b[4..6] == Be16(8 + payloadLen);
    Load16(data, 0, sport);
    Load16(data, 2, dport);
    Load16(data, 4, 8 + payloadLen);
  }

  // ----- IP headers -----

  lemma Ipv4FixedReads(data: seq<byte>, proto: byte, totalLen: nat, optWords: nat, frag: uint16)
    requires Starts(data, Ipv4Fixed(proto, totalLen, optWords, frag)) && totalLen < 0x1_0000 && optWords <= 10
    ensures data[0] == 0x45 + optWords && data[9] == proto
    ensures LoadBe16(data, 2) == totalLen && LoadBe16(data, 4) == 0x1234 && LoadBe16(data, 6) == frag
  {
    hide Be16;
    var b := Ipv4Fixed(proto, totalLen, optWords, frag);
    assert data[0] == b[0] && data[9] == b[9];
    assert data[2..4] == b[2..4] == Be16(totalLen);
    assert data[4..6] == b[4..6] == Be16(0x1234);
    assert data[6..8] == b[6..8] == Be16(frag);
    Load16(data, 2, totalLen);
    Load16(data, 4, 0x1234);
    Load16(data, 6, frag);
  }

  /** An IPv4 address as the decoder holds it: followed by twelve zeroes. */
  function Extended(a: seq<byte>): Address
    requires |a| == 4
  {
    [a[0], a[1], a[2], a[3], 0, 0, 0, 0, 0, 0, 0, 0, 0, 0, 0, 0]
  }

  lemma ExtendedIsPadded(a: seq<byte>)
    requires |a| == 4
    ensures Padded(a) == Extended(a)
  {
  }

  /** What the decoder keeps of a built IPv4 header. */
  function BuiltIpv4(proto: byte, src: seq<byte>, dst: seq<byte>, kind: FragKind): L3
    requires |src| == 4 && |dst| == 4
  {
    L3(true, 4, proto, Extended(src), Extended(dst), kind, 0x1234)
  }

  lemma Ipv4Reads(data: seq<byte>, proto: byte, src: seq<byte>, dst: seq<byte>, payloadLen: nat, optWords: nat,
                  frag: uint16)
    requires |src| == 4 && |dst| == 4 && optWords <= 10 && 20 + 4 * optWords + payloadLen < 0x1_0000
    requires Starts(data, Ipv4Bytes(proto, src, dst, payloadLen, optWords, frag))
    ensures data[0] == 0x45 + optWords && LoadBe16(data, 2) == 20 + 4 * optWords + payloadLen
    ensures Ipv4L3(Span(0, data, |data|)) == BuiltIpv4(proto, src, dst, Ipv4Frag(frag))
  {
    hide Ipv4Fixed, Fill, Padded, Extended, Ipv4Frag, LoadBe16;
    ExtendedIsPadded(src);
    ExtendedIsPadded(dst);
    var b := Ipv4Bytes(proto, src, dst, payloadLen, optWords, frag);
    assert data[..12] == b[..12] == Ipv4Fixed(proto, 20 + 4 * optWords + payloadLen, optWords, frag);
    Ipv4FixedReads(data, proto, 20 + 4 * optWords + payloadLen, optWords, frag);
    assert data[12..16] == b[12..16] == src;
    assert data[16..20] == b[16..20] == dst;
  }

  /** Behind a built IPv4 header the decoder sees exactly the payload, without what follows it. */
  lemma Ipv4Decodes(off: nat, wire: nat, proto: byte, src: seq<byte>, dst: seq<byte>, optWords: nat, frag: uint16,
                    payload: seq<byte>, extra: seq<byte>)
    requires |src| == 4 && |dst| == 4 && optWords <= 10 && 20 + 4 * optWords + |payload| < 0x1_0000
    requires wire == 20 + 4 * optWords + |payload| + |extra|
    ensures var hlen := 20 + 4 * optWords;
            DecodeIpv4(Span(off, Ipv4Bytes(proto, src, dst, |payload|, optWords, frag) + payload + extra, wire)) ==
            DecodeTransport(Span(off + hlen, payload, |payload|), BuiltIpv4(proto, src, dst, Ipv4Frag(frag)))
  {
    hide DecodeTransport, Ipv4Bytes, BuiltIpv4, LoadBe16;
    var hlen, total := 20 + 4 * optWords, 20 + 4 * optWords + |payload|;
    var hdr := Ipv4Bytes(proto, src, dst, |payload|, optWords, frag);
    var s := Span(off, hdr + payload + extra, wire);
    assert s.data[..hlen] == hdr;
    Ipv4Reads(s.data, proto, src, dst, |payload|, optWords, frag);
    assert s.data[..total][hlen..] == payload;
  }

  lemma Ipv6Reads(data: seq<byte>, next: byte, src: Address, dst: Address, payloadLen: nat)
    requires Starts(data, Ipv6Bytes(next, src, dst, payloadLen)) && payloadLen < 0x1_0000
    ensures data[0] == 0x60 && data[6] == next && LoadBe16(data, 4) == payloadLen
    ensures data[8..24] == src && data[24..40] == dst
  {
    hide Be16;
    var b := Ipv6Bytes(next, src, dst, payloadLen);
    assert data[0] == b[0] && data[6] == b[6];
    assert data[4..6] == b[4..6] == Be16(payloadLen);
    assert data[8..24] == b[8..24] == src;
    assert data[24..40] == b[24..40] == dst;
    Load16(data, 4, payloadLen);
  }

  // ----- Ethernet and VLAN tags -----

  lemma EthReads(data: seq<byte>, ethertype: uint16, rest: seq<byte>)
    requires data == EthBytes(ethertype) + rest
    ensures LoadBe16(data, 12) == ethertype && data[14..] == rest
  {
    hide Be16;
    assert data[12..14] == Be16(ethertype);
    Load16(data, 12, ethertype);
  }

  /** A VLAN tag: the protocol identifier that announces it and the VLAN number. */
  datatype Tag = Tag(tpid: uint16, vid: uint16)

  predicate TagsFit(tags: seq<Tag>) {
    forall i :: 0 <= i < |tags| ==> IsVlanTag(tags[i].tpid) && tags[i].vid < 0x1000
  }

  function FirstType(tags: seq<Tag>, ethertype: uint16): uint16 {
    if tags == [] then ethertype else tags[0].tpid
  }

  function TagsBytes(tags: seq<Tag>, ethertype: uint16): seq<byte> {
    if tags == [] then [] else VlanBytes(tags[0].vid, FirstType(tags[1..], ethertype)) + TagsBytes(tags[1..], ethertype)
  }

  function Vids(tags: seq<Tag>): (v: seq<uint16>)
    ensures |v| == |tags|
  {
    if tags == [] then [] else [tags[0].vid] + Vids(tags[1..])
  }

  lemma TagReads(data: seq<byte>, vid: uint16, next: uint16, rest: seq<byte>)
    requires data == VlanBytes(vid, next) + rest && vid < 0x1000
    ensures LoadBe16(data, 0) == vid && LoadBe16(data, 2) == next && data[4..] == rest
  {
    hide Be16;
    assert data[0..2] == Be16(vid);
    assert data[2..4] == Be16(next);
    Load16(data, 0, vid);
    Load16(data, 2, next);
  }

  lemma {:induction false} TagsWalk(off: nat, tags: seq<Tag>, ethertype: uint16, rest: seq<byte>, before: seq<uint16>)
    requires TagsFit(tags) && !IsVlanTag(ethertype) && |before| + |tags| <= DECODE_MAX_VLANS
    ensures var b := TagsBytes(tags, ethertype) + rest;
            WalkVlans(Span(off, b, |b|), FirstType(tags, ethertype), before) ==
            VlanResult(Ok, ethertype, before + Vids(tags), Span(off + 4 * |tags|, rest, |rest|))
    decreases |tags|
  {
    hide VlanBytes, LoadBe16;
    var b := TagsBytes(tags, ethertype) + rest;
    if tags == [] {
      assert b == rest && before + Vids(tags) == before;
    } else {
      var more := TagsBytes(tags[1..], ethertype) + rest;
      Assoc(VlanBytes(tags[0].vid, FirstType(tags[1..], ethertype)), TagsBytes(tags[1..], ethertype), rest);
      TagReads(b, tags[0].vid, FirstType(tags[1..], ethertype), more);
      TagsWalk(off + 4, tags[1..], ethertype, rest, before + [tags[0].vid]);
      Assoc(before, [tags[0].vid], Vids(tags[1..]));
    }
  }

  /** An Ethernet header, the tags and what they announce. */
  function TaggedBytes(tags: seq<Tag>, ethertype: uint16, rest: seq<byte>): seq<byte> {
    EthBytes(FirstType(tags, ethertype)) + (TagsBytes(tags, ethertype) + rest)
  }

  /** Behind up to two tags the decoder is left with what they announce. */
  lemma TaggedDecodes(tags: seq<Tag>, ethertype: uint16, rest: seq<byte>)
    requires TagsFit(tags) && |tags| <= DECODE_MAX_VLANS && !IsVlanTag(ethertype)
    ensures var f := TaggedBytes(tags, ethertype, rest);
            var n := DecodeNetwork(Span(14 + 4 * |tags|, rest, |rest|), ethertype);
            DecodeOuter(FrameSpan(f, |f|)) == OuterResult(n.status, L2(true, ethertype, Vids(tags)), n.l3, n.l4, n.rest)
  {
    hide EthBytes, TagsBytes, WalkVlans, DecodeNetwork, LoadBe16, Vids;
    var f := TaggedBytes(tags, ethertype, rest);
    EthReads(f, FirstType(tags, ethertype), TagsBytes(tags, ethertype) + rest);
    TagsWalk(14, tags, ethertype, rest, []);
    assert [] + Vids(tags) == Vids(tags);
  }
}
