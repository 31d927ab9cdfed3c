/** The fragment loop of tools/gen_pcap.py: what it sends can be put together again in any order, and
    the analyzer attributes every fragment to the ports of its datagram. */
module GeneratedFragments {
  import opened Bits
  import opened Bytes
  import opened DecodeSpec
  import opened FragCaches
  import opened HeaderRoundTrip
  import opened InternetChecksum
  import opened Packet

  /** What fits a 1500-byte packet behind the IP header: a multiple of eight. */
  const FRAGMENT_LEN: nat := 1480

  datatype Part = Part(offset: nat, chunk: seq<byte>, more: bool, packet: seq<byte>)

  /** Consecutive pieces, all but the last one full, that start at 0 and end where the datagram does. */
  ghost predicate Cuts(parts: seq<Part>, dgram: seq<byte>) {
    && |parts| == (|dgram| + FRAGMENT_LEN - 1) / FRAGMENT_LEN
    && forall i :: 0 <= i < |parts| ==> IsCut(parts[i], i, |parts|, dgram)
  }

  ghost predicate IsCut(p: Part, i: nat, n: nat, dgram: seq<byte>) {
    var end := Min(p.offset + FRAGMENT_LEN, |dgram|);
    && p.offset == FRAGMENT_LEN * i < |dgram| && p.chunk == dgram[p.offset..end]
    && (p.more <==> i + 1 < n)
  }

  /** The IPv4 packet around a part: an intact header that says where the part belongs. */
  ghost predicate Carries(p: Part, src: seq<byte>, dst: seq<byte>, ident: uint16) {
    && |src| == 4 && |dst| == 4 && p.offset < 0x1_0000 && |p.chunk| <= FRAGMENT_LEN
    && |p.packet| == 20 + |p.chunk| && p.packet[20..] == p.chunk && Verifies(p.packet[..20])
    && FragmentWord(false, p.offset, p.more) < 0x1_0000
    && exists c :: p.packet[..20] ==
                   Ipv4Words(|p.chunk|, ident, FragmentWord(false, p.offset, p.more), PROTO_UDP, c) + src + dst
  }

  method SendFragments(dgram: seq<byte>, src: seq<byte>, dst: seq<byte>, ident: uint16) returns (parts: seq<Part>)
    requires |src| == 4 && |dst| == 4 && |dgram| < 0x1_0000
    ensures Cuts(parts, dgram)
    ensures forall p :: p in parts ==> Carries(p, src, dst, ident)
  {
    hide Verifies, Ipv4Words, FragmentWord;
    parts := [];
    var off: nat := 0;
    while off < |dgram|
      invariant off == Min(FRAGMENT_LEN * |parts|, |dgram|)
      invariant forall i :: 0 <= i < |parts| ==> IsCut(parts[i], i, (|dgram| + FRAGMENT_LEN - 1) / FRAGMENT_LEN, dgram)
      invariant forall p :: p in parts ==> Carries(p, src, dst, ident)
      invariant |parts| <= (|dgram| + FRAGMENT_LEN - 1) / FRAGMENT_LEN
    {
      var chunk := dgram[off..Min(off + FRAGMENT_LEN, |dgram|)];
      var more := off + |chunk| < |dgram|;
      var packet := Ipv4Packet(src, dst, PROTO_UDP, chunk, ident, false, off, more);
      parts := parts + [Part(off, chunk, more, packet.value)];
      off := off + |chunk|;
    }
  }

  // ----- Putting the datagram together again -----

  predicate Covers(p: Part, at: nat) {
    p.offset <= at < p.offset + |p.chunk|
  }

  /** Byte `at` of the datagram, as this part has it. */
  ghost predicate Holds(p: Part, at: nat, b: byte) {
    Covers(p, at) && p.chunk[at - p.offset] == b
  }

  ghost predicate SomeHolds(parts: seq<Part>, at: nat, b: byte) {
    exists i :: 0 <= i < |parts| && Holds(parts[i], at, b)
  }

  /** Every byte of the datagram is in exactly one part, at its own distance from the offset; offsets
      are whole units of eight bytes; exactly the part that ends the datagram is marked as last. */
  lemma EveryByteOnce(parts: seq<Part>, dgram: seq<byte>)
    requires Cuts(parts, dgram)
    ensures forall at :: 0 <= at < |dgram| ==> SomeHolds(parts, at, dgram[at])
    ensures forall i, j, at ::
              0 <= i < |parts| && 0 <= j < |parts| && Covers(parts[i], at) && Covers(parts[j], at) ==> i == j
    ensures forall i :: 0 <= i < |parts| ==>
              parts[i].offset % 8 == 0 && (!parts[i].more <==> parts[i].offset + |parts[i].chunk| == |dgram|)
  {
    forall at | 0 <= at < |dgram|
      ensures SomeHolds(parts, at, dgram[at])
    {
      var i := at / FRAGMENT_LEN;
      assert IsCut(parts[i], i, |parts|, dgram);
      assert Holds(parts[i], at, dgram[at]);
    }
    forall i, j, at | 0 <= i < |parts| && 0 <= j < |parts| && Covers(parts[i], at) && Covers(parts[j], at)
      ensures i == j
    {
      assert IsCut(parts[i], i, |parts|, dgram) && IsCut(parts[j], j, |parts|, dgram);
    }
    forall i | 0 <= i < |parts|
      ensures parts[i].offset % 8 == 0 && (!parts[i].more <==> parts[i].offset + |parts[i].chunk| == |dgram|)
    {
      assert IsCut(parts[i], i, |parts|, dgram);
    }
  }

  /** All parts but the last are full. */
  lemma PartSizes(parts: seq<Part>, dgram: seq<byte>)
    requires Cuts(parts, dgram)
    ensures forall i :: 0 <= i < |parts| ==>
              0 < |parts[i].chunk| <= 1480 && (i < |parts| - 1 ==> |parts[i].chunk| == 1480)
  {
    forall i | 0 <= i < |parts|
      ensures 0 < |parts[i].chunk| <= 1480 && (i < |parts| - 1 ==> |parts[i].chunk| == 1480)
    {
      assert IsCut(parts[i], i, |parts|, dgram);
      if i < |parts| - 1 {
        assert IsCut(parts[i + 1], i + 1, |parts|, dgram);
      }
    }
  }

  // ----- What the analyzer makes of it -----

  function FragOf(p: Part): FragKind {
    if p.offset > 0 then FragLater else if p.more then FragFirst else FragNone
  }

  lemma FragmentWordReads(p: Part)
    requires p.offset < 0x1_0000 && p.offset % 8 == 0
    ensures FragmentWord(false, p.offset, p.more) < 0x1_0000
    ensures Ipv4Frag(FragmentWord(false, p.offset, p.more)) == FragOf(p)
  {
    hide BitOr, Pow2;
    var m: nat, x: nat := if p.more then 1 else 0, p.offset / 8;
    FragmentWordFits(false, p.offset, p.more);
    FlagAndOffset(m, x);
    assert (m * 0x2000 + x) % 0x2000 == x && (m * 0x2000 + x) / 0x2000 == m;
  }

  lemma FlagAndOffset(m: nat, x: nat)
    requires m <= 1 && x < 0x2000
    ensures BitOr(BitOr(0, m * 0x2000), x) == m * 0x2000 + x
  {
    assert Pow2(13) == 0x2000;
    DisjointOr(m, x, 13);
    assert BitOr(0, m * 0x2000) == m * 0x2000;
    hide BitOr;
  }

  function PartL3(p: Part, src: seq<byte>, dst: seq<byte>, ident: uint16): L3
    requires |src| == 4 && |dst| == 4
  {
    L3(true, 4, PROTO_UDP, Padded(src), Padded(dst), FragOf(p), ident)
  }

  lemma Ipv4WordsRead(data: seq<byte>, payloadLen: nat, ident: uint16, flags: uint16, proto: byte, c: uint16)
    requires 20 + payloadLen < 0x1_0000 && Starts(data, Ipv4Words(payloadLen, ident, flags, proto, c))
    ensures data[0] == 0x45 && data[9] == proto
    ensures LoadBe16(data, 2) == 20 + payloadLen && LoadBe16(data, 4) == ident && LoadBe16(data, 6) == flags
  {
    hide Be16;
    var b := Ipv4Words(payloadLen, ident, flags, proto, c);
    assert data[0] == b[0] && data[9] == b[9];
    assert data[2..4] == b[2..4] == Be16(20 + payloadLen);
    assert data[4..6] == b[4..6] == Be16(ident);
    assert data[6..8] == b[6..8] == Be16(flags);
    Load16(data, 2, 20 + payloadLen);
    Load16(data, 4, ident);
    Load16(data, 6, flags);
  }

  /** The decoder sees the part, its place and its identification, whatever padding follows. */
  lemma PartDecodes(p: Part, src: seq<byte>, dst: seq<byte>, ident: uint16, off: nat, pad: seq<byte>)
    requires Carries(p, src, dst, ident) && p.offset % 8 == 0
    ensures DecodeIpv4(Span(off, p.packet + pad, |p.packet| + |pad|)) ==
            DecodeTransport(Span(off + 20, p.chunk, |p.chunk|), PartL3(p, src, dst, ident))
  {
    hide DecodeTransport, Ipv4Words, FragmentWord, Padded, Ipv4Frag, Verifies;
    var flags := FragmentWord(false, p.offset, p.more);
    var c :| p.packet[..20] == Ipv4Words(|p.chunk|, ident, flags, PROTO_UDP, c) + src + dst;
    var s := Span(off, p.packet + pad, |p.packet| + |pad|);
    assert s.data[..20] == p.packet[..20];
    assert s.data[..12] == s.data[..20][..12] == Ipv4Words(|p.chunk|, ident, flags, PROTO_UDP, c);
    Ipv4WordsRead(s.data, |p.chunk|, ident, flags, PROTO_UDP, c);
    FragmentWordReads(p);
    assert s.data[12..16] == s.data[..20][12..16] == src;
    assert s.data[16..20] == s.data[..20][16..20] == dst;
    assert Ipv4HeaderLen(s) == 20 && Ipv4TotalLen(s) == |p.packet| && Ipv4Verdict(s) == Ok;
    assert Ipv4L3(s) == PartL3(p, src, dst, ident);
    assert s.data[..|p.packet|][20..] == p.chunk;
  }

  /** A decoded packet with the network and transport layer of `r`. */
  ghost predicate ShowsLayers(p: PacketInfo, r: IpResult) {
    p.status == r.status && p.l3 == r.l3 && p.l4 == r.l4
  }

  /** A datagram and the addresses and identification it is sent with. */
  datatype Udp = Udp(src: seq<byte>, dst: seq<byte>, ident: uint16, sport: uint16, dport: uint16,
                     payload: seq<byte>, csum: uint16)

  /** Large enough to be cut and small enough for its length field. */
  ghost predicate IsCutInParts(u: Udp, parts: seq<Part>) {
    && |u.src| == 4 && |u.dst| == 4 && FRAGMENT_LEN < 8 + |u.payload| < 0x1_0000
    && Cuts(parts, UdpFixed(u.sport, u.dport, |u.payload|, u.csum) + u.payload)
    && forall p :: p in parts ==> Carries(p, u.src, u.dst, u.ident)
  }

  /** The first part shows the ports and is recorded; the others ask for them. */
  lemma PartKinds(p: Part, u: Udp, off: nat, q: PacketInfo)
    requires |u.src| == 4 && |u.dst| == 4 && 8 + |u.payload| < 0x1_0000
    requires p.offset == 0 ==> p.more && Starts(p.chunk, UdpFixed(u.sport, u.dport, |u.payload|, u.csum))
    requires ShowsLayers(q, DecodeTransport(Span(off, p.chunk, |p.chunk|), PartL3(p, u.src, u.dst, u.ident)))
    ensures PlaysPart(q, u, p.offset == 0)
  {
    hide Be16, LoadBe16, Padded;
    if p.offset == 0 {
      var b := UdpFixed(u.sport, u.dport, |u.payload|, u.csum);
      assert p.chunk[0..2] == b[0..2] == Be16(u.sport);
      assert p.chunk[2..4] == b[2..4] == Be16(u.dport);
      assert p.chunk[4..6] == b[4..6] == Be16(8 + |u.payload|);
      Load16(p.chunk, 0, u.sport);
      Load16(p.chunk, 2, u.dport);
      Load16(p.chunk, 4, 8 + |u.payload|);
    }
  }

  ghost predicate PlaysPart(q: PacketInfo, u: Udp, first: bool)
    requires |u.src| == 4 && |u.dst| == 4
  {
    && (if first then Records(q) && EntryOf(q).ports == Ports(u.sport, u.dport) else Asks(q))
    && DatagramOf(q) == Datagram(4, PROTO_UDP, u.ident, Padded(u.src), Padded(u.dst))
  }

  /** What the cache has recorded when the packets before `n` have passed. */
  ghost function HistoryAfter(history: seq<FragEntry>, qs: seq<PacketInfo>, n: nat): seq<FragEntry>
    requires n <= |qs|
  {
    if n == 0 then history else Recorded(HistoryAfter(history, qs, n - 1), qs[n - 1])
  }

  /** A decoded packet that shows a part somewhere in a frame, followed by some padding. */
  ghost predicate ShowsPart(q: PacketInfo, p: Part, off: nat, pad: seq<byte>) {
    ShowsLayers(q, DecodeIpv4(Span(off, p.packet + pad, |p.packet| + |pad|)))
  }

  ghost predicate Shown(qs: seq<PacketInfo>, parts: seq<Part>) {
    && |qs| == |parts|
    && forall i :: 0 <= i < |parts| ==> exists off: nat, pad: seq<byte> :: ShowsPart(qs[i], parts[i], off, pad)
  }

  lemma PartIs(parts: seq<Part>, u: Udp, qs: seq<PacketInfo>, i: nat)
    requires IsCutInParts(u, parts) && Shown(qs, parts) && i < |parts|
    ensures PlaysPart(qs[i], u, i == 0)
  {
    hide DecodeTransport, DecodeIpv4, UdpFixed, Carries, PlaysPart, PartL3;
    var p := parts[i];
    var dgram := UdpFixed(u.sport, u.dport, |u.payload|, u.csum) + u.payload;
    assert Carries(p, u.src, u.dst, u.ident) && IsCut(p, i, |parts|, dgram);
    var off: nat, pad: seq<byte> :| ShowsPart(qs[i], p, off, pad);
    PartDecodes(p, u.src, u.dst, u.ident, off, pad);
    if i == 0 {
      assert p.chunk[..8] == UdpFixed(u.sport, u.dport, |u.payload|, u.csum);
    }
    PartKinds(p, u, off + 20, qs[i]);
  }

  /** Whatever the cache held before, once the parts have been decoded and passed through it in order
      every part has the ports of the datagram it is a part of. */
  lemma {:induction false} EveryPartAttributed(parts: seq<Part>, u: Udp, qs: seq<PacketInfo>,
                                               history: seq<FragEntry>, hash: DatagramHash, i: nat)
    requires IsCutInParts(u, parts) && Shown(qs, parts) && i < |parts|
    ensures var q := Attributed(HistoryAfter(history, qs, i), qs[i], hash);
            q.l4.srcPort == u.sport && q.l4.dstPort == u.dport
    ensures i > 0 ==> HistoryAfter(history, qs, i) == history + [EntryOf(qs[0])]
  {
    hide IsCutInParts, Shown, SlotFor, Padded;
    SameCount(qs, parts, u);
    PartIs(parts, u, qs, i);
    if i > 0 {
      EveryPartAttributed(parts, u, qs, history, hash, i - 1);
      PartIs(parts, u, qs, i - 1);
      PartIs(parts, u, qs, 0);
      assert HistoryAfter(history, qs, 0) == history;
    }
  }

  lemma SameCount(qs: seq<PacketInfo>, parts: seq<Part>, u: Udp)
    requires Shown(qs, parts) && IsCutInParts(u, parts)
    ensures |qs| == |parts| && |u.src| == 4 && |u.dst| == 4
  {
  }
}
