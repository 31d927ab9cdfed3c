/** The checksum of tools/gen_pcap.py (RFC 1071), the headers it is put into, and why a receiver that
    sums such a header again finds it intact. */
module InternetChecksum {
  import opened Bits
  import opened Bytes
  import opened FlowKeys

  const ONES: nat := 0xFFFF

  /** The sum of the 16-bit words, an odd last byte standing for the high half of a word. */
  function WordSum(data: seq<byte>): nat {
    if data == [] then 0
    else if |data| == 1 then data[0] as nat * 0x100
    else LoadBe16(data, 0) + WordSum(data[2..])
  }

  lemma {:induction false} WordSumSplits(a: seq<byte>, b: seq<byte>)
    requires |a| % 2 == 0
    ensures WordSum(a + b) == WordSum(a) + WordSum(b)
  {
    if a == [] {
      assert a + b == b;
    } else {
      WordSumSplits(a[2..], b);
      assert (a + b)[2..] == a[2..] + b;
      assert (a + b)[0] == a[0] && (a + b)[1] == a[1];
    }
  }

  /** The 16-bit number equal to `total` modulo 0xFFFF that is zero only for zero: what is left when
      every carry has been added back in. */
  function Folded(total: nat): (f: uint16)
    ensures f % ONES == total % ONES && (f == 0 <==> total == 0)
  {
    if total == 0 then 0
    else
      FoldedKeepsRemainder(total);
      1 + (total - 1) % ONES
  }

  lemma FoldedKeepsRemainder(total: nat)
    requires total > 0
    ensures (1 + (total - 1) % ONES) % ONES == total % ONES
  {
    var q := (total - 1) / ONES;
    assert total == q * ONES + (1 + (total - 1) % ONES);
  }

  lemma FoldedUnique(total: nat, f: uint16)
    requires f % ONES == total % ONES && (f == 0 <==> total == 0)
    ensures f == Folded(total)
  {
  }

  function ChecksumOf(data: seq<byte>): uint16 {
    ONES - Folded(WordSum(data))
  }

  /** The fold: each round keeps the remainder modulo 0xFFFF, and never turns a sum into zero. */
  method Checksum(data: seq<byte>) returns (c: uint16)
    ensures c == ChecksumOf(data)
  {
    var padded := if |data| % 2 == 1 then data + [0] else data;
    if |data| % 2 == 1 {
      PaddingAddsNothing(data);
    }
    var total: nat := WordSum(padded);
    while total / 0x1_0000 != 0
      invariant total % ONES == WordSum(data) % ONES
      invariant total == 0 <==> WordSum(data) == 0
      decreases total
    {
      FoldKeepsRemainder(total);
      total := total % 0x1_0000 + total / 0x1_0000;
    }
    FoldedUnique(WordSum(data), total);
    c := ONES - total;
  }

  lemma FoldKeepsRemainder(total: nat)
    ensures (total % 0x1_0000 + total / 0x1_0000) % ONES == total % ONES
  {
    var q := total / 0x1_0000;
    assert total == (total % 0x1_0000 + q) + q * ONES;
  }

  lemma {:induction false} PaddingAddsNothing(data: seq<byte>)
    requires |data| % 2 == 1
    ensures WordSum(data + [0]) == WordSum(data)
  {
    if |data| > 1 {
      PaddingAddsNothing(data[2..]);
      assert (data + [0])[2..] == data[2..] + [0];
    }
  }

  // ----- Putting it into a header -----

  /** `data` with the word at `at` replaced. */
  function WithWord(data: seq<byte>, at: nat, v: uint16): (r: seq<byte>)
    requires at + 2 <= |data|
    ensures |r| == |data|
  {
    data[..at] + Be16(v) + data[at + 2..]
  }

  lemma WordSumOfWith(data: seq<byte>, at: nat, v: uint16)
    requires at + 2 <= |data| && at % 2 == 0
    ensures WordSum(WithWord(data, at, v)) == WordSum(WithWord(data, at, 0)) + v
  {
    hide WordSum;
    WordSumSplits(data[..at] + Be16(v), data[at + 2..]);
    WordSumSplits(data[..at], Be16(v));
    WordSumSplits(data[..at] + Be16(0), data[at + 2..]);
    WordSumSplits(data[..at], Be16(0));
    OneWord(v);
    OneWord(0);
  }

  lemma OneWord(v: uint16)
    ensures WordSum(Be16(v)) == v
  {
    assert WordSum([]) == 0;
    assert Be16(v)[2..] == [];
    LoadsUndoStores16(Be16(v), 0, v);
    assert Be16(v)[0..2] == Be16(v);
  }

  /** A receiver sums all words, the checksum included, and accepts when nothing but ones is left. */
  predicate Verifies(data: seq<byte>) {
    ChecksumOf(data) == 0
  }

  /** Which words make a block verify: the checksum of the block with a zero in that place, and where
      that is zero, its other representation 0xFFFF. */
  lemma VerifiesExactlyWithChecksum(data: seq<byte>, at: nat, v: uint16)
    requires at + 2 <= |data| && at % 2 == 0
    ensures var c := ChecksumOf(WithWord(data, at, 0));
            Verifies(WithWord(data, at, v)) <==> v == c || (c == 0 && v == ONES)
  {
    hide WordSum;
    var sum := WordSum(WithWord(data, at, 0));
    WordSumOfWith(data, at, v);
    var f: nat := Folded(sum);
    SameRemainder(sum, f, v);
    assert Verifies(WithWord(data, at, v)) <==> Folded(sum + v) == ONES;
  }

  lemma SameRemainder(a: nat, b: nat, v: nat)
    requires a % ONES == b % ONES
    ensures (a + v) % ONES == (b + v) % ONES
  {
    var d := a / ONES - b / ONES;
    assert a + v == b + v + d * ONES;
  }

  // ----- IPv4 headers -----

  function Ipv4Words(payloadLen: nat, ident: uint16, flags: uint16, proto: byte, csum: uint16): (s: seq<byte>)
    requires 20 + payloadLen < 0x1_0000
    ensures |s| == 12
  {
    [0x45, 0] + Be16(20 + payloadLen) + Be16(ident) + Be16(flags) + [64, proto] + Be16(csum)
  }

  /** The flags and the fragment offset, which counts units of eight bytes. Nothing keeps a large offset
      out of the bits of the flags. */
  function FragmentWord(df: bool, offset: nat, more: bool): nat {
    BitOr(BitOr(if df then 0x4000 else 0, if more then 0x2000 else 0), offset / 8)
  }

  lemma FragmentWordFits(df: bool, offset: nat, more: bool)
    ensures FragmentWord(df, offset, more) < 0x1_0000 <==> offset / 8 < 0x1_0000
  {
    hide BitOr;
    var d, m, x := if df then 0x4000 else 0, if more then 0x2000 else 0, offset / 8;
    assert Pow2(12) == 0x1000 && Pow2(16) == 16 * Pow2(12);
    OrBound(d, m, 16);
    if x < 0x1_0000 {
      OrBound(BitOr(d, m), x, 16);
    }
    OrAtLeast(BitOr(d, m), x);
  }

  /** Below 65536 the offset stays clear of the flags: don't fragment, and more fragments. */
  lemma FragmentWordIs(df: bool, offset: nat, more: bool)
    requires offset < 0x1_0000
    ensures FragmentWord(df, offset, more) ==
            (if df then 0x4000 else 0) + (if more then 0x2000 else 0) + offset / 8
  {
    var d: nat, m: nat, x: nat := if df then 1 else 0, if more then 1 else 0, offset / 8;
    assert Pow2(12) == 0x1000 && Pow2(13) == 2 * Pow2(12) && Pow2(14) == 2 * Pow2(13);
    hide BitOr, Pow2;
    DisjointOr(d, m * 0x2000, 14);
    assert d * 0x4000 + m * 0x2000 == (2 * d + m) * 0x2000;
    DisjointOr(2 * d + m, x, 13);
  }

  /** None where packing the total length or the fragment word raises an error. */
  method Ipv4Packet(src: seq<byte>, dst: seq<byte>, proto: byte, payload: seq<byte>, ident: nat,
                    df: bool, offset: nat, more: bool) returns (r: Option<seq<byte>>)
    requires |src| == 4 && |dst| == 4
    ensures r.None? <==> 20 + |payload| >= 0x1_0000 || offset / 8 >= 0x1_0000
    ensures r.Some? ==>
      && |r.value| == 20 + |payload| && r.value[20..] == payload && Verifies(r.value[..20])
      && FragmentWord(df, offset, more) < 0x1_0000
      && (exists c :: r.value[..20] ==
                      Ipv4Words(|payload|, ident % 0x1_0000, FragmentWord(df, offset, more), proto, c) + src + dst)
  {
    hide ChecksumOf, Be16, Verifies, FragmentWord;
    var flags := FragmentWord(df, offset, more);
    FragmentWordFits(df, offset, more);
    if 20 + |payload| >= 0x1_0000 || flags >= 0x1_0000 {
      return None;
    }
    var hdr := Ipv4Words(|payload|, ident % 0x1_0000, flags, proto, 0) + src + dst;
    var c := Checksum(hdr);
    VerifiesExactlyWithChecksum(hdr, 10, c);
    assert WithWord(hdr, 10, 0) == hdr;
    assert WithWord(hdr, 10, c) == Ipv4Words(|payload|, ident % 0x1_0000, flags, proto, c) + src + dst;
    var packet := hdr[..10] + Be16(c) + hdr[12..] + payload;
    assert packet[..20] == WithWord(hdr, 10, c);
    r := Some(packet);
  }

  // ----- UDP datagrams -----

  function PseudoHeader(version: nat, src: seq<byte>, dst: seq<byte>, proto: byte, len: nat): (s: seq<byte>)
    requires if version == 4 then |src| == |dst| == 4 && len < 0x1_0000 else |src| == |dst| == 16 && len < 0x1_0000_0000
    ensures |s| % 2 == 0
  {
    if version == 4 then src + dst + [0, proto] + Be16(len) else src + dst + Be32(len) + [0, 0, 0, proto]
  }

  function UdpFixed(sport: uint16, dport: uint16, payloadLen: nat, csum: uint16): (s: seq<byte>)
    requires 8 + payloadLen < 0x1_0000
    ensures |s| == 8
  {
    Be16(sport) + Be16(dport) + Be16(8 + payloadLen) + Be16(csum)
  }

  /** A zero checksum would mean that there is none, so its other representation is sent. */
  method UdpDatagram(version: nat, src: seq<byte>, dst: seq<byte>, sport: uint16, dport: uint16,
                     payload: seq<byte>) returns (r: Option<seq<byte>>)
    requires if version == 4 then |src| == |dst| == 4 else |src| == |dst| == 16
    ensures r.None? <==> 8 + |payload| >= 0x1_0000
    ensures r.Some? ==> exists c: uint16 ::
      && c != 0 && r.value == UdpFixed(sport, dport, |payload|, c) + payload
      && Verifies(PseudoHeader(version, src, dst, 17, 8 + |payload|) + r.value)
    ensures r.Some? ==>
      Verifies((if version == 4 then src + dst + [0, 17] + Be16(8 + |payload|)
                else src + dst + Be32(8 + |payload|) + [0, 0, 0, 17]) + r.value)
  {
    hide ChecksumOf, Be16, Verifies;
    if 8 + |payload| >= 0x1_0000 {
      return None;
    }
    var seg := UdpFixed(sport, dport, |payload|, 0) + payload;
    var pseudo := PseudoHeader(version, src, dst, 17, |seg|);
    var c := Checksum(pseudo + seg);
    c := if c == 0 then ONES else c;
    var at := |pseudo| + 6;
    VerifiesExactlyWithChecksum(pseudo + seg, at, c);
    assert WithWord(pseudo + seg, at, 0) == pseudo + seg;
    var datagram := seg[..6] + Be16(c) + seg[8..];
    assert datagram == UdpFixed(sport, dport, |payload|, c) + payload;
    assert WithWord(pseudo + seg, at, c) == pseudo + datagram;
    r := Some(datagram);
  }

  // ----- The generated headers, byte by byte -----

  lemma Ipv4WordsLayout(payloadLen: nat, ident: uint16, flags: uint16, proto: byte, csum: uint16)
    requires 20 + payloadLen < 0x1_0000
    ensures Ipv4Words(payloadLen, ident, flags, proto, csum) ==
            [0x45, 0, (20 + payloadLen) / 256, (20 + payloadLen) % 256, ident / 256, ident % 256,
             flags / 256, flags % 256, 64, proto, csum / 256, csum % 256]
  {
  }

  lemma UdpFixedLayout(sport: uint16, dport: uint16, payloadLen: nat, csum: uint16)
    requires 8 + payloadLen < 0x1_0000
    ensures UdpFixed(sport, dport, payloadLen, csum) ==
            [sport / 256, sport % 256, dport / 256, dport % 256, (8 + payloadLen) / 256, (8 + payloadLen) % 256,
             csum / 256, csum % 256]
  {
  }
}
