/** The bytes of the headers that tests/builder.c writes, one function per header. */
module FrameFormat {
  import opened Bytes
  import opened Packet

  const ETH_DST: seq<byte> := [0x02, 0, 0, 0, 0, 0x02]
  const ETH_SRC: seq<byte> := [0x02, 0, 0, 0, 0, 0x01]

  function Fill(v: byte, n: nat): (s: seq<byte>)
    ensures |s| == n
  {
    if n == 0 then [] else Fill(v, n - 1) + [v]
  }

  function EthBytes(ethertype: uint16): (s: seq<byte>)
    ensures |s| == 14
  {
    ETH_DST + ETH_SRC + Be16(ethertype)
  }

  /** What follows the tag protocol identifier of a VLAN tag. */
  function VlanBytes(vid: uint16, next: uint16): (s: seq<byte>)
    ensures |s| == 4
  {
    Be16(vid % 0x1000) + Be16(next)
  }

  function Ipv4Start(totalLen: nat, optWords: nat): (s: seq<byte>)
    ensures |s| == 6
  {
    [0x40 + (5 + optWords) % 16, 0] + Be16(totalLen % 0x1_0000) + Be16(0x1234)
  }

  function Ipv4Fixed(proto: byte, totalLen: nat, optWords: nat, frag: uint16): (s: seq<byte>)
    ensures |s| == 12
  {
    Ipv4Start(totalLen, optWords) + Be16(frag) + [64, proto, 0, 0]
  }

  /** Lengths that do not fit are cut to 16 bits, the option count to the header length field. */
  function Ipv4Bytes(proto: byte, src: seq<byte>, dst: seq<byte>, payloadLen: nat, optWords: nat, frag: uint16)
    : (s: seq<byte>)
    requires |src| == 4 && |dst| == 4
    ensures |s| == 20 + 4 * optWords
  {
    Ipv4Fixed(proto, 20 + 4 * optWords + payloadLen, optWords, frag) + src + dst + Fill(1, 4 * optWords)
  }

  function Ipv6Start(next: byte, payloadLen: nat): (s: seq<byte>)
    ensures |s| == 8
  {
    [0x60, 0, 0, 0] + Be16(payloadLen % 0x1_0000) + [next, 64]
  }

  function Ipv6Bytes(next: byte, src: Address, dst: Address, payloadLen: nat): (s: seq<byte>)
    ensures |s| == 40
  {
    Ipv6Start(next, payloadLen) + src + dst
  }

  function TcpStart(sport: uint16, dport: uint16): (s: seq<byte>)
    ensures |s| == 12
  {
    Be16(sport) + Be16(dport) + Be32(1000) + Be32(2000)
  }

  function TcpEnd(flags: byte): (s: seq<byte>)
    ensures |s| == 8
  {
    [0x50, flags] + Be16(65535) + [0, 0, 0, 0]
  }

  function TcpBytes(sport: uint16, dport: uint16, flags: byte): (s: seq<byte>)
    ensures |s| == 20
  {
    TcpStart(sport, dport) + TcpEnd(flags)
  }

  function UdpBytes(sport: uint16, dport: uint16, payloadLen: nat): (s: seq<byte>)
    ensures |s| == 8
  {
    Be16(sport) + Be16(dport) + Be16((8 + payloadLen) % 0x1_0000) + [0, 0]
  }

  function IcmpBytes(icmpType: byte, icmpCode: byte): (s: seq<byte>)
    ensures |s| == 8
  {
    [icmpType, icmpCode, 0, 0] + Be16(0x0042) + Be16(1)
  }

  function GtpuBytes(flags: byte, msgType: byte, length: nat, teid: uint32): (s: seq<byte>)
    ensures |s| == 8
  {
    [flags, msgType] + Be16(length % 0x1_0000) + Be32(teid)
  }

  function GtpuOptBytes(seqNo: uint16, npdu: byte, next: byte): (s: seq<byte>)
    ensures |s| == 4
  {
    Be16(seqNo) + [npdu, next]
  }

  /** `units` four-byte units: the length, zeroes and the type of the next header. */
  function GtpuExtBytes(units: byte, next: byte): (s: seq<byte>)
    requires units >= 1
    ensures |s| == 4 * (units as nat)
  {
    [units] + Fill(0, 4 * (units as nat) - 2) + [next]
  }

  // ----- The same, byte by byte -----

  lemma LinkLayouts(ethertype: uint16, vid: uint16, next: uint16)
    ensures EthBytes(ethertype) == [2, 0, 0, 0, 0, 2, 2, 0, 0, 0, 0, 1, ethertype / 256, ethertype % 256]
    ensures VlanBytes(vid, next) == [vid % 4096 / 256, vid % 256, next / 256, next % 256]
  {
  }

  lemma Ipv4Layout(proto: byte, totalLen: uint16, optWords: nat, frag: uint16)
    requires optWords <= 10
    ensures Ipv4Fixed(proto, totalLen, optWords, frag) ==
            [0x45 + optWords, 0, totalLen / 256, totalLen % 256, 0x12, 0x34, frag / 256, frag % 256, 64, proto, 0, 0]
  {
  }

  lemma Ipv6Layout(next: byte, payloadLen: uint16)
    ensures Ipv6Start(next, payloadLen) == [0x60, 0, 0, 0, payloadLen / 256, payloadLen % 256, next, 64]
  {
  }

  lemma TcpLayout(sport: uint16, dport: uint16, flags: byte)
    ensures TcpStart(sport, dport) ==
            [sport / 256, sport % 256, dport / 256, dport % 256, 0, 0, 0x03, 0xE8, 0, 0, 0x07, 0xD0]
    ensures TcpEnd(flags) == [0x50, flags, 0xFF, 0xFF, 0, 0, 0, 0]
  {
  }

  lemma UdpLayout(sport: uint16, dport: uint16, len: nat)
    requires 8 + len < 0x1_0000
    ensures UdpBytes(sport, dport, len) ==
            [sport / 256, sport % 256, dport / 256, dport % 256, (8 + len) / 256, (8 + len) % 256, 0, 0]
  {
  }

  lemma IcmpLayout(icmpType: byte, icmpCode: byte)
    ensures IcmpBytes(icmpType, icmpCode) == [icmpType, icmpCode, 0, 0, 0, 0x42, 0, 1]
  {
  }

  lemma GtpuLayouts(flags: byte, msgType: byte, len: uint16, teid: uint32, seqNo: uint16, npdu: byte, next: byte)
    ensures GtpuBytes(flags, msgType, len, teid) ==
            [flags, msgType, len / 256, len % 256, teid / 0x1_0000 / 256, teid / 0x1_0000 % 256,
             teid % 0x1_0000 / 256, teid % 256]
    ensures GtpuOptBytes(seqNo, npdu, next) == [seqNo / 256, seqNo % 256, npdu, next]
  {
  }
}
