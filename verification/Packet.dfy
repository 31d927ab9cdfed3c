/** What the decoder says about one frame: the `packet_info` of src/decode.h, grouped by layer. */
module Packet {
  import opened Bytes

  const ETHERTYPE_IPV4: uint16 := 0x0800
  const ETHERTYPE_IPV6: uint16 := 0x86DD
  const ETHERTYPE_VLAN: uint16 := 0x8100
  const ETHERTYPE_QINQ: uint16 := 0x88A8
  const ETHERTYPE_QINQ_LEGACY: uint16 := 0x9100
  const DECODE_MAX_VLANS: nat := 2

  const PROTO_ICMP: byte := 1
  const PROTO_TCP: byte := 6
  const PROTO_UDP: byte := 17
  const PROTO_ICMPV6: byte := 58

  const GTPU_PORT: uint16 := 2152
  const GTPU_MSG_ECHO_REQUEST: byte := 1
  const GTPU_MSG_ECHO_RESPONSE: byte := 2
  const GTPU_MSG_ERROR_INDICATION: byte := 26
  const GTPU_MSG_END_MARKER: byte := 254
  const GTPU_MSG_GPDU: byte := 255
  const GTPU_MAX_EXT_HEADERS: nat := 16

  /** Why a frame, or the GTP-U message inside it, could not be fully decoded. The truncation
      reasons come first, then the malformations; `Number` is the position in that order. */
  datatype DecodeStatus =
    | Ok
    | TruncEthernet | TruncVlan | TruncIpv4 | TruncIpv6 | TruncIpv6Ext
    | TruncTcp | TruncUdp | TruncIcmp | TruncGtpu | TruncGtpuExt | TruncGtpuInner
    | BadShortFrame | BadVlanDepth | BadIpv4Version | BadIpv4Ihl | BadIpv4TotalLen
    | BadIpv6Version | BadIpv6PayloadLen | BadIpv6Ext
    | BadL4Len | BadTcpDoff | BadUdpLen
    | BadGtpuLen | BadGtpuExtLen | BadGtpuExt | BadGtpuInner | BadGtpuInnerShort
  {
    function Number(): (n: nat)
      ensures n < STATUS_COUNT
    {
      match this
      case Ok => 0
      case TruncEthernet => 1
      case TruncVlan => 2
      case TruncIpv4 => 3
      case TruncIpv6 => 4
      case TruncIpv6Ext => 5
      case TruncTcp => 6
      case TruncUdp => 7
      case TruncIcmp => 8
      case TruncGtpu => 9
      case TruncGtpuExt => 10
      case TruncGtpuInner => 11
      case BadShortFrame => 12
      case BadVlanDepth => 13
      case BadIpv4Version => 14
      case BadIpv4Ihl => 15
      case BadIpv4TotalLen => 16
      case BadIpv6Version => 17
      case BadIpv6PayloadLen => 18
      case BadIpv6Ext => 19
      case BadL4Len => 20
      case BadTcpDoff => 21
      case BadUdpLen => 22
      case BadGtpuLen => 23
      case BadGtpuExtLen => 24
      case BadGtpuExt => 25
      case BadGtpuInner => 26
      case BadGtpuInnerShort => 27
    }

    /** The source tests a range of the enumeration. */
    predicate IsTruncation() {
      TruncEthernet.Number() <= Number() <= TruncGtpuInner.Number()
    }

    predicate IsMalformation() {
      this != Ok && !IsTruncation()
    }

    /** The reasons that stop the GTP-U decoder before it has read every GTP-U header. */
    predicate IsGtpuHeaderProblem() {
      this in {TruncGtpu, TruncGtpuExt, BadGtpuLen, BadGtpuExtLen, BadGtpuExt}
    }
  }

  const STATUS_COUNT: nat := 28

  datatype FragKind = FragNone | FragFirst | FragLater

  /** An IPv6 address, or an IPv4 address followed by twelve zero bytes. */
  type Address = a: seq<byte> | |a| == 16 witness [0, 0, 0, 0, 0, 0, 0, 0, 0, 0, 0, 0, 0, 0, 0, 0]

  const NO_ADDRESS: Address := [0, 0, 0, 0, 0, 0, 0, 0, 0, 0, 0, 0, 0, 0, 0, 0]

  datatype L2 = L2(present: bool, ethertype: uint16, vlans: seq<uint16>)

  datatype L3 = L3(present: bool, version: byte, proto: byte, src: Address, dst: Address,
                   frag: FragKind, fragId: uint32)

  datatype L4 = L4(present: bool, srcPort: uint16, dstPort: uint16, tcpFlags: byte,
                   icmpType: byte, icmpCode: byte)

  datatype Gtp = Gtp(isGtpu: bool, status: DecodeStatus, v1u: bool, flags: byte, msgType: byte,
                     msgOk: bool, seqNo: uint16, teid: uint32, extCount: nat)

  datatype Inner = Inner(present: bool, hasL4: bool, nested: bool, version: byte, proto: byte,
                         src: Address, dst: Address, srcPort: uint16, dstPort: uint16)

  datatype PacketInfo = PacketInfo(status: DecodeStatus, l2: L2, l3: L3, l4: L4,
                                   gtp: Gtp, inner: Inner)

  // The all-zero values every decode starts from.
  const NO_L2 := L2(false, 0, [])
  const NO_L3 := L3(false, 0, 0, NO_ADDRESS, NO_ADDRESS, FragNone, 0)
  const NO_L4 := L4(false, 0, 0, 0, 0, 0)
  const NO_GTP := Gtp(false, Ok, false, 0, 0, false, 0, 0, 0)
  const NO_INNER := Inner(false, false, false, 0, 0, NO_ADDRESS, NO_ADDRESS, 0, 0)
  const NO_PACKET := PacketInfo(Ok, NO_L2, NO_L3, NO_L4, NO_GTP, NO_INNER)

  /** A decoded UDP header with port 2152 on either side. */
  predicate IsGtpuPort(l3: L3, l4: L4) {
    l4.present && l3.proto == PROTO_UDP && (l4.srcPort == GTPU_PORT || l4.dstPort == GTPU_PORT)
  }

  // The option bits of the first GTP-U byte.
  predicate GtpuFlagE(flags: byte) { flags / 4 % 2 == 1 }

  predicate GtpuFlagS(flags: byte) { flags / 2 % 2 == 1 }

  predicate GtpuFlagPn(flags: byte) { flags % 2 == 1 }

  predicate GtpuHasOptions(flags: byte) {
    GtpuFlagE(flags) || GtpuFlagS(flags) || GtpuFlagPn(flags)
  }

  /** Version 1 and protocol type 1: the only header that is GTP-U. */
  predicate IsGtpV1U(flags: byte) {
    flags / 32 == 1 && flags / 16 % 2 == 1
  }
}
