/** The growable buffer of tests/builder.c and the writers that append to it in place. */
module FrameBuilder {
  import opened Bytes
  import opened CaptureFormat
  import opened Collections
  import opened FrameFormat
  import opened Packet

  class ByteBuf {
    var data: array<byte>
    var len: nat

    predicate Valid()
      reads this
    {
      len <= data.Length
    }

    function Contents(): (s: seq<byte>)
      requires Valid()
      reads this, data
      ensures |s| == len
    {
      data[..len]
    }

    constructor ()
      ensures Valid() && Contents() == [] && fresh(data)
    {
      data := new byte[0];
      len := 0;
    }

    /** Makes room by doubling, starting from 64 bytes. */
    method Reserve(extra: nat)
      requires Valid()
      modifies this`data
      ensures Valid() && len + extra <= data.Length && Contents() == old(Contents())
      ensures data == old(data) || fresh(data)
    {
      var want := len + extra;
      if want <= data.Length {
        return;
      }
      var cap := if data.Length == 0 then 64 else data.Length;
      while cap < want
        invariant cap > 0
        decreases want - cap
      {
        cap := cap * 2;
      }
      var bigger := new byte[cap];
      for i := 0 to len
        modifies bigger
        invariant bigger[..i] == data[..i]
      {
        bigger[i] := data[i];
      }
      assert bigger[..len] == data[..len];
      data := bigger;
    }

    method U8(v: byte)
      requires Valid()
      modifies this, data
      ensures Valid() && Contents() == old(Contents()) + [v] && (data == old(data) || fresh(data))
    {
      Reserve(1);
      data[len] := v;
      len := len + 1;
      assert Contents()[..len - 1] == old(Contents());
    }

    method PutBytes(p: seq<byte>)
      requires Valid()
      modifies this, data
      ensures Valid() && Contents() == old(Contents()) + p && (data == old(data) || fresh(data))
    {
      Reserve(|p|);
      var start := len;
      for i := 0 to |p|
        invariant Valid() && len == start && start + |p| <= data.Length && (data == old(data) || fresh(data))
        invariant data[..start] == old(Contents()) && data[start..start + i] == p[..i]
      {
        data[start + i] := p[i];
      }
      len := len + |p|;
    }

    method PutFill(v: byte, n: nat)
      requires Valid()
      modifies this, data
      ensures Valid() && Contents() == old(Contents()) + Fill(v, n) && (data == old(data) || fresh(data))
    {
      for i := 0 to n
        invariant Valid() && Contents() == old(Contents()) + Fill(v, i) && (data == old(data) || fresh(data))
      {
        U8(v);
      }
    }

    method PutBe16(v: uint16)
      requires Valid()
      modifies this, data
      ensures Valid() && Contents() == old(Contents()) + Be16(v) && (data == old(data) || fresh(data))
    {
      U8(v / 0x100);
      U8(v % 0x100);
    }

    method PutBe32(v: uint32)
      requires Valid()
      modifies this, data
      ensures Valid() && Contents() == old(Contents()) + Be32(v) && (data == old(data) || fresh(data))
    {
      PutBe16(v / 0x1_0000);
      PutBe16(v % 0x1_0000);
    }

    method PutU16(v: uint16, bigEndian: bool)
      requires Valid()
      modifies this, data
      ensures Valid() && Contents() == old(Contents()) + U16(v, bigEndian) && (data == old(data) || fresh(data))
    {
      if bigEndian {
        PutBe16(v);
      } else {
        U8(v % 0x100);
        U8(v / 0x100);
      }
    }

    method PutU32(v: uint32, bigEndian: bool)
      requires Valid()
      modifies this, data
      ensures Valid() && Contents() == old(Contents()) + U32(v, bigEndian) && (data == old(data) || fresh(data))
    {
      if bigEndian {
        PutBe32(v);
      } else {
        PutU16(v % 0x1_0000, false);
        PutU16(v / 0x1_0000, false);
      }
    }

    method PutEth(ethertype: uint16)
      requires Valid()
      modifies this, data
      ensures Valid() && Contents() == old(Contents()) + EthBytes(ethertype) && (data == old(data) || fresh(data))
    {
      PutBytes(ETH_DST);
      PutBytes(ETH_SRC);
      PutBe16(ethertype);
    }

    method PutVlan(vid: uint16, next: uint16)
      requires Valid()
      modifies this, data
      ensures Valid() && Contents() == old(Contents()) + VlanBytes(vid, next) && (data == old(data) || fresh(data))
    {
      PutBe16(vid % 0x1000);
      PutBe16(next);
    }

    method PutIpv4Start(totalLen: nat, optWords: nat)
      requires Valid()
      modifies this, data
      ensures Valid() && (data == old(data) || fresh(data))
      ensures Contents() == old(Contents()) + Ipv4Start(totalLen, optWords)
    {
      ghost var start := Contents();
      var first: byte := 0x40 + (5 + optWords) % 16;
      hide Be16, Contents;
      U8(first);
      U8(0);
      Assoc(start, [first], [0]);
      PutBe16(totalLen % 0x1_0000);
      PutBe16(0x1234);
      Assoc3(start, [first] + [0], Be16(totalLen % 0x1_0000), Be16(0x1234));
    }

    method PutIpv4Fixed(proto: byte, totalLen: nat, optWords: nat, frag: uint16)
      requires Valid()
      modifies this, data
      ensures Valid() && (data == old(data) || fresh(data))
      ensures Contents() == old(Contents()) + Ipv4Fixed(proto, totalLen, optWords, frag)
    {
      ghost var start := Contents();
      hide Ipv4Start, Be16, Contents;
      PutIpv4Start(totalLen, optWords);
      PutBe16(frag);
      PutBytes([64, proto, 0, 0]);
      Assoc3(start, Ipv4Start(totalLen, optWords), Be16(frag), [64, proto, 0, 0]);
    }

    method PutIpv4(proto: byte, src: seq<byte>, dst: seq<byte>, payloadLen: nat, optWords: nat, frag: uint16)
      requires Valid() && |src| == 4 && |dst| == 4
      modifies this, data
      ensures Valid() && (data == old(data) || fresh(data))
      ensures Contents() == old(Contents()) + Ipv4Bytes(proto, src, dst, payloadLen, optWords, frag)
    {
      ghost var start := Contents();
      hide Fill, Ipv4Fixed, Contents;
      ghost var total := 20 + 4 * optWords + payloadLen;
      PutIpv4Fixed(proto, 20 + 4 * optWords + payloadLen, optWords, frag);
      PutBytes(src);
      PutBytes(dst);
      PutFill(1, 4 * optWords);
      Assoc4(start, Ipv4Fixed(proto, total, optWords, frag), src, dst, Fill(1, 4 * optWords));
    }

    method PutIpv6Start(next: byte, payloadLen: nat)
      requires Valid()
      modifies this, data
      ensures Valid() && (data == old(data) || fresh(data))
      ensures Contents() == old(Contents()) + Ipv6Start(next, payloadLen)
    {
      ghost var start := Contents();
      hide Be16, Contents;
      PutBytes([0x60, 0, 0, 0]);
      PutBe16(payloadLen % 0x1_0000);
      ghost var middle := Contents();
      U8(next);
      U8(64);
      Assoc(middle, [next], [64]);
      Assoc3(start, [0x60, 0, 0, 0], Be16(payloadLen % 0x1_0000), [next] + [64]);
    }

    method PutIpv6(next: byte, src: Address, dst: Address, payloadLen: nat)
      requires Valid()
      modifies this, data
      ensures Valid() && (data == old(data) || fresh(data))
      ensures Contents() == old(Contents()) + Ipv6Bytes(next, src, dst, payloadLen)
    {
      ghost var start := Contents();
      hide Ipv6Start, Contents;
      PutIpv6Start(next, payloadLen);
      PutBytes(src);
      PutBytes(dst);
      Assoc3(start, Ipv6Start(next, payloadLen), src, dst);
    }

    method PutTcpStart(sport: uint16, dport: uint16)
      requires Valid()
      modifies this, data
      ensures Valid() && Contents() == old(Contents()) + TcpStart(sport, dport) && (data == old(data) || fresh(data))
    {
      ghost var start := Contents();
      hide Be16, Be32, Contents;
      PutBe16(sport);
      PutBe16(dport);
      PutBe32(1000);
      PutBe32(2000);
      Assoc4(start, Be16(sport), Be16(dport), Be32(1000), Be32(2000));
    }

    method PutTcpEnd(flags: byte)
      requires Valid()
      modifies this, data
      ensures Valid() && Contents() == old(Contents()) + TcpEnd(flags) && (data == old(data) || fresh(data))
    {
      ghost var start := Contents();
      hide Be16, Contents;
      U8(0x50);
      U8(flags);
      Assoc(start, [0x50], [flags]);
      PutBe16(65535);
      PutBytes([0, 0, 0, 0]);
      Assoc3(start, [0x50] + [flags], Be16(65535), [0, 0, 0, 0]);
    }

    method PutTcp(sport: uint16, dport: uint16, flags: byte)
      requires Valid()
      modifies this, data
      ensures Valid() && Contents() == old(Contents()) + TcpBytes(sport, dport, flags)
      ensures data == old(data) || fresh(data)
    {
      ghost var start := Contents();
      hide TcpStart, TcpEnd, Contents;
      PutTcpStart(sport, dport);
      PutTcpEnd(flags);
      Assoc(start, TcpStart(sport, dport), TcpEnd(flags));
    }

    method PutUdp(sport: uint16, dport: uint16, payloadLen: nat)
      requires Valid()
      modifies this, data
      ensures Valid() && Contents() == old(Contents()) + UdpBytes(sport, dport, payloadLen)
      ensures data == old(data) || fresh(data)
    {
      ghost var start := Contents();
      hide Be16, Contents;
      PutBe16(sport);
      PutBe16(dport);
      PutBe16((8 + payloadLen) % 0x1_0000);
      PutBytes([0, 0]);
      Assoc4(start, Be16(sport), Be16(dport), Be16((8 + payloadLen) % 0x1_0000), [0, 0]);
    }

    method PutIcmp(icmpType: byte, icmpCode: byte)
      requires Valid()
      modifies this, data
      ensures Valid() && Contents() == old(Contents()) + IcmpBytes(icmpType, icmpCode)
      ensures data == old(data) || fresh(data)
    {
      PutBytes([icmpType, icmpCode, 0, 0]);
      PutBe16(0x0042);
      PutBe16(1);
    }

    method PutGtpu(flags: byte, msgType: byte, length: nat, teid: uint32)
      requires Valid()
      modifies this, data
      ensures Valid() && Contents() == old(Contents()) + GtpuBytes(flags, msgType, length, teid)
      ensures data == old(data) || fresh(data)
    {
      ghost var start := Contents();
      hide Be16, Be32, Contents;
      U8(flags);
      U8(msgType);
      Assoc(start, [flags], [msgType]);
      PutBe16(length % 0x1_0000);
      PutBe32(teid);
      Assoc3(start, [flags] + [msgType], Be16(length % 0x1_0000), Be32(teid));
    }

    method PutGtpuOpt(seqNo: uint16, npdu: byte, next: byte)
      requires Valid()
      modifies this, data
      ensures Valid() && Contents() == old(Contents()) + GtpuOptBytes(seqNo, npdu, next)
      ensures data == old(data) || fresh(data)
    {
      PutBe16(seqNo);
      U8(npdu);
      U8(next);
    }

    method PutGtpuExt(units: byte, next: byte)
      requires Valid() && units >= 1
      modifies this, data
      ensures Valid() && Contents() == old(Contents()) + GtpuExtBytes(units, next) && (data == old(data) || fresh(data))
    {
      U8(units);
      PutFill(0, 4 * (units as nat) - 2);
      U8(next);
    }

    method PutFormat(bigEndian: bool, nsec: bool)
      requires Valid()
      modifies this, data
      ensures Valid() && Contents() == old(Contents()) + FormatBytes(bigEndian, nsec)
      ensures data == old(data) || fresh(data)
    {
      ghost var start := Contents();
      hide U16, U32, Contents;
      PutU32(if nsec then MAGIC_NSEC else MAGIC_USEC, bigEndian);
      PutU16(2, bigEndian);
      PutU16(4, bigEndian);
      Assoc3(start, U32(if nsec then MAGIC_NSEC else MAGIC_USEC, bigEndian), U16(2, bigEndian), U16(4, bigEndian));
    }

    method PutFourWords(a: uint32, b: uint32, c: uint32, d: uint32, bigEndian: bool)
      requires Valid()
      modifies this, data
      ensures Valid() && Contents() == old(Contents()) + FourWords(a, b, c, d, bigEndian)
      ensures data == old(data) || fresh(data)
    {
      ghost var start := Contents();
      hide U32, Contents;
      PutU32(a, bigEndian);
      PutU32(b, bigEndian);
      PutU32(c, bigEndian);
      PutU32(d, bigEndian);
      Assoc4(start, U32(a, bigEndian), U32(b, bigEndian), U32(c, bigEndian), U32(d, bigEndian));
    }

    method PutGlobal(bigEndian: bool, nsec: bool, snaplen: uint32, linktype: uint32)
      requires Valid()
      modifies this, data
      ensures Valid() && (data == old(data) || fresh(data))
      ensures Contents() == old(Contents()) + GlobalBytes(bigEndian, nsec, snaplen, linktype)
    {
      ghost var start := Contents();
      hide FormatBytes, FourWords, Contents;
      PutFormat(bigEndian, nsec);
      PutFourWords(0, 0, snaplen, linktype, bigEndian);
      Assoc(start, FormatBytes(bigEndian, nsec), FourWords(0, 0, snaplen, linktype, bigEndian));
    }

    method PutRecord(r: RawRecord, bigEndian: bool)
      requires Valid() && Encodable(r)
      modifies this, data
      ensures Valid() && Contents() == old(Contents()) + RecordBytes(r, bigEndian) && (data == old(data) || fresh(data))
    {
      ghost var start := Contents();
      hide FourWords, Contents;
      PutFourWords(r.sec, r.frac, |r.data|, r.wirelen, bigEndian);
      PutBytes(r.data);
      Assoc(start, FourWords(r.sec, r.frac, |r.data|, r.wirelen, bigEndian), r.data);
    }
  }
}
