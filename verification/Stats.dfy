/** The counters of src/stats.c, incremented field by field, and proved to be the tallies of
    Counting.dfy over the history of records. */
module Stats {
  import opened Bytes
  import opened Counting
  import opened Packet

  class GtpuStats {
    var packets: nat
    var fragmented: nat
    var notV1u: nat
    var truncated: nat
    var malformed: nat
    var userTruncated: nat
    var userMalformed: nat
    const byStatus: array<nat>
    var gpdu: nat
    var echoRequest: nat
    var echoResponse: nat
    var errorIndication: nat
    var endMarker: nat
    var otherType: nat
    var withSeq: nat
    var withExt: nat
    var innerIpv4: nat
    var innerIpv6: nat
    var innerTcp: nat
    var innerUdp: nat
    var innerIcmp: nat
    var innerIcmpv6: nat
    var innerOther: nat
    var nested: nat

    constructor ()
      ensures Describes([]) && fresh(byStatus)
    {
      packets, fragmented, notV1u := 0, 0, 0;
      truncated, malformed, userTruncated, userMalformed := 0, 0, 0, 0;
      byStatus := new nat[STATUS_COUNT](_ => 0);
      gpdu, echoRequest, echoResponse, errorIndication, endMarker, otherType := 0, 0, 0, 0, 0, 0;
      withSeq, withExt := 0, 0;
      innerIpv4, innerIpv6, innerTcp, innerUdp, innerIcmp, innerIcmpv6, innerOther, nested := 0, 0, 0, 0, 0, 0, 0, 0;
    }

    ghost predicate DescribesMessages(h: seq<Seen>)
      reads this`packets, this`fragmented, this`notV1u
    {
      && packets == Tally(InGtp(Message), h)
      && fragmented == Tally(InGtp(Fragmented), h)
      && notV1u == Tally(InGtp(NotV1u), h)
    }

    ghost predicate DescribesProblems(h: seq<Seen>)
      reads this`truncated, this`malformed, this`userTruncated, this`userMalformed, byStatus
    {
      && truncated == Tally(InGtp(GtpTruncated), h)
      && malformed == Tally(InGtp(GtpMalformed), h)
      && userTruncated == Tally(InGtp(UserTruncated), h)
      && userMalformed == Tally(InGtp(UserMalformed), h)
      && byStatus.Length == STATUS_COUNT
      && forall i :: 0 <= i < STATUS_COUNT ==> byStatus[i] == Tally(InGtp(GtpStatusIs(i)), h)
    }

    ghost predicate DescribesTypes(h: seq<Seen>)
      reads this`gpdu, this`echoRequest, this`echoResponse, this`errorIndication, this`endMarker,
        this`otherType, this`withSeq, this`withExt
    {
      && gpdu == Tally(InGtp(Gpdu), h)
      && echoRequest == Tally(InGtp(EchoRequest), h)
      && echoResponse == Tally(InGtp(EchoResponse), h)
      && errorIndication == Tally(InGtp(ErrorIndication), h)
      && endMarker == Tally(InGtp(EndMarker), h)
      && otherType == Tally(InGtp(OtherType), h)
      && withSeq == Tally(InGtp(WithSeq), h)
      && withExt == Tally(InGtp(WithExt), h)
    }

    ghost predicate DescribesUsers(h: seq<Seen>)
      reads this`innerIpv4, this`innerIpv6, this`innerTcp, this`innerUdp, this`innerIcmp, this`innerIcmpv6,
        this`innerOther, this`nested
    {
      && innerIpv4 == Tally(InGtp(InTunnel(InnerIpv4)), h)
      && innerIpv6 == Tally(InGtp(InTunnel(InnerIpv6)), h)
      && innerTcp == Tally(InGtp(InTunnel(InnerTcp)), h)
      && innerUdp == Tally(InGtp(InTunnel(InnerUdp)), h)
      && innerIcmp == Tally(InGtp(InTunnel(InnerIcmp)), h)
      && innerIcmpv6 == Tally(InGtp(InTunnel(InnerIcmpv6)), h)
      && innerOther == Tally(InGtp(InTunnel(InnerOther)), h)
      && nested == Tally(InGtp(InTunnel(Nested)), h)
    }

    /** Every counter is the tally of what it is named after. */
    ghost predicate Describes(h: seq<Seen>)
      reads this, byStatus
    {
      DescribesMessages(h) && DescribesProblems(h) && DescribesTypes(h) && DescribesUsers(h)
    }

    method AddProblem(r: Seen, ghost h: seq<Seen>)
      requires DescribesProblems(h) && IsMessage(r.p)
      modifies this`truncated, this`malformed, this`userTruncated, this`userMalformed, byStatus
      ensures DescribesProblems(h + [r])
    {
      hide Tally, IsMessage;
      ProblemBumps(h, r);
      var n := r.p.gtp.status.Number();
      if n < STATUS_COUNT {
        byStatus[n] := byStatus[n] + 1;
      }
      if r.p.gtp.status != Ok {
        if r.p.gtp.status.IsTruncation() {
          truncated := truncated + 1;
          if r.p.gtp.msgOk {
            userTruncated := userTruncated + 1;
          }
        } else {
          malformed := malformed + 1;
          if r.p.gtp.msgOk {
            userMalformed := userMalformed + 1;
          }
        }
      }
    }

    method AddType(r: Seen, ghost h: seq<Seen>)
      requires DescribesTypes(h) && IsV1u(r.p)
      modifies this`gpdu, this`echoRequest, this`echoResponse, this`errorIndication, this`endMarker,
        this`otherType, this`withSeq, this`withExt
      ensures DescribesTypes(h + [r])
    {
      hide Tally, GtpuFlagS, IsV1u;
      TypeBumps(h, r);
      OptionBumps(h, r);
      var msgType := r.p.gtp.msgType;
      if msgType == GTPU_MSG_GPDU {
        gpdu := gpdu + 1;
      } else if msgType == GTPU_MSG_ECHO_REQUEST {
        echoRequest := echoRequest + 1;
      } else if msgType == GTPU_MSG_ECHO_RESPONSE {
        echoResponse := echoResponse + 1;
      } else if msgType == GTPU_MSG_ERROR_INDICATION {
        errorIndication := errorIndication + 1;
      } else if msgType == GTPU_MSG_END_MARKER {
        endMarker := endMarker + 1;
      } else {
        otherType := otherType + 1;
      }
      if GtpuFlagS(r.p.gtp.flags) {
        withSeq := withSeq + 1;
      }
      if r.p.gtp.extCount > 0 {
        withExt := withExt + 1;
      }
    }

    method AddUser(r: Seen, ghost h: seq<Seen>)
      requires DescribesUsers(h) && HasInner(r.p)
      modifies this`innerIpv4, this`innerIpv6, this`innerTcp, this`innerUdp, this`innerIcmp, this`innerIcmpv6,
        this`innerOther, this`nested
      ensures DescribesUsers(h + [r])
    {
      hide Tally, HasInner;
      UserVersionBumps(h, r);
      UserProtocolBumps(h, r);
      if r.p.inner.version == 4 {
        innerIpv4 := innerIpv4 + 1;
      } else {
        innerIpv6 := innerIpv6 + 1;
      }
      if r.p.gtp.status == TruncIpv6Ext || r.p.gtp.status == BadIpv6Ext {
        return;
      }
      var proto := r.p.inner.proto;
      if proto == PROTO_TCP {
        innerTcp := innerTcp + 1;
      } else if proto == PROTO_UDP {
        innerUdp := innerUdp + 1;
      } else if proto == PROTO_ICMP {
        innerIcmp := innerIcmp + 1;
      } else if proto == PROTO_ICMPV6 {
        innerIcmpv6 := innerIcmpv6 + 1;
      } else {
        innerOther := innerOther + 1;
      }
      if r.p.inner.nested {
        nested := nested + 1;
      }
    }

    method Add(r: Seen, ghost h: seq<Seen>)
      requires Describes(h)
      modifies this, byStatus
      ensures Describes(h + [r])
    {
      hide Tally, Counts, IsGtpuPort, DecodeStatus.Number, DescribesProblems, DescribesTypes, DescribesUsers;
      Unaffected(h, r);
      MessageBumps(h, r);
      if r.p.l3.frag == FragFirst && IsGtpuPort(r.p.l3, r.p.l4) {
        fragmented := fragmented + 1;
        return;
      }
      if !r.p.gtp.isGtpu {
        return;
      }
      packets := packets + 1;
      AddProblem(r, h);
      if !r.p.gtp.v1u {
        if r.p.gtp.status == Ok {
          notV1u := notV1u + 1;
        }
        return;
      }
      AddType(r, h);
      if !r.p.inner.present {
        return;
      }
      AddUser(r, h);
    }

    /** A packet that is not a message, not GTPv1-U or without user packet leaves the counters of
        problems, types or user packets as they are. */
    lemma Unaffected(h: seq<Seen>, r: Seen)
      requires Describes(h)
      ensures !IsMessage(r.p) ==> DescribesProblems(h + [r])
      ensures !IsV1u(r.p) ==> DescribesTypes(h + [r])
      ensures !HasInner(r.p) ==> DescribesUsers(h + [r])
    {
      hide Tally, IsMessage, IsV1u, HasInner, ChainBroken, GtpuFlagS, DecodeStatus.Number, DecodeStatus.IsTruncation;
      ProblemBumps(h, r);
      TypeBumps(h, r);
      OptionBumps(h, r);
      UserVersionBumps(h, r);
      UserProtocolBumps(h, r);
    }

    /** The equations between the counters. */
    ghost predicate Balanced()
      reads this, byStatus
    {
      && byStatus.Length == STATUS_COUNT
      && SumOf(byStatus[0..STATUS_COUNT]) == packets
      && SumOf(byStatus[1..FIRST_BAD]) == truncated
      && SumOf(byStatus[FIRST_BAD..STATUS_COUNT]) == malformed
      && userTruncated <= truncated && userMalformed <= malformed
      && TypeSum() <= packets <= TypeSum() + byStatus[TruncGtpu.Number()]
      && innerTcp + innerUdp + innerIcmp + innerIcmpv6 + innerOther
         + byStatus[TruncIpv6Ext.Number()] + byStatus[BadIpv6Ext.Number()] == innerIpv4 + innerIpv6
    }

    function TypeSum(): nat
      reads this
    {
      gpdu + echoRequest + echoResponse + errorIndication + endMarker + otherType + notV1u
    }

    /** Each field counts what it is named after. */
    lemma FieldsAre(h: seq<Seen>)
      requires Describes(h)
      ensures packets == Tally(InGtp(Message), h) && fragmented == Tally(InGtp(Fragmented), h)
      ensures notV1u == Tally(InGtp(NotV1u), h)
      ensures truncated == Tally(InGtp(GtpTruncated), h) && malformed == Tally(InGtp(GtpMalformed), h)
      ensures userTruncated == Tally(InGtp(UserTruncated), h) && userMalformed == Tally(InGtp(UserMalformed), h)
      ensures byStatus.Length == 28 && forall i :: 0 <= i < 28 ==> byStatus[i] == Tally(InGtp(GtpStatusIs(i)), h)
      ensures gpdu == Tally(InGtp(Gpdu), h) && endMarker == Tally(InGtp(EndMarker), h)
      ensures echoRequest == Tally(InGtp(EchoRequest), h) && echoResponse == Tally(InGtp(EchoResponse), h)
      ensures errorIndication == Tally(InGtp(ErrorIndication), h) && otherType == Tally(InGtp(OtherType), h)
      ensures withSeq == Tally(InGtp(WithSeq), h) && withExt == Tally(InGtp(WithExt), h)
      ensures innerIpv4 == Tally(InGtp(InTunnel(InnerIpv4)), h) && innerIpv6 == Tally(InGtp(InTunnel(InnerIpv6)), h)
      ensures innerTcp == Tally(InGtp(InTunnel(InnerTcp)), h) && innerUdp == Tally(InGtp(InTunnel(InnerUdp)), h)
      ensures innerIcmp == Tally(InGtp(InTunnel(InnerIcmp)), h)
      ensures innerIcmpv6 == Tally(InGtp(InTunnel(InnerIcmpv6)), h)
      ensures innerOther == Tally(InGtp(InTunnel(InnerOther)), h) && nested == Tally(InGtp(InTunnel(Nested)), h)
    {
    }

    lemma DescribedIsBalanced(h: seq<Seen>)
      requires Describes(h) && AllWellFormed(h)
      ensures Balanced()
    {
      hide Tally, AllWellFormed, SumOf, StatusSum, GtpStatusSum, DecodeStatus.Number;
      StatusesPartition(h);
      SumOfCounters(byStatus[..], h, 0, STATUS_COUNT);
      SumOfCounters(byStatus[..], h, 1, FIRST_BAD);
      SumOfCounters(byStatus[..], h, FIRST_BAD, STATUS_COUNT);
      assert byStatus[..][0..STATUS_COUNT] == byStatus[0..STATUS_COUNT];
      assert byStatus[..][1..FIRST_BAD] == byStatus[1..FIRST_BAD];
      assert byStatus[..][FIRST_BAD..STATUS_COUNT] == byStatus[FIRST_BAD..STATUS_COUNT];
      GpdusPartition(h);
      MessageTypesPartition(h);
      InnerTransportsPartition(h);
    }
  }

  class Stats {
    var packets: nat
    var wireBytes: nat
    var capturedBytes: nat
    var firstTs: uint64
    var lastTs: uint64
    var truncated: nat
    var malformed: nat
    const byStatus: array<nat>
    var vlanTagged: nat
    var nonIp: nat
    var ipv4: nat
    var ipv6: nat
    var fragFirst: nat
    var fragLater: nat
    var fragMatched: nat
    var tcp: nat
    var udp: nat
    var icmp: nat
    var icmpv6: nat
    var otherL4: nat
    const gtpu: GtpuStats

    constructor ()
      ensures Describes([]) && fragMatched == 0
      ensures fresh(gtpu) && fresh(byStatus) && fresh(gtpu.byStatus) && byStatus != gtpu.byStatus
    {
      packets, wireBytes, capturedBytes, firstTs, lastTs := 0, 0, 0, 0, 0;
      truncated, malformed, vlanTagged := 0, 0, 0;
      byStatus := new nat[STATUS_COUNT](_ => 0);
      nonIp, ipv4, ipv6, fragFirst, fragLater, fragMatched := 0, 0, 0, 0, 0, 0;
      tcp, udp, icmp, icmpv6, otherL4 := 0, 0, 0, 0, 0;
      gtpu := new GtpuStats();
    }

    ghost predicate DescribesTotals(h: seq<Seen>)
      reads this`wireBytes, this`capturedBytes, this`vlanTagged
    {
      && wireBytes == WireBytes(h)
      && capturedBytes == CapturedBytes(h)
      && vlanTagged == Tally(VlanTagged, h)
    }

    ghost predicate DescribesTimes(h: seq<Seen>)
      reads this`packets, this`firstTs, this`lastTs
    {
      packets == |h| && (h != [] ==> IsEarliestSeen(firstTs, h) && IsLatestSeen(lastTs, h))
    }

    ghost predicate DescribesStatuses(h: seq<Seen>)
      reads this`truncated, this`malformed, byStatus
    {
      && truncated == Tally(Truncated, h)
      && malformed == Tally(Malformed, h)
      && byStatus.Length == STATUS_COUNT
      && forall i :: 0 <= i < STATUS_COUNT ==> byStatus[i] == Tally(StatusIs(i), h)
    }

    ghost predicate DescribesNetworks(h: seq<Seen>)
      reads this`nonIp, this`ipv4, this`ipv6, this`fragFirst, this`fragLater
    {
      && nonIp == Tally(NonIp, h)
      && ipv4 == Tally(Ipv4, h)
      && ipv6 == Tally(Ipv6, h)
      && fragFirst == Tally(FirstFragment, h)
      && fragLater == Tally(LaterFragment, h)
    }

    ghost predicate DescribesTransports(h: seq<Seen>)
      reads this`tcp, this`udp, this`icmp, this`icmpv6, this`otherL4
    {
      && tcp == Tally(Tcp, h)
      && udp == Tally(Udp, h)
      && icmp == Tally(Icmp, h)
      && icmpv6 == Tally(Icmpv6, h)
      && otherL4 == Tally(OtherL4, h)
    }

    /** Every counter, those of GTP-U included, is the tally of what it is named after. */
    ghost predicate Describes(h: seq<Seen>)
      reads this`packets, this`wireBytes, this`capturedBytes, this`vlanTagged, this`firstTs, this`lastTs
      reads this`truncated, this`malformed, byStatus
      reads this`nonIp, this`ipv4, this`ipv6, this`fragFirst, this`fragLater
      reads this`tcp, this`udp, this`icmp, this`icmpv6, this`otherL4
      reads gtpu, gtpu.byStatus
    {
      && DescribesTotals(h) && DescribesTimes(h) && DescribesStatuses(h)
      && DescribesNetworks(h) && DescribesTransports(h) && gtpu.Describes(h)
    }

    /** The equations between the counters, those of GTP-U included. */
    ghost predicate Balanced()
      reads this, byStatus, gtpu, gtpu.byStatus
    {
      && byStatus.Length == STATUS_COUNT
      && SumOf(byStatus[0..STATUS_COUNT]) == packets
      && SumOf(byStatus[1..FIRST_BAD]) == truncated
      && SumOf(byStatus[FIRST_BAD..STATUS_COUNT]) == malformed
      && tcp + udp + icmp + icmpv6 + otherL4
         + byStatus[TruncIpv6Ext.Number()] + byStatus[BadIpv6Ext.Number()] == ipv4 + ipv6
      && gtpu.Balanced()
    }

    /** Each field counts what it is named after. */
    lemma FieldsAre(h: seq<Seen>)
      requires Describes(h)
      ensures packets == |h| && wireBytes == WireBytes(h) && capturedBytes == CapturedBytes(h)
      ensures h != [] ==> forall i :: 0 <= i < |h| ==> firstTs <= h[i].ts <= lastTs
      ensures h != [] ==> exists i :: 0 <= i < |h| && h[i].ts == firstTs
      ensures h != [] ==> exists i :: 0 <= i < |h| && h[i].ts == lastTs
      ensures truncated == Tally(Truncated, h) && malformed == Tally(Malformed, h)
      ensures byStatus.Length == 28 && forall i :: 0 <= i < 28 ==> byStatus[i] == Tally(StatusIs(i), h)
      ensures vlanTagged == Tally(VlanTagged, h) && nonIp == Tally(NonIp, h)
      ensures ipv4 == Tally(Ipv4, h) && ipv6 == Tally(Ipv6, h)
      ensures fragFirst == Tally(FirstFragment, h) && fragLater == Tally(LaterFragment, h)
      ensures tcp == Tally(Tcp, h) && udp == Tally(Udp, h) && icmp == Tally(Icmp, h) && icmpv6 == Tally(Icmpv6, h)
      ensures otherL4 == Tally(OtherL4, h)
    {
    }

    lemma DescribedIsBalanced(h: seq<Seen>)
      requires Describes(h) && AllWellFormed(h)
      ensures Balanced()
    {
      hide Tally, AllWellFormed, SumOf, StatusSum, GtpStatusSum, DecodeStatus.Number, GtpuStats.Describes,
        GtpuStats.Balanced;
      StatusesPartition(h);
      SumOfCounters(byStatus[..], h, 0, STATUS_COUNT);
      SumOfCounters(byStatus[..], h, 1, FIRST_BAD);
      SumOfCounters(byStatus[..], h, FIRST_BAD, STATUS_COUNT);
      assert byStatus[..][0..STATUS_COUNT] == byStatus[0..STATUS_COUNT];
      assert byStatus[..][1..FIRST_BAD] == byStatus[1..FIRST_BAD];
      assert byStatus[..][FIRST_BAD..STATUS_COUNT] == byStatus[FIRST_BAD..STATUS_COUNT];
      TransportsPartition(h);
      gtpu.DescribedIsBalanced(h);
    }

    method AddTimes(r: Seen, ghost h: seq<Seen>)
      requires DescribesTimes(h)
      modifies this`packets, this`firstTs, this`lastTs
      ensures DescribesTimes(h + [r])
    {
      SpanGrows(h, r, firstTs, lastTs);
      hide IsEarliestSeen, IsLatestSeen;
      if packets == 0 || r.ts < firstTs {
        firstTs := r.ts;
      }
      if packets == 0 || r.ts > lastTs {
        lastTs := r.ts;
      }
      packets := packets + 1;
    }

    method AddTotals(r: Seen, ghost h: seq<Seen>)
      requires DescribesTotals(h)
      modifies this`wireBytes, this`capturedBytes, this`vlanTagged
      ensures DescribesTotals(h + [r])
    {
      TotalBumps(h, r);
      hide Tally, WireBytes, CapturedBytes;
      wireBytes := wireBytes + r.wirelen;
      capturedBytes := capturedBytes + r.caplen;
      if r.p.l2.vlans != [] {
        vlanTagged := vlanTagged + 1;
      }
    }

    method AddStatus(r: Seen, ghost h: seq<Seen>)
      requires DescribesStatuses(h)
      modifies this`truncated, this`malformed, byStatus
      ensures DescribesStatuses(h + [r])
    {
      hide Tally;
      StatusBumps(h, r);
      var n := r.p.status.Number();
      if n < STATUS_COUNT {
        byStatus[n] := byStatus[n] + 1;
      }
      if r.p.status != Ok {
        if r.p.status.IsTruncation() {
          truncated := truncated + 1;
        } else {
          malformed := malformed + 1;
        }
      }
    }

    method AddNetwork(r: Seen, ghost h: seq<Seen>)
      requires DescribesNetworks(h)
      modifies this`nonIp, this`ipv4, this`ipv6, this`fragFirst, this`fragLater
      ensures DescribesNetworks(h + [r])
    {
      hide Tally;
      NetworkBumps(h, r);
      if !r.p.l3.present {
        if r.p.l2.present && r.p.l2.ethertype != ETHERTYPE_IPV4 && r.p.l2.ethertype != ETHERTYPE_IPV6 {
          nonIp := nonIp + 1;
        }
        return;
      }
      if r.p.l3.version == 4 {
        ipv4 := ipv4 + 1;
      } else {
        ipv6 := ipv6 + 1;
      }
      if r.p.l3.frag == FragFirst {
        fragFirst := fragFirst + 1;
      } else if r.p.l3.frag == FragLater {
        fragLater := fragLater + 1;
      }
    }

    method AddTransport(r: Seen, ghost h: seq<Seen>)
      requires DescribesTransports(h)
      modifies this`tcp, this`udp, this`icmp, this`icmpv6, this`otherL4
      ensures DescribesTransports(h + [r])
    {
      hide Tally;
      TransportBumps(h, r);
      if !r.p.l3.present || r.p.status == TruncIpv6Ext || r.p.status == BadIpv6Ext {
        return;
      }
      var proto := r.p.l3.proto;
      if proto == PROTO_TCP {
        tcp := tcp + 1;
      } else if proto == PROTO_UDP {
        udp := udp + 1;
      } else if proto == PROTO_ICMP {
        icmp := icmp + 1;
      } else if proto == PROTO_ICMPV6 {
        icmpv6 := icmpv6 + 1;
      } else {
        otherL4 := otherL4 + 1;
      }
    }

    /** Accounts one frame after decoding. */
    method Add(r: Seen, ghost h: seq<Seen>)
      requires Describes(h) && byStatus != gtpu.byStatus
      modifies this, byStatus, gtpu, gtpu.byStatus
      ensures Describes(h + [r]) && fragMatched == old(fragMatched)
    {
      hide DescribesTotals, DescribesTimes, DescribesStatuses, DescribesNetworks, DescribesTransports,
        GtpuStats.Describes, Tally;
      AddTimes(r, h);
      AddTotals(r, h);
      AddStatus(r, h);
      gtpu.Add(r, h);
      AddNetwork(r, h);
      AddTransport(r, h);
    }
  }

  ghost predicate IsEarliestSeen(ts: uint64, h: seq<Seen>) {
    (exists i :: 0 <= i < |h| && h[i].ts == ts) && forall i :: 0 <= i < |h| ==> ts <= h[i].ts
  }

  ghost predicate IsLatestSeen(ts: uint64, h: seq<Seen>) {
    (exists i :: 0 <= i < |h| && h[i].ts == ts) && forall i :: 0 <= i < |h| ==> h[i].ts <= ts
  }

  lemma SpanGrows(h: seq<Seen>, r: Seen, first: uint64, last: uint64)
    requires h != [] ==> IsEarliestSeen(first, h) && IsLatestSeen(last, h)
    ensures IsEarliestSeen(if h == [] || r.ts < first then r.ts else first, h + [r])
    ensures IsLatestSeen(if h == [] || r.ts > last then r.ts else last, h + [r])
  {
    assert (h + [r])[|h|] == r;
    if h != [] {
      var i :| 0 <= i < |h| && h[i].ts == first;
      var j :| 0 <= j < |h| && h[j].ts == last;
      assert (h + [r])[i].ts == first && (h + [r])[j].ts == last;
    }
  }

  lemma TotalBumps(h: seq<Seen>, r: Seen)
    ensures Tally(VlanTagged, h + [r]) == Tally(VlanTagged, h) + Bit(r.p.l2.vlans != [])
    ensures WireBytes(h + [r]) == WireBytes(h) + r.wirelen
    ensures CapturedBytes(h + [r]) == CapturedBytes(h) + r.caplen
  {
    TallyGrows(h, r);
  }

  lemma StatusBumps(h: seq<Seen>, r: Seen)
    ensures Tally(Truncated, h + [r]) == Tally(Truncated, h) + Bit(r.p.status.IsTruncation())
    ensures Tally(Malformed, h + [r]) == Tally(Malformed, h) + Bit(r.p.status.IsMalformation())
    ensures forall i: nat :: Tally(StatusIs(i), h + [r]) == Tally(StatusIs(i), h) + Bit(r.p.status.Number() == i)
  {
    hide Tally, DecodeStatus.IsTruncation, DecodeStatus.IsMalformation, DecodeStatus.Number;
    TallyGrows(h, r);
  }

  lemma NetworkBumps(h: seq<Seen>, r: Seen)
    ensures Tally(NonIp, h + [r]) == Tally(NonIp, h) +
            Bit(!r.p.l3.present && r.p.l2.present
                && r.p.l2.ethertype != ETHERTYPE_IPV4 && r.p.l2.ethertype != ETHERTYPE_IPV6)
    ensures Tally(Ipv4, h + [r]) == Tally(Ipv4, h) + Bit(r.p.l3.present && r.p.l3.version == 4)
    ensures Tally(Ipv6, h + [r]) == Tally(Ipv6, h) + Bit(r.p.l3.present && r.p.l3.version != 4)
    ensures Tally(FirstFragment, h + [r]) == Tally(FirstFragment, h) + Bit(r.p.l3.present && r.p.l3.frag == FragFirst)
    ensures Tally(LaterFragment, h + [r]) == Tally(LaterFragment, h) + Bit(r.p.l3.present && r.p.l3.frag == FragLater)
  {
    hide Tally, Counts, Bump;
    TallyGrows(h, r);
    OuterBump(r.p);
    OneNetwork(r.p);
  }

  lemma TransportBumps(h: seq<Seen>, r: Seen)
    ensures var k := HasTransport(r.p); var proto := r.p.l3.proto;
      && Tally(Tcp, h + [r]) == Tally(Tcp, h) + Bit(k && proto == PROTO_TCP)
      && Tally(Udp, h + [r]) == Tally(Udp, h) + Bit(k && proto == PROTO_UDP)
      && Tally(Icmp, h + [r]) == Tally(Icmp, h) + Bit(k && proto == PROTO_ICMP)
      && Tally(Icmpv6, h + [r]) == Tally(Icmpv6, h) + Bit(k && proto == PROTO_ICMPV6)
      && Tally(OtherL4, h + [r]) ==
         Tally(OtherL4, h) + Bit(k && !NamedProtocol(proto))
  {
    hide Tally, Counts, Bump, HasTransport, NamedProtocol;
    TallyGrows(h, r);
    OuterBump(r.p);
    OneOuterTransport(r.p);
  }

  // What one more record adds to each counter.

  lemma MessageBumps(h: seq<Seen>, r: Seen)
    ensures Tally(InGtp(Message), h + [r]) == Tally(InGtp(Message), h) + Bit(IsMessage(r.p))
    ensures Tally(InGtp(Fragmented), h + [r]) == Tally(InGtp(Fragmented), h) + Bit(IsFragmentedGtpu(r.p))
    ensures Tally(InGtp(NotV1u), h + [r]) ==
            Tally(InGtp(NotV1u), h) + Bit(IsMessage(r.p) && !r.p.gtp.v1u && r.p.gtp.status == Ok)
  {
    TallyGrows(h, r);
  }

  function Bit(b: bool): nat {
    if b then 1 else 0
  }

  lemma TypeBumps(h: seq<Seen>, r: Seen)
    ensures var t, v := r.p.gtp.msgType, IsV1u(r.p);
      && Tally(InGtp(Gpdu), h + [r]) == Tally(InGtp(Gpdu), h) + Bit(v && t == GTPU_MSG_GPDU)
      && Tally(InGtp(EchoRequest), h + [r]) == Tally(InGtp(EchoRequest), h) + Bit(v && t == GTPU_MSG_ECHO_REQUEST)
      && Tally(InGtp(EchoResponse), h + [r]) == Tally(InGtp(EchoResponse), h) + Bit(v && t == GTPU_MSG_ECHO_RESPONSE)
      && Tally(InGtp(ErrorIndication), h + [r]) ==
         Tally(InGtp(ErrorIndication), h) + Bit(v && t == GTPU_MSG_ERROR_INDICATION)
      && Tally(InGtp(EndMarker), h + [r]) == Tally(InGtp(EndMarker), h) + Bit(v && t == GTPU_MSG_END_MARKER)
      && Tally(InGtp(OtherType), h + [r]) ==
         Tally(InGtp(OtherType), h) + Bit(v && !NamedType(t))
  {
    hide Tally, IsV1u, CountsGtp, NamedType;
    TallyGrows(h, r);
    OneType(r.p);
  }

  lemma OptionBumps(h: seq<Seen>, r: Seen)
    ensures var v := IsV1u(r.p);
      && Tally(InGtp(WithSeq), h + [r]) == Tally(InGtp(WithSeq), h) + Bit(v && GtpuFlagS(r.p.gtp.flags))
      && Tally(InGtp(WithExt), h + [r]) == Tally(InGtp(WithExt), h) + Bit(v && r.p.gtp.extCount > 0)
  {
    hide Tally, IsV1u, GtpuFlagS;
    TallyGrows(h, r);
  }

  lemma UserVersionBumps(h: seq<Seen>, r: Seen)
    ensures var u := HasInner(r.p);
      && Tally(InGtp(InTunnel(InnerIpv4)), h + [r]) ==
         Tally(InGtp(InTunnel(InnerIpv4)), h) + Bit(u && r.p.inner.version == 4)
      && Tally(InGtp(InTunnel(InnerIpv6)), h + [r]) ==
         Tally(InGtp(InTunnel(InnerIpv6)), h) + Bit(u && r.p.inner.version != 4)
      && Tally(InGtp(InTunnel(Nested)), h + [r]) ==
         Tally(InGtp(InTunnel(Nested)), h) + Bit(u && !ChainBroken(r.p.gtp.status) && r.p.inner.nested)
  {
    hide Tally, HasInner, ChainBroken;
    TallyGrows(h, r);
  }

  lemma UserProtocolBumps(h: seq<Seen>, r: Seen)
    ensures var k := HasInner(r.p) && !ChainBroken(r.p.gtp.status); var proto := r.p.inner.proto;
      && Tally(InGtp(InTunnel(InnerTcp)), h + [r]) == Tally(InGtp(InTunnel(InnerTcp)), h) + Bit(k && proto == PROTO_TCP)
      && Tally(InGtp(InTunnel(InnerUdp)), h + [r]) == Tally(InGtp(InTunnel(InnerUdp)), h) + Bit(k && proto == PROTO_UDP)
      && Tally(InGtp(InTunnel(InnerIcmp)), h + [r]) ==
         Tally(InGtp(InTunnel(InnerIcmp)), h) + Bit(k && proto == PROTO_ICMP)
      && Tally(InGtp(InTunnel(InnerIcmpv6)), h + [r]) ==
         Tally(InGtp(InTunnel(InnerIcmpv6)), h) + Bit(k && proto == PROTO_ICMPV6)
      && Tally(InGtp(InTunnel(InnerOther)), h + [r]) ==
         Tally(InGtp(InTunnel(InnerOther)), h) + Bit(k && !NamedProtocol(proto))
  {
    hide Tally, HasInner, ChainBroken;
    UserBump(InnerTcp, h, r);
    UserBump(InnerUdp, h, r);
    UserBump(InnerIcmp, h, r);
    UserBump(InnerIcmpv6, h, r);
    UserBump(InnerOther, h, r);
  }

  lemma UserBump(u: UserCounter, h: seq<Seen>, r: Seen)
    ensures Tally(InGtp(InTunnel(u)), h + [r]) ==
            Tally(InGtp(InTunnel(u)), h) + Bit(HasInner(r.p) && CountsUser(u, r.p))
  {
    hide Tally, HasInner, CountsUser, IsMessage, IsV1u;
    TallyGrows(h, r);
  }

  lemma ProblemBumps(h: seq<Seen>, r: Seen)
    ensures var m, st, ok := IsMessage(r.p), r.p.gtp.status, r.p.gtp.msgOk;
      && Tally(InGtp(GtpTruncated), h + [r]) == Tally(InGtp(GtpTruncated), h) + Bit(m && st.IsTruncation())
      && Tally(InGtp(GtpMalformed), h + [r]) == Tally(InGtp(GtpMalformed), h) + Bit(m && st.IsMalformation())
      && Tally(InGtp(UserTruncated), h + [r]) == Tally(InGtp(UserTruncated), h) + Bit(m && st.IsTruncation() && ok)
      && Tally(InGtp(UserMalformed), h + [r]) == Tally(InGtp(UserMalformed), h) + Bit(m && st.IsMalformation() && ok)
      && forall i: nat ::
           Tally(InGtp(GtpStatusIs(i)), h + [r]) == Tally(InGtp(GtpStatusIs(i)), h) + Bit(m && st.Number() == i)
  {
    hide Tally, IsMessage, DecodeStatus.IsTruncation, DecodeStatus.IsMalformation, DecodeStatus.Number;
    TallyGrows(h, r);
  }
}
