/** What each counter of src/stats.h counts: the records of the history for which a condition
    holds. Stats.dfy proves that the counters are kept that way; the equations between them are
    proved here, for every history of well-formed packets. */
module Counting {
  import opened Bytes
  import opened DecodeProofs
  import opened Packet

  /** One record as the counters see it. */
  datatype Seen = Seen(p: PacketInfo, caplen: uint32, wirelen: uint32, ts: uint64)

  datatype Counter =
    | StatusIs(number: nat) | Truncated | Malformed
    | VlanTagged | NonIp | Ipv4 | Ipv6 | FirstFragment | LaterFragment
    | Tcp | Udp | Icmp | Icmpv6 | OtherL4
    | InGtp(g: GtpCounter)

  datatype GtpCounter =
    | Fragmented | Message | NotV1u
    | GtpStatusIs(number: nat) | GtpTruncated | GtpMalformed | UserTruncated | UserMalformed
    | Gpdu | EchoRequest | EchoResponse | ErrorIndication | EndMarker | OtherType
    | WithSeq | WithExt
    | InTunnel(u: UserCounter)
    // Not counters of the program: G-PDUs whose GTP-U headers failed, those that did not, and messages
    // cut before their type.
    | GpduHeadersBad | GpduHeadersGood | TypeUnknown

  datatype UserCounter =
    | InnerIpv4 | InnerIpv6 | InnerTcp | InnerUdp | InnerIcmp | InnerIcmpv6 | InnerOther | Nested

  /** A broken IPv6 extension chain leaves the transport protocol unknown. */
  predicate ChainBroken(st: DecodeStatus) {
    st == TruncIpv6Ext || st == BadIpv6Ext
  }

  predicate HasTransport(p: PacketInfo) {
    p.l3.present && !ChainBroken(p.status)
  }

  predicate IsFragmentedGtpu(p: PacketInfo) {
    p.l3.frag == FragFirst && IsGtpuPort(p.l3, p.l4)
  }

  predicate IsMessage(p: PacketInfo) {
    p.gtp.isGtpu && !IsFragmentedGtpu(p)
  }

  predicate IsV1u(p: PacketInfo) {
    IsMessage(p) && p.gtp.v1u
  }

  predicate HasInner(p: PacketInfo) {
    IsV1u(p) && p.inner.present
  }

  // The message types and protocols that have a counter of their own.
  predicate NamedType(t: byte) {
    || t == GTPU_MSG_GPDU || t == GTPU_MSG_ECHO_REQUEST || t == GTPU_MSG_ECHO_RESPONSE
    || t == GTPU_MSG_ERROR_INDICATION || t == GTPU_MSG_END_MARKER
  }

  predicate NamedProtocol(proto: byte) {
    proto == PROTO_TCP || proto == PROTO_UDP || proto == PROTO_ICMP || proto == PROTO_ICMPV6
  }

  predicate Counts(c: Counter, p: PacketInfo) {
    match c
    case StatusIs(n) => p.status.Number() == n
    case Truncated => p.status.IsTruncation()
    case Malformed => p.status.IsMalformation()
    case VlanTagged => p.l2.vlans != []
    case NonIp => !p.l3.present && p.l2.present && p.l2.ethertype != ETHERTYPE_IPV4 && p.l2.ethertype != ETHERTYPE_IPV6
    case Ipv4 => p.l3.present && p.l3.version == 4
    case Ipv6 => p.l3.present && p.l3.version != 4
    case FirstFragment => p.l3.present && p.l3.frag == FragFirst
    case LaterFragment => p.l3.present && p.l3.frag == FragLater
    case Tcp => HasTransport(p) && p.l3.proto == PROTO_TCP
    case Udp => HasTransport(p) && p.l3.proto == PROTO_UDP
    case Icmp => HasTransport(p) && p.l3.proto == PROTO_ICMP
    case Icmpv6 => HasTransport(p) && p.l3.proto == PROTO_ICMPV6
    case OtherL4 => HasTransport(p) && !NamedProtocol(p.l3.proto)
    case InGtp(g) => CountsGtp(g, p)
  }

  predicate CountsGtp(c: GtpCounter, p: PacketInfo) {
    match c
    case Fragmented => IsFragmentedGtpu(p)
    case Message => IsMessage(p)
    case NotV1u => IsMessage(p) && !p.gtp.v1u && p.gtp.status == Ok
    case GtpStatusIs(n) => IsMessage(p) && p.gtp.status.Number() == n
    case GtpTruncated => IsMessage(p) && p.gtp.status.IsTruncation()
    case GtpMalformed => IsMessage(p) && p.gtp.status.IsMalformation()
    case UserTruncated => IsMessage(p) && p.gtp.status.IsTruncation() && p.gtp.msgOk
    case UserMalformed => IsMessage(p) && p.gtp.status.IsMalformation() && p.gtp.msgOk
    case Gpdu => IsV1u(p) && p.gtp.msgType == GTPU_MSG_GPDU
    case EchoRequest => IsV1u(p) && p.gtp.msgType == GTPU_MSG_ECHO_REQUEST
    case EchoResponse => IsV1u(p) && p.gtp.msgType == GTPU_MSG_ECHO_RESPONSE
    case ErrorIndication => IsV1u(p) && p.gtp.msgType == GTPU_MSG_ERROR_INDICATION
    case EndMarker => IsV1u(p) && p.gtp.msgType == GTPU_MSG_END_MARKER
    case OtherType => IsV1u(p) && !NamedType(p.gtp.msgType)
    case WithSeq => IsV1u(p) && GtpuFlagS(p.gtp.flags)
    case WithExt => IsV1u(p) && p.gtp.extCount > 0
    case InTunnel(u) => HasInner(p) && CountsUser(u, p)
    case GpduHeadersBad => IsV1u(p) && p.gtp.msgType == GTPU_MSG_GPDU && p.gtp.status.IsGtpuHeaderProblem()
    case TypeUnknown => IsMessage(p) && !p.gtp.v1u && p.gtp.status != Ok
    case GpduHeadersGood => IsV1u(p) && p.gtp.msgType == GTPU_MSG_GPDU && p.gtp.msgOk
  }

  predicate CountsUser(c: UserCounter, p: PacketInfo) {
    match c
    case InnerIpv4 => p.inner.version == 4
    case InnerIpv6 => p.inner.version != 4
    case InnerTcp => !ChainBroken(p.gtp.status) && p.inner.proto == PROTO_TCP
    case InnerUdp => !ChainBroken(p.gtp.status) && p.inner.proto == PROTO_UDP
    case InnerIcmp => !ChainBroken(p.gtp.status) && p.inner.proto == PROTO_ICMP
    case InnerIcmpv6 => !ChainBroken(p.gtp.status) && p.inner.proto == PROTO_ICMPV6
    case InnerOther => !ChainBroken(p.gtp.status) && !NamedProtocol(p.inner.proto)
    case Nested => !ChainBroken(p.gtp.status) && p.inner.nested
  }

  function Bump(c: Counter, p: PacketInfo): nat {
    if Counts(c, p) then 1 else 0
  }

  /** How many records of the history `c` counts. */
  function Tally(c: Counter, h: seq<Seen>): nat {
    if h == [] then 0 else Tally(c, h[..|h| - 1]) + Bump(c, h[|h| - 1].p)
  }

  function WireBytes(h: seq<Seen>): nat {
    if h == [] then 0 else WireBytes(h[..|h| - 1]) + h[|h| - 1].wirelen
  }

  function CapturedBytes(h: seq<Seen>): nat {
    if h == [] then 0 else CapturedBytes(h[..|h| - 1]) + h[|h| - 1].caplen
  }

  lemma TallyGrows(h: seq<Seen>, r: Seen)
    ensures forall c: Counter :: Tally(c, h + [r]) == Tally(c, h) + Bump(c, r.p)
    ensures WireBytes(h + [r]) == WireBytes(h) + r.wirelen
    ensures CapturedBytes(h + [r]) == CapturedBytes(h) + r.caplen
  {
    assert (h + [r])[..|h|] == h;
  }

  /** A history as the pipeline produces it. */
  ghost predicate AllWellFormed(h: seq<Seen>) {
    forall i :: 0 <= i < |h| ==> WellFormed(h[i].p)
  }

  // ----- Equations between the counters -----

  /** The sum of the per-status counters from number `lo` up to, but not including, `hi`. */
  function StatusSum(h: seq<Seen>, lo: nat, hi: nat): nat
    decreases hi
  {
    if hi <= lo then 0 else StatusSum(h, lo, hi - 1) + Tally(StatusIs(hi - 1), h)
  }

  function GtpStatusSum(h: seq<Seen>, lo: nat, hi: nat): nat
    decreases hi
  {
    if hi <= lo then 0 else GtpStatusSum(h, lo, hi - 1) + Tally(InGtp(GtpStatusIs(hi - 1)), h)
  }

  lemma {:induction false} StatusSumGrows(h: seq<Seen>, r: Seen, lo: nat, hi: nat)
    ensures StatusSum(h + [r], lo, hi) == StatusSum(h, lo, hi) + if lo <= r.p.status.Number() < hi then 1 else 0
    ensures GtpStatusSum(h + [r], lo, hi) ==
            GtpStatusSum(h, lo, hi) + if IsMessage(r.p) && lo <= r.p.gtp.status.Number() < hi then 1 else 0
    decreases hi
  {
    hide Tally, Bump, IsMessage, DecodeStatus.Number;
    if lo < hi {
      StatusSumGrows(h, r, lo, hi - 1);
      TallyGrows(h, r);
      StatusBump(r.p, hi - 1);
    }
  }

  lemma StatusBump(p: PacketInfo, n: nat)
    ensures Bump(StatusIs(n), p) == if p.status.Number() == n then 1 else 0
    ensures Bump(InGtp(GtpStatusIs(n)), p) == if IsMessage(p) && p.gtp.status.Number() == n then 1 else 0
  {
    hide IsMessage, DecodeStatus.Number;
  }

  lemma {:induction false} StatusSumOfNothing(lo: nat, hi: nat)
    ensures StatusSum([], lo, hi) == 0 && GtpStatusSum([], lo, hi) == 0
    decreases hi
  {
    if lo < hi {
      StatusSumOfNothing(lo, hi - 1);
    }
  }

  function SumOf(a: seq<nat>): nat {
    if a == [] then 0 else SumOf(a[..|a| - 1]) + a[|a| - 1]
  }

  /** Adding up counters kept in an array. */
  lemma {:induction false} SumOfCounters(a: seq<nat>, h: seq<Seen>, lo: nat, hi: nat)
    requires lo <= hi <= |a|
    ensures (forall i :: lo <= i < hi ==> a[i] == Tally(StatusIs(i), h)) ==> SumOf(a[lo..hi]) == StatusSum(h, lo, hi)
    ensures (forall i :: lo <= i < hi ==> a[i] == Tally(InGtp(GtpStatusIs(i)), h)) ==>
              SumOf(a[lo..hi]) == GtpStatusSum(h, lo, hi)
    decreases hi
  {
    hide Tally;
    if lo < hi {
      SumOfCounters(a, h, lo, hi - 1);
      assert a[lo..hi][..hi - lo - 1] == a[lo..hi - 1];
    }
  }

  const FIRST_BAD: nat := 12

  lemma OneStatus(p: PacketInfo)
    ensures Bump(Truncated, p) == if 1 <= p.status.Number() < FIRST_BAD then 1 else 0
    ensures Bump(Malformed, p) == if FIRST_BAD <= p.status.Number() then 1 else 0
    ensures Bump(InGtp(Message), p) == if IsMessage(p) then 1 else 0
    ensures Bump(InGtp(GtpTruncated), p) == if IsMessage(p) && 1 <= p.gtp.status.Number() < FIRST_BAD then 1 else 0
    ensures Bump(InGtp(GtpMalformed), p) == if IsMessage(p) && FIRST_BAD <= p.gtp.status.Number() then 1 else 0
  {
  }

  /** Every record has exactly one status: the status counters add up to the number of records, the
      first eleven reasons to `truncated` and the rest to `malformed`; and the same for GTP-U. */
  lemma {:induction false} StatusesPartition(h: seq<Seen>)
    ensures StatusSum(h, 0, STATUS_COUNT) == |h|
    ensures StatusSum(h, 1, FIRST_BAD) == Tally(Truncated, h)
    ensures StatusSum(h, FIRST_BAD, STATUS_COUNT) == Tally(Malformed, h)
    ensures GtpStatusSum(h, 0, STATUS_COUNT) == Tally(InGtp(Message), h)
    ensures GtpStatusSum(h, 1, FIRST_BAD) == Tally(InGtp(GtpTruncated), h)
    ensures GtpStatusSum(h, FIRST_BAD, STATUS_COUNT) == Tally(InGtp(GtpMalformed), h)
  {
    hide StatusSum, GtpStatusSum, Tally, Bump;
    NothingTallied();
    if h == [] {
      StatusSumOfNothing(0, STATUS_COUNT);
      StatusSumOfNothing(1, FIRST_BAD);
      StatusSumOfNothing(FIRST_BAD, STATUS_COUNT);
    } else {
      var front, r := h[..|h| - 1], h[|h| - 1];
      assert h == front + [r];
      StatusesPartition(front);
      TallyStep(h);
      OneStatus(r.p);
      StatusSumGrows(front, r, 0, STATUS_COUNT);
      StatusSumGrows(front, r, 1, FIRST_BAD);
      StatusSumGrows(front, r, FIRST_BAD, STATUS_COUNT);
    }
  }

  /** Which of the network and fragment counters a packet raises. */
  lemma OneNetwork(p: PacketInfo)
    ensures Counts(NonIp, p) <==>
            && !p.l3.present && p.l2.present
            && p.l2.ethertype != ETHERTYPE_IPV4 && p.l2.ethertype != ETHERTYPE_IPV6
    ensures Counts(Ipv4, p) <==> p.l3.present && p.l3.version == 4
    ensures Counts(Ipv6, p) <==> p.l3.present && p.l3.version != 4
    ensures Counts(FirstFragment, p) <==> p.l3.present && p.l3.frag == FragFirst
    ensures Counts(LaterFragment, p) <==> p.l3.present && p.l3.frag == FragLater
  {
  }

  /** Which of the transport counters it raises. */
  lemma OneOuterTransport(p: PacketInfo)
    ensures var k, proto := HasTransport(p), p.l3.proto;
            && (Counts(Tcp, p) <==> k && proto == PROTO_TCP) && (Counts(Udp, p) <==> k && proto == PROTO_UDP)
            && (Counts(Icmp, p) <==> k && proto == PROTO_ICMP) && (Counts(Icmpv6, p) <==> k && proto == PROTO_ICMPV6)
            && (Counts(OtherL4, p) <==> k && !NamedProtocol(proto))
  {
    hide HasTransport, NamedProtocol;
  }

  lemma TallyStep(h: seq<Seen>)
    requires h != []
    ensures forall c: Counter :: Tally(c, h) == Tally(c, h[..|h| - 1]) + Bump(c, h[|h| - 1].p)
  {
  }

  lemma NothingTallied()
    ensures forall c: Counter :: Tally(c, []) == 0
  {
  }

  lemma OneTransport(p: PacketInfo)
    requires WellFormed(p)
    ensures Bump(Tcp, p) + Bump(Udp, p) + Bump(Icmp, p) + Bump(Icmpv6, p) + Bump(OtherL4, p)
            + Bump(StatusIs(TruncIpv6Ext.Number()), p) + Bump(StatusIs(BadIpv6Ext.Number()), p)
            == Bump(Ipv4, p) + Bump(Ipv6, p)
  {
    hide GtpuShape;
    NumberIsStatus(p.status);
    hide DecodeStatus.IsTruncation, DecodeStatus.IsMalformation, DecodeStatus.IsGtpuHeaderProblem, DecodeStatus.Number,
      GtpuFlagS;
  }

  /** Different statuses have different numbers. */
  lemma NumberIsStatus(st: DecodeStatus)
    ensures st.Number() == TruncIpv6Ext.Number() <==> st == TruncIpv6Ext
    ensures st.Number() == BadIpv6Ext.Number() <==> st == BadIpv6Ext
  {
  }

  /** Every record with a valid IP header has one transport protocol, unless its IPv6 extension
      chain is broken. */
  lemma {:induction false} TransportsPartition(h: seq<Seen>)
    requires AllWellFormed(h)
    ensures Tally(Tcp, h) + Tally(Udp, h) + Tally(Icmp, h) + Tally(Icmpv6, h) + Tally(OtherL4, h)
            + Tally(StatusIs(TruncIpv6Ext.Number()), h) + Tally(StatusIs(BadIpv6Ext.Number()), h)
            == Tally(Ipv4, h) + Tally(Ipv6, h)
  {
    hide Tally, Bump, WellFormed;
    NothingTallied();
    if h != [] {
      TallyStep(h);
      TransportsPartition(h[..|h| - 1]);
      OneTransport(h[|h| - 1].p);
    }
  }

  lemma OneInnerTransport(p: PacketInfo)
    requires WellFormed(p)
    ensures Bump(InGtp(InTunnel(InnerTcp)), p) + Bump(InGtp(InTunnel(InnerUdp)), p)
            + Bump(InGtp(InTunnel(InnerIcmp)), p) + Bump(InGtp(InTunnel(InnerIcmpv6)), p)
            + Bump(InGtp(InTunnel(InnerOther)), p)
            + Bump(InGtp(GtpStatusIs(TruncIpv6Ext.Number())), p) + Bump(InGtp(GtpStatusIs(BadIpv6Ext.Number())), p)
            == Bump(InGtp(InTunnel(InnerIpv4)), p) + Bump(InGtp(InTunnel(InnerIpv6)), p)
  {
    hide CountsGtp, CountsUser, Bump, OuterShape, DecodeStatus.IsGtpuHeaderProblem, DecodeStatus.Number;
    GtpBump(p);
    OneProtocol(p);
    NumberIsStatus(p.gtp.status);
  }

  /** Which of the user counters a user packet raises. */
  lemma OneProtocol(p: PacketInfo)
    ensures var k := HasInner(p) && !ChainBroken(p.gtp.status); var proto := p.inner.proto;
            && (CountsGtp(InTunnel(InnerTcp), p) <==> k && proto == PROTO_TCP)
            && (CountsGtp(InTunnel(InnerUdp), p) <==> k && proto == PROTO_UDP)
            && (CountsGtp(InTunnel(InnerIcmp), p) <==> k && proto == PROTO_ICMP)
            && (CountsGtp(InTunnel(InnerIcmpv6), p) <==> k && proto == PROTO_ICMPV6)
            && (CountsGtp(InTunnel(InnerOther), p) <==> k && !NamedProtocol(proto))
    ensures CountsGtp(InTunnel(InnerIpv4), p) <==> HasInner(p) && p.inner.version == 4
    ensures CountsGtp(InTunnel(InnerIpv6), p) <==> HasInner(p) && p.inner.version != 4
    ensures forall n :: CountsGtp(GtpStatusIs(n), p) <==> IsMessage(p) && p.gtp.status.Number() == n
  {
    hide HasInner, ChainBroken, NamedProtocol, IsMessage, DecodeStatus.Number;
  }

  /** The same inside the tunnels. */
  lemma {:induction false} InnerTransportsPartition(h: seq<Seen>)
    requires AllWellFormed(h)
    ensures Tally(InGtp(InTunnel(InnerTcp)), h) + Tally(InGtp(InTunnel(InnerUdp)), h)
            + Tally(InGtp(InTunnel(InnerIcmp)), h) + Tally(InGtp(InTunnel(InnerIcmpv6)), h)
            + Tally(InGtp(InTunnel(InnerOther)), h)
            + Tally(InGtp(GtpStatusIs(TruncIpv6Ext.Number())), h) + Tally(InGtp(GtpStatusIs(BadIpv6Ext.Number())), h)
            == Tally(InGtp(InTunnel(InnerIpv4)), h) + Tally(InGtp(InTunnel(InnerIpv6)), h)
  {
    hide Tally, Bump, WellFormed;
    NothingTallied();
    if h != [] {
      TallyStep(h);
      InnerTransportsPartition(h[..|h| - 1]);
      OneInnerTransport(h[|h| - 1].p);
    }
  }

  lemma OuterBump(p: PacketInfo)
    ensures forall c: Counter :: Bump(c, p) == if Counts(c, p) then 1 else 0
  {
    hide Counts;
  }

  lemma GtpBump(p: PacketInfo)
    ensures forall g: GtpCounter :: Bump(InGtp(g), p) == if CountsGtp(g, p) then 1 else 0
  {
    hide CountsGtp;
  }

  /** Which of the type counters a GTPv1-U message raises. */
  lemma OneType(p: PacketInfo)
    ensures CountsGtp(Gpdu, p) <==> IsV1u(p) && p.gtp.msgType == GTPU_MSG_GPDU
    ensures CountsGtp(EchoRequest, p) <==> IsV1u(p) && p.gtp.msgType == GTPU_MSG_ECHO_REQUEST
    ensures CountsGtp(EchoResponse, p) <==> IsV1u(p) && p.gtp.msgType == GTPU_MSG_ECHO_RESPONSE
    ensures CountsGtp(ErrorIndication, p) <==> IsV1u(p) && p.gtp.msgType == GTPU_MSG_ERROR_INDICATION
    ensures CountsGtp(EndMarker, p) <==> IsV1u(p) && p.gtp.msgType == GTPU_MSG_END_MARKER
    ensures CountsGtp(OtherType, p) <==> IsV1u(p) && !NamedType(p.gtp.msgType)
  {
    hide IsV1u, NamedType;
  }

  lemma OneVersion(p: PacketInfo)
    ensures CountsGtp(Message, p) <==> CountsGtp(NotV1u, p) || CountsGtp(TypeUnknown, p) || IsV1u(p)
    ensures CountsGtp(NotV1u, p) ==> !CountsGtp(TypeUnknown, p) && !IsV1u(p)
    ensures CountsGtp(TypeUnknown, p) ==> !IsV1u(p)
  {
    hide IsMessage;
  }

  lemma OneMessageType(p: PacketInfo)
    ensures Bump(InGtp(Message), p) ==
            Bump(InGtp(Gpdu), p) + Bump(InGtp(EchoRequest), p) + Bump(InGtp(EchoResponse), p)
            + Bump(InGtp(ErrorIndication), p) + Bump(InGtp(EndMarker), p) + Bump(InGtp(OtherType), p)
            + Bump(InGtp(NotV1u), p) + Bump(InGtp(TypeUnknown), p)
  {
    hide CountsGtp, Bump, IsV1u;
    GtpBump(p);
    OneType(p);
    OneVersion(p);
  }

  lemma UnknownTypeIsCut(p: PacketInfo)
    requires WellFormed(p)
    ensures Bump(InGtp(TypeUnknown), p) <= Bump(InGtp(GtpStatusIs(TruncGtpu.Number())), p)
  {
    hide OuterShape, IsMessage, GtpuFlagS;
    if Counts(InGtp(TypeUnknown), p) {
      assert p.gtp.status == TruncGtpu;
    }
  }

  /** Every GTP-U message is of one type, is not GTPv1-U, or is one of those whose fixed header the
      capture cut. */
  lemma {:induction false} MessageTypesPartition(h: seq<Seen>)
    requires AllWellFormed(h)
    ensures Tally(InGtp(Message), h) ==
            Tally(InGtp(Gpdu), h) + Tally(InGtp(EchoRequest), h) + Tally(InGtp(EchoResponse), h)
            + Tally(InGtp(ErrorIndication), h) + Tally(InGtp(EndMarker), h) + Tally(InGtp(OtherType), h)
            + Tally(InGtp(NotV1u), h) + Tally(InGtp(TypeUnknown), h)
    ensures Tally(InGtp(TypeUnknown), h) <= Tally(InGtp(GtpStatusIs(TruncGtpu.Number())), h)
  {
    hide Tally, Bump, WellFormed;
    NothingTallied();
    if h != [] {
      TallyStep(h);
      MessageTypesPartition(h[..|h| - 1]);
      OneMessageType(h[|h| - 1].p);
      UnknownTypeIsCut(h[|h| - 1].p);
    }
  }

  lemma OneUserProblem(p: PacketInfo)
    ensures Bump(InGtp(UserTruncated), p) <= Bump(InGtp(GtpTruncated), p)
    ensures Bump(InGtp(UserMalformed), p) <= Bump(InGtp(GtpMalformed), p)
  {
    hide IsMessage, CountsUser, DecodeStatus.IsTruncation, DecodeStatus.IsMalformation, DecodeStatus.Number;
  }

  lemma OneGpdu(p: PacketInfo)
    requires WellFormed(p)
    ensures Bump(InGtp(Gpdu), p) == Bump(InGtp(GpduHeadersGood), p) + Bump(InGtp(GpduHeadersBad), p)
  {
    hide OuterShape, IsMessage, CountsUser, DecodeStatus.IsGtpuHeaderProblem, DecodeStatus.Number;
  }

  lemma OneBadHeader(p: PacketInfo)
    requires WellFormed(p)
    ensures Bump(InGtp(GpduHeadersBad), p) + Bump(InGtp(UserTruncated), p) + Bump(InGtp(UserMalformed), p)
            <= Bump(InGtp(GtpTruncated), p) + Bump(InGtp(GtpMalformed), p)
  {
    hide OuterShape, IsMessage, CountsUser, DecodeStatus.Number;
  }

  /** Problems of user packets are some of the GTP-U problems, so the report's subtractions cannot
      wrap; the G-PDUs that join a tunnel are all but those whose own headers failed; and those are
      some of what the report lists as problems in GTP-U headers. */
  lemma {:induction false} GpdusPartition(h: seq<Seen>)
    ensures Tally(InGtp(UserTruncated), h) <= Tally(InGtp(GtpTruncated), h)
    ensures Tally(InGtp(UserMalformed), h) <= Tally(InGtp(GtpMalformed), h)
    ensures AllWellFormed(h) ==>
              Tally(InGtp(Gpdu), h) == Tally(InGtp(GpduHeadersGood), h) + Tally(InGtp(GpduHeadersBad), h)
    ensures AllWellFormed(h) ==>
              Tally(InGtp(GpduHeadersBad), h) + Tally(InGtp(UserTruncated), h) + Tally(InGtp(UserMalformed), h)
              <= Tally(InGtp(GtpTruncated), h) + Tally(InGtp(GtpMalformed), h)
  {
    hide Tally, Bump, WellFormed;
    NothingTallied();
    if h != [] {
      var p := h[|h| - 1].p;
      TallyStep(h);
      GpdusPartition(h[..|h| - 1]);
      OneUserProblem(p);
      if AllWellFormed(h) {
        OneGpdu(p);
        OneBadHeader(p);
      }
    }
  }

  lemma OneFate(p: PacketInfo)
    requires WellFormed(p)
    ensures 1 == Bump(Truncated, p) + Bump(Malformed, p) + Bump(NonIp, p)
                 + (if p.status == Ok && p.l3.present then 1 else 0)
  {
    hide GtpuShape;
  }
}
