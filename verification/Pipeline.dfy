/** The read, decode, attribute and count pipeline of src/analyze.c as a function of the records,
    and the laws that hold over every run. Analyzer.dfy runs it in place. */
module Pipeline {
  import opened Accounting
  import opened Bytes
  import opened CaptureFormat
  import opened Counting
  import opened DecodeProofs
  import opened DecodeSpec
  import opened FlowKeys
  import opened FragCaches
  import opened Packet
  import opened SnapshotProofs

  // ----- What each record contributes -----

  function DecodedRecord(r: Record): PacketInfo {
    DecodeFrame(r.data, r.wirelen)
  }

  /** Only cleanly decoded packets with an IP layer join a flow. */
  function FlowEntryOf(s: Seen): Option<Entry> {
    if s.p.status == Ok then FlowEntry(s.p, s.wirelen, s.ts) else None
  }

  /** A G-PDU joins its tunnel as soon as its own headers were read in full, whatever became of the
      user packet. */
  function TunnelEntryOf(s: Seen): Option<Entry> {
    if s.p.status == Ok && s.p.gtp.isGtpu && s.p.gtp.v1u && s.p.gtp.msgOk && s.p.gtp.msgType == GTPU_MSG_GPDU
    then TunnelEntry(s.p, s.wirelen, s.ts)
    else None
  }

  function FlowEntries(h: seq<Seen>): seq<Entry> {
    if h == [] then []
    else
      var e := FlowEntryOf(h[|h| - 1]);
      if e.Some? then FlowEntries(h[..|h| - 1]) + [e.value] else FlowEntries(h[..|h| - 1])
  }

  function TunnelEntries(h: seq<Seen>): seq<Entry> {
    if h == [] then []
    else
      var e := TunnelEntryOf(h[|h| - 1]);
      if e.Some? then TunnelEntries(h[..|h| - 1]) + [e.value] else TunnelEntries(h[..|h| - 1])
  }

  // ----- A run over decoded packets -----

  /** One decoded record on its way into the pipeline: a packet before attribution. */
  type Input = Seen

  function FragHistory(ins: seq<Input>): seq<FragEntry> {
    if ins == [] then [] else Recorded(FragHistory(ins[..|ins| - 1]), ins[|ins| - 1].p)
  }

  function MatchCount(ins: seq<Input>, hash: DatagramHash): nat {
    if ins == [] then 0
    else
      var front, p := ins[..|ins| - 1], ins[|ins| - 1].p;
      MatchCount(front, hash) + if Asks(p) && Answer(FragHistory(front), DatagramOf(p), hash).Some? then 1 else 0
  }

  /** The packets as they are counted: later fragments with their datagram's ports. */
  function Attribution(ins: seq<Input>, hash: DatagramHash): (h: seq<Seen>)
    ensures |h| == |ins|
  {
    if ins == [] then []
    else
      var front, i := ins[..|ins| - 1], ins[|ins| - 1];
      Attribution(front, hash) + [i.(p := Attributed(FragHistory(front), i.p, hash))]
  }

  function InputOf(r: Record): Input {
    Seen(DecodedRecord(r), r.caplen, r.wirelen, r.ts)
  }

  function Inputs(rs: seq<Record>): (ins: seq<Input>)
    ensures |ins| == |rs|
  {
    if rs == [] then [] else Inputs(rs[..|rs| - 1]) + [InputOf(rs[|rs| - 1])]
  }

  lemma {:induction false} InputsAt(rs: seq<Record>, i: nat)
    requires i < |rs|
    ensures Inputs(rs)[i] == InputOf(rs[i])
  {
    if i < |rs| - 1 {
      InputsAt(rs[..|rs| - 1], i);
    }
  }

  // ----- What a run makes of each record -----

  function Decoded(rs: seq<Record>): (ps: seq<PacketInfo>)
    ensures |ps| == |rs| && forall i :: 0 <= i < |rs| ==> ps[i] == DecodeFrame(rs[i].data, rs[i].wirelen)
  {
    if rs == [] then [] else Decoded(rs[..|rs| - 1]) + [DecodeFrame(rs[|rs| - 1].data, rs[|rs| - 1].wirelen)]
  }

  lemma {:induction false} HistoryOfRecords(rs: seq<Record>)
    ensures FragHistory(Inputs(rs)) == HistoryOf(Decoded(rs))
  {
    hide Recorded, DecodeFrame;
    if rs != [] {
      var front := rs[..|rs| - 1];
      HistoryOfRecords(front);
      assert Inputs(rs)[..|rs| - 1] == Inputs(front) && Decoded(rs)[..|rs| - 1] == Decoded(front);
    }
  }

  /** Each record is counted with its own lengths and time, and as the packet that its bytes decode to;
      only a later fragment may have ports added: those of the last first fragment recorded in its place,
      if that is one of its own datagram. */
  lemma {:induction false} SeenAt(rs: seq<Record>, hash: DatagramHash, i: nat)
    requires i < |rs|
    ensures var s, ps, p := Attribution(Inputs(rs), hash)[i], Decoded(rs[..i]), DecodeFrame(rs[i].data, rs[i].wirelen);
            && s.ts == rs[i].ts && s.wirelen == rs[i].wirelen && s.caplen == rs[i].caplen
            && (forall j: nat :: p.status == Ok && p.l3.present && p.l3.frag == FragLater
                                 && LastWriter(ps, p, hash, j) && FirstOfSame(ps[j], p) ==>
                  s.p == p.(l4 := p.l4.(srcPort := ps[j].l4.srcPort, dstPort := ps[j].l4.dstPort)))
            && ((!(p.status == Ok && p.l3.present && p.l3.frag == FragLater)
                 || forall j: nat :: LastWriter(ps, p, hash, j) ==> !FirstOfSame(ps[j], p)) ==> s.p == p)
  {
    hide LastWriter, FirstOfSame, DatagramOf, Answer, DecodeFrame, HistoryOf;
    var front, r := rs[..|rs| - 1], rs[|rs| - 1];
    assert Inputs(rs)[..|rs| - 1] == Inputs(front);
    if i < |rs| - 1 {
      SeenAt(front, hash, i);
      assert front[..i] == rs[..i];
    } else {
      HistoryOfRecords(front);
      AnswerMeans(Decoded(front), DecodedRecord(r), hash);
    }
  }

  /** The count of later fragments that were given ports: it grows with a record exactly when the last
      first fragment recorded in its place is one of its own datagram. */
  lemma MatchCountMore(rs: seq<Record>, hash: DatagramHash)
    requires rs != []
    ensures var front, p := rs[..|rs| - 1], DecodeFrame(rs[|rs| - 1].data, rs[|rs| - 1].wirelen);
            MatchCount(Inputs(rs), hash) == MatchCount(Inputs(front), hash) +
              if p.status == Ok && p.l3.present && p.l3.frag == FragLater &&
                 exists j: nat :: LastWriter(Decoded(front), p, hash, j) && FirstOfSame(Decoded(front)[j], p)
              then 1 else 0
    ensures MatchCount(Inputs([]), hash) == 0
  {
    hide LastWriter, FirstOfSame, DatagramOf, Answer, DecodeFrame, HistoryOf;
    var front, r := rs[..|rs| - 1], rs[|rs| - 1];
    assert Inputs(rs)[..|rs| - 1] == Inputs(front);
    HistoryOfRecords(front);
    AnswerMeans(Decoded(front), DecodedRecord(r), hash);
  }

  // ----- Every packet of a run is well-formed -----

  lemma AttributedWellFormed(history: seq<FragEntry>, p: PacketInfo, hash: DatagramHash)
    requires WellFormed(p)
    ensures WellFormed(Attributed(history, p, hash))
  {
    hide Answer, GtpuShape;
  }

  lemma {:induction false} RunIsWellFormed(rs: seq<Record>, hash: DatagramHash)
    ensures AllWellFormed(Attribution(Inputs(rs), hash))
  {
    hide WellFormed;
    if rs != [] {
      var front, r := rs[..|rs| - 1], rs[|rs| - 1];
      RunIsWellFormed(front, hash);
      EveryFrameWellFormed(r.data, r.wirelen);
      AttributedWellFormed(FragHistory(Inputs(front)), DecodedRecord(r), hash);
      assert Inputs(rs)[..|rs| - 1] == Inputs(front);
    }
  }

  // ----- Conservation -----

  lemma FateOfOne(s: Seen)
    requires WellFormed(s.p)
    ensures 1 == Bump(Truncated, s.p) + Bump(Malformed, s.p) + Bump(NonIp, s.p)
                 + (if FlowEntryOf(s).Some? then 1 else 0)
    ensures FlowEntryOf(s).Some? ==> FlowEntryOf(s).value.wirelen == s.wirelen
  {
    hide Bump, WellFormed;
    OneFate(s.p);
  }

  /** The bytes of the packets that join no flow. */
  function ExcludedBytes(h: seq<Seen>): nat {
    if h == [] then 0
    else
      var s := h[|h| - 1];
      ExcludedBytes(h[..|h| - 1]) + if s.p.status.IsTruncation() || s.p.status.IsMalformation() || Counts(NonIp, s.p)
                                    then s.wirelen else 0
  }

  lemma ExcludedOrNot(s: Seen)
    requires WellFormed(s.p)
    ensures (s.p.status.IsTruncation() || s.p.status.IsMalformation() || Counts(NonIp, s.p)) <==> FlowEntryOf(s).None?
  {
    hide WellFormed;
    FateOfOne(s);
  }

  /** Every packet of the history is in exactly one flow or is non-IP, truncated or malformed, and
      the bytes split the same way. */
  lemma {:induction false} EveryPacketAccounted(h: seq<Seen>)
    requires AllWellFormed(h)
    ensures |h| == TotalOf(FlowEntries(h)).packets + Tally(NonIp, h) + Tally(Truncated, h) + Tally(Malformed, h)
    ensures WireBytes(h) == TotalOf(FlowEntries(h)).bytes + ExcludedBytes(h)
  {
    hide Tally, Bump, WellFormed, FlowEntryOf, Counts, DecodeStatus.IsTruncation, DecodeStatus.IsMalformation;
    NothingTallied();
    if h != [] {
      var front, s := h[..|h| - 1], h[|h| - 1];
      EveryPacketAccounted(front);
      TallyStep(h);
      FateOfOne(s);
      ExcludedOrNot(s);
      if FlowEntryOf(s).Some? {
        assert FlowEntries(h)[..|FlowEntries(front)|] == FlowEntries(front);
      }
    }
  }

  /** Over the flow table of any run in which no growth failed: the packets and bytes of all flows,
      with those of the excluded packets, are all packets and bytes. */
  lemma FlowConservation(h: seq<Seen>, keyHash: KeyHash)
    requires AllWellFormed(h)
    ensures var flows := Accounted(FlowEntries(h), keyHash);
            && |h| == SumPackets(flows) + Tally(NonIp, h) + Tally(Truncated, h) + Tally(Malformed, h)
            && WireBytes(h) == SumBytes(flows) + ExcludedBytes(h)
  {
    EveryPacketAccounted(h);
    TableConserves(FlowEntries(h), keyHash);
  }

  lemma GoodGpdu(s: Seen)
    requires WellFormed(s.p)
    ensures Bump(InGtp(GpduHeadersGood), s.p) == if TunnelEntryOf(s).Some? then 1 else 0
  {
    hide OuterShape;
  }

  lemma {:induction false} EveryGpduAccounted(h: seq<Seen>)
    requires AllWellFormed(h)
    ensures |TunnelEntries(h)| == Tally(InGtp(GpduHeadersGood), h)
  {
    hide Tally, Bump, WellFormed, TunnelEntryOf;
    NothingTallied();
    if h != [] {
      EveryGpduAccounted(h[..|h| - 1]);
      TallyStep(h);
      GoodGpdu(h[|h| - 1]);
    }
  }

  /** The packets of all tunnels are the G-PDUs, less those whose own headers failed. */
  lemma TunnelConservation(h: seq<Seen>, keyHash: KeyHash)
    requires AllWellFormed(h)
    ensures SumPackets(Accounted(TunnelEntries(h), keyHash)) + Tally(InGtp(GpduHeadersBad), h) == Tally(InGtp(Gpdu), h)
  {
    EveryGpduAccounted(h);
    GpdusPartition(h);
    TableConserves(TunnelEntries(h), keyHash);
  }

  /** Without the last packet, which has a flow, the flows hold one packet and its bytes less. */
  lemma FlowsButLast(h: seq<Seen>, keyHash: KeyHash)
    requires AllWellFormed(h) && h != [] && FlowEntryOf(h[|h| - 1]).Some?
    ensures var flows, last := Accounted(FlowEntries(h[..|h| - 1]), keyHash), h[|h| - 1];
            && |h| == SumPackets(flows) + 1 + Tally(NonIp, h) + Tally(Truncated, h) + Tally(Malformed, h)
            && WireBytes(h) == SumBytes(flows) + last.wirelen + ExcludedBytes(h)
  {
    hide Tally, WellFormed, FlowEntryOf, Accounted;
    var es, e := FlowEntries(h[..|h| - 1]), FlowEntryOf(h[|h| - 1]);
    EveryPacketAccounted(h);
    FateOfOne(h[|h| - 1]);
    TableConserves(es, keyHash);
    assert (es + [e.value])[..|es|] == es;
  }

  /** Without the last packet the tunnels hold it less, if it is in a tunnel. */
  lemma TunnelsButLast(h: seq<Seen>, keyHash: KeyHash)
    requires AllWellFormed(h) && h != []
    ensures var tunnels, last := Accounted(TunnelEntries(h[..|h| - 1]), keyHash), h[|h| - 1];
            SumPackets(tunnels) + (if TunnelEntryOf(last).Some? then 1 else 0) + Tally(InGtp(GpduHeadersBad), h)
            == Tally(InGtp(Gpdu), h)
  {
    hide Tally, WellFormed, TunnelEntryOf, Accounted;
    EveryGpduAccounted(h);
    GpdusPartition(h);
    TableConserves(TunnelEntries(h[..|h| - 1]), keyHash);
  }

  /** As the reader delivers them. */
  predicate FromReader(r: Record) {
    r.caplen == |r.data| && r.caplen <= r.wirelen
  }

  lemma {:induction false} ReaderDelivers(info: FileInfo, data: seq<byte>)
    ensures forall r :: r in ReadRecords(info, data).records ==> FromReader(r)
    decreases |data|
  {
    hide Timestamp, Rd32;
    var s := NextRecord(info, data);
    if s.Got? {
      ReaderDelivers(info, s.rest);
    }
  }

  lemma FileFromReader(file: seq<byte>)
    ensures forall r :: r in ReadFile(file).records ==> FromReader(r)
  {
    hide ParseMagic, Rd16, Rd32, ReadRecords;
    var g := ParseGlobalHeader(file[..Min(|file|, GLOBAL_HDR_LEN)]);
    if g.status == PcapOk && |file| >= GLOBAL_HDR_LEN {
      ReaderDelivers(g.info, file[GLOBAL_HDR_LEN..]);
    }
  }

  function SumOfWire(rs: seq<Record>): nat {
    if rs == [] then 0 else SumOfWire(rs[..|rs| - 1]) + rs[|rs| - 1].wirelen
  }

  function SumOfCaptured(rs: seq<Record>): nat {
    if rs == [] then 0 else SumOfCaptured(rs[..|rs| - 1]) + |rs[|rs| - 1].data|
  }

  /** Nothing is captured that was not on the wire, and in fewer than 2^32 records no counter of packets
      or bytes outgrows 64 bits. */
  lemma {:induction false} BytesBounded(rs: seq<Record>, hash: DatagramHash)
    requires forall r :: r in rs ==> FromReader(r)
    ensures var h := Attribution(Inputs(rs), hash);
            && CapturedBytes(h) <= WireBytes(h) <= |rs| * 0xFFFF_FFFF
            && WireBytes(h) == SumOfWire(rs) && CapturedBytes(h) == SumOfCaptured(rs)
  {
    if rs != [] {
      var front := rs[..|rs| - 1];
      BytesBounded(front, hash);
      assert Inputs(rs)[..|rs| - 1] == Inputs(front);
      var h := Attribution(Inputs(rs), hash);
      assert h[..|rs| - 1] == Attribution(Inputs(front), hash);
      assert rs[|rs| - 1] in rs;
    }
  }

  // ----- Cutting the records of a capture -----

  /** The record as a capture with a smaller snapshot length would hold it. */
  function CutRecord(r: Record, k: nat): (c: Record)
    ensures r.caplen == |r.data| ==> c.data == r.data[..Min(k, |r.data|)] && c.caplen == |c.data|
    ensures c.wirelen == r.wirelen && c.ts == r.ts
  {
    if k < |r.data| && k <= r.caplen then r.(data := r.data[..k], caplen := k) else r
  }

  function CutAll(rs: seq<Record>, ks: seq<nat>): (c: seq<Record>)
    requires |ks| == |rs|
    ensures |c| == |rs|
    ensures forall i :: 0 <= i < |rs| && rs[i].caplen == |rs[i].data| ==>
              && c[i].data == rs[i].data[..Min(ks[i], |rs[i].data|)] && c[i].caplen == |c[i].data|
              && c[i].wirelen == rs[i].wirelen && c[i].ts == rs[i].ts
  {
    if rs == [] then [] else CutAll(rs[..|rs| - 1], ks[..|rs| - 1]) + [CutRecord(rs[|rs| - 1], ks[|rs| - 1])]
  }

  /** How much of a record must be captured for its tunnel to be known. */
  function HeadersEnd(r: Record): nat {
    GtpuHeadersEnd(r.data, r.wirelen)
  }

  /** A record that joins a tunnel is not cut before the end of its GTP-U headers. */
  predicate KeepsHeaders(r: Record, k: nat) {
    TunnelEntryOf(InputOf(r)).Some? ==> HeadersEnd(r) <= k
  }

  /** Attribution concerns later fragments, and those are in no tunnel. */
  lemma AttributionKeepsTunnels(history: seq<FragEntry>, s: Seen, hash: DatagramHash)
    requires WellFormed(s.p)
    ensures TunnelEntryOf(s.(p := Attributed(history, s.p, hash))) == TunnelEntryOf(s)
  {
    hide OuterShape, GtpuShape, Answer;
  }

  function RawTunnelEntries(rs: seq<Record>): seq<Entry> {
    if rs == [] then []
    else
      var e := TunnelEntryOf(InputOf(rs[|rs| - 1]));
      if e.Some? then RawTunnelEntries(rs[..|rs| - 1]) + [e.value] else RawTunnelEntries(rs[..|rs| - 1])
  }

  lemma {:induction false} TunnelsNeedNoAttribution(rs: seq<Record>, hash: DatagramHash)
    ensures TunnelEntries(Attribution(Inputs(rs), hash)) == RawTunnelEntries(rs)
  {
    hide TunnelEntryOf;
    if rs != [] {
      var front, r := rs[..|rs| - 1], rs[|rs| - 1];
      TunnelsNeedNoAttribution(front, hash);
      EveryFrameWellFormed(r.data, r.wirelen);
      AttributionKeepsTunnels(FragHistory(Inputs(front)), InputOf(r), hash);
      assert Inputs(rs)[..|rs| - 1] == Inputs(front);
      var h := Attribution(Inputs(rs), hash);
      assert h[..|h| - 1] == Attribution(Inputs(front), hash);
    }
  }

  /** Cutting one record either loses its tunnel entry or keeps it as it was, and keeps it exactly
      when its GTP-U headers are still there. */
  lemma CutKeepsOrLoses(r: Record, k: nat)
    requires FromReader(r)
    ensures var a, b := TunnelEntryOf(InputOf(CutRecord(r, k))), TunnelEntryOf(InputOf(r));
            && (a.Some? ==> a == b)
            && (b.Some? ==> (a.Some? <==> HeadersEnd(r) <= k))
  {
    hide DecodeFrame, GtpuHeadersEnd;
    if k < |r.data| {
      SnapshotTunnel(r.data, r.wirelen, k);
    } else {
      HeadersEndWithin(r);
    }
  }

  lemma HeadersEndWithin(r: Record)
    requires FromReader(r)
    ensures TunnelEntryOf(InputOf(r)).Some? ==> HeadersEnd(r) <= |r.data|
  {
    hide DecodeOuter, DecodeGtpu;
    SnapshotTunnel(r.data, r.wirelen, |r.data|);
    assert r.data[..|r.data|] == r.data;
  }

  /** Cutting the records of a capture, those of tunnels anywhere behind their GTP-U headers and the others
      anywhere at all, leaves the tunnel table as it was, whatever happens to the user packets. */
  lemma {:induction false} CutBehindHeadersKeepsTunnels(rs: seq<Record>, ks: seq<nat>, hash: DatagramHash)
    requires |ks| == |rs| && forall i :: 0 <= i < |rs| ==> FromReader(rs[i]) && KeepsHeaders(rs[i], ks[i])
    ensures TunnelEntries(Attribution(Inputs(CutAll(rs, ks)), hash)) == TunnelEntries(Attribution(Inputs(rs), hash))
  {
    hide Attribution, TunnelEntries, KeepsHeaders;
    TunnelsNeedNoAttribution(rs, hash);
    TunnelsNeedNoAttribution(CutAll(rs, ks), hash);
    CutKeepsRaw(rs, ks);
  }

  lemma {:induction false} CutKeepsRaw(rs: seq<Record>, ks: seq<nat>)
    requires |ks| == |rs| && forall i :: 0 <= i < |rs| ==> FromReader(rs[i]) && KeepsHeaders(rs[i], ks[i])
    ensures RawTunnelEntries(CutAll(rs, ks)) == RawTunnelEntries(rs)
  {
    hide TunnelEntryOf, HeadersEnd, CutRecord, InputOf;
    if rs != [] {
      var n := |rs| - 1;
      CutKeepsRaw(rs[..n], ks[..n]);
      CutKeepsOrLoses(rs[n], ks[n]);
      assert CutAll(rs, ks)[..n] == CutAll(rs[..n], ks[..n]);
    }
  }

  /** What is left of a history when some of its packets are missing. */
  ghost predicate Sub(a: seq<Entry>, b: seq<Entry>) {
    if b == [] then a == []
    else Sub(a, b[..|b| - 1]) || (a != [] && a[|a| - 1] == b[|b| - 1] && Sub(a[..|a| - 1], b[..|b| - 1]))
  }

  /** However short the cuts, packets can only disappear from the tunnels. */
  lemma {:induction false} CutOnlyRemoves(rs: seq<Record>, ks: seq<nat>)
    requires |ks| == |rs| && forall i :: 0 <= i < |rs| ==> FromReader(rs[i])
    ensures Sub(RawTunnelEntries(CutAll(rs, ks)), RawTunnelEntries(rs))
  {
    hide TunnelEntryOf, CutRecord, InputOf;
    if rs != [] {
      var n := |rs| - 1;
      CutOnlyRemoves(rs[..n], ks[..n]);
      CutKeepsOrLoses(rs[n], ks[n]);
      assert CutAll(rs, ks)[..n] == CutAll(rs[..n], ks[..n]);
      var a, b := RawTunnelEntries(CutAll(rs, ks)), RawTunnelEntries(rs);
      var e := TunnelEntryOf(InputOf(rs[n]));
      if e.Some? {
        assert b[..|b| - 1] == RawTunnelEntries(rs[..n]);
        if TunnelEntryOf(InputOf(CutRecord(rs[n], ks[n]))).Some? {
          assert a[..|a| - 1] == RawTunnelEntries(CutAll(rs[..n], ks[..n]));
        }
      }
    }
  }

  lemma {:induction false} SubOf(a: seq<Entry>, b: seq<Entry>, k: FlowKey)
    requires Sub(a, b)
    ensures Sub(Of(a, k), Of(b, k))
    decreases |b|
  {
    if b != [] {
      var b' := b[..|b| - 1];
      if Sub(a, b') {
        SubOf(a, b', k);
        if b[|b| - 1].key == k {
          assert Of(b, k)[..|Of(b, k)| - 1] == Of(b', k);
        }
      } else {
        SubOf(a[..|a| - 1], b', k);
        if b[|b| - 1].key == k {
          assert Of(b, k)[..|Of(b, k)| - 1] == Of(b', k);
          assert Of(a, k)[..|Of(a, k)| - 1] == Of(a[..|a| - 1], k);
        }
      }
    }
  }

  lemma {:induction false} SubTotals(a: seq<Entry>, b: seq<Entry>)
    requires Sub(a, b)
    ensures TotalOf(a).packets <= TotalOf(b).packets && TotalOf(a).bytes <= TotalOf(b).bytes
    ensures forall e :: e in a ==> e in b
    decreases |b|
  {
    if b != [] {
      var b' := b[..|b| - 1];
      assert b == b' + [b[|b| - 1]];
      if Sub(a, b') {
        SubTotals(a, b');
      } else {
        SubTotals(a[..|a| - 1], b');
        assert a == a[..|a| - 1] + [a[|a| - 1]];
      }
    }
  }

  /** A history with packets missing has no new entries, and each entry counts no more packets and
      bytes over no longer a time. */
  lemma FewerPacketsSmallerTable(a: seq<Entry>, b: seq<Entry>, keyHash: KeyHash, k: FlowKey)
    requires Sub(a, b) && k in Accounted(a, keyHash)
    ensures k in Accounted(b, keyHash)
    ensures var f, g := Accounted(a, keyHash)[k], Accounted(b, keyHash)[k];
            f.packets <= g.packets && f.bytes <= g.bytes && g.firstTs <= f.firstTs && f.lastTs <= g.lastTs
  {
    hide Accounted, Of, TotalOf, Sub;
    TableSummarizes(a, keyHash, k);
    TableSummarizes(b, keyHash, k);
    SubOf(a, b, k);
    SubTotals(Of(a, k), Of(b, k));
    assert Of(a, k)[0] in Of(a, k);
  }

  /** Any shorter cut only removes packets from tunnels: it adds no tunnel and changes no key. */
  lemma AnyCutOnlyShrinksTunnels(rs: seq<Record>, ks: seq<nat>, hash: DatagramHash, keyHash: KeyHash, k: FlowKey)
    requires |ks| == |rs| && forall i :: 0 <= i < |rs| ==> FromReader(rs[i])
    requires k in Accounted(TunnelEntries(Attribution(Inputs(CutAll(rs, ks)), hash)), keyHash)
    ensures k in Accounted(TunnelEntries(Attribution(Inputs(rs), hash)), keyHash)
    ensures var f := Accounted(TunnelEntries(Attribution(Inputs(CutAll(rs, ks)), hash)), keyHash)[k];
            var g := Accounted(TunnelEntries(Attribution(Inputs(rs), hash)), keyHash)[k];
            f.packets <= g.packets && f.bytes <= g.bytes && g.firstTs <= f.firstTs && f.lastTs <= g.lastTs
  {
    hide Accounted, Attribution, TunnelEntries, Sub;
    TunnelsNeedNoAttribution(rs, hash);
    TunnelsNeedNoAttribution(CutAll(rs, ks), hash);
    CutOnlyRemoves(rs, ks);
    FewerPacketsSmallerTable(RawTunnelEntries(CutAll(rs, ks)), RawTunnelEntries(rs), keyHash, k);
  }
}
