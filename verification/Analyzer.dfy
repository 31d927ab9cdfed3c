/** The analysis of src/analyze.c run in place: counters, fragment cache and both tables are updated
    packet by packet, and proved to hold what Pipeline.dfy says of the records. */
module Analyzer {
  import opened Accounting
  import opened Bits
  import opened Bytes
  import opened CaptureFormat
  import opened CaptureReader
  import opened Collections
  import opened Counting
  import opened Decoder
  import opened FlowKeys
  import opened FlowTables
  import opened FragCaches
  import opened Packet
  import opened Pipeline
  import opened Stats

  const INITIAL_FLOW_SLOTS: nat := 1024
  const INITIAL_TUNNEL_SLOTS: nat := 64

  class Analysis {
    const stats: Stats
    const flows: FlowTable
    const tunnels: FlowTable
    const frags: FragCache

    /** The packets accounted so far, before attribution, and the entries that reached the tables. */
    ghost var inputs: seq<Input>
    ghost var flowEntries: seq<Entry>
    ghost var tunnelEntries: seq<Entry>

    ghost function History(): seq<Seen>
      reads this`inputs
    {
      Attribution(inputs, frags.hash)
    }

    /** The counters and the cache describe the packets accounted so far. */
    ghost predicate CountsValid()
      reads this`inputs, stats, stats.byStatus, stats.gtpu, stats.gtpu.byStatus, frags, frags.slots
    {
      && stats.byStatus != stats.gtpu.byStatus
      && stats.Describes(History()) && stats.fragMatched == MatchCount(inputs, frags.hash)
      && frags.Valid() && frags.history == FragHistory(inputs)
    }

    /** The tables stand for the entries that reached them. */
    ghost predicate TablesValid()
      reads this`flowEntries, this`tunnelEntries, flows, flows.slots, tunnels, tunnels.slots
    {
      && flows != tunnels && flows.slots != tunnels.slots
      && flows.Valid() && flows.slots.Length != 0 && flows.Map() == Accounted(flowEntries, flows.keyHash)
      && tunnels.Valid() && tunnels.slots.Length != 0 && tunnels.Map() == Accounted(tunnelEntries, tunnels.keyHash)
    }

    ghost predicate Valid()
      reads this, stats, stats.byStatus, stats.gtpu, stats.gtpu.byStatus
      reads flows, flows.slots, tunnels, tunnels.slots, frags, frags.slots
    {
      CountsValid() && TablesValid()
    }

    /** Both tables hold every packet they should: the state of every run in which no growth failed. */
    ghost predicate InStep()
      reads this
    {
      flowEntries == FlowEntries(History()) && tunnelEntries == TunnelEntries(History())
    }

    /** The state a failed growth leaves behind: the last packet is counted, but missing from its
        tunnel or, if the flow table failed, from its flow and its tunnel. */
    ghost predicate LastMissing()
      reads this
    {
      var h := History();
      && h != []
      && tunnelEntries == TunnelEntries(h[..|h| - 1])
      && ((flowEntries == FlowEntries(h[..|h| - 1]) && FlowEntryOf(h[|h| - 1]).Some?)
          || (flowEntries == FlowEntries(h) && TunnelEntryOf(h[|h| - 1]).Some?))
    }

    constructor (keyHash: KeyHash, datagramHash: DatagramHash)
      ensures Valid() && InStep() && inputs == []
      ensures flows.keyHash == keyHash && tunnels.keyHash == keyHash && frags.hash == datagramHash
      ensures flows.slots.Length == 1024 && tunnels.slots.Length == 64
      ensures fresh(stats) && fresh(stats.byStatus) && fresh(stats.gtpu) && fresh(stats.gtpu.byStatus)
      ensures fresh(flows) && fresh(flows.slots) && fresh(tunnels) && fresh(tunnels.slots)
      ensures fresh(frags) && fresh(frags.slots)
    {
      hide Stats.Describes, FragCache.Valid, FlowTable.Valid, FlowTable.Map, LeastCapacity, Attribution, FragHistory,
        MatchCount, FlowEntries, TunnelEntries, Accounted;
      NothingYet(keyHash, datagramHash);
      stats := new Stats();
      flows := new FlowTable(keyHash, INITIAL_FLOW_SLOTS, true);
      tunnels := new FlowTable(keyHash, INITIAL_TUNNEL_SLOTS, true);
      frags := new FragCache(datagramHash);
      inputs, flowEntries, tunnelEntries := [], [], [];
      new;
      StartingSizes(flows.slots.Length, tunnels.slots.Length);
    }

    /** The packet as it will be counted. */
    ghost function Next(i: Input): Seen
      reads this`inputs
    {
      i.(p := Attributed(FragHistory(inputs), i.p, frags.hash))
    }

    /** Attributes a later fragment and updates the counters. */
    method Count(i: Input) returns (s: Seen)
      requires CountsValid()
      modifies this`inputs, stats, stats.byStatus, stats.gtpu, stats.gtpu.byStatus
      modifies frags`history, frags`packets, frags.slots
      ensures CountsValid() && inputs == old(inputs) + [i] && s == old(Next(i))
      ensures History() == old(History()) + [s]
    {
      hide Stats.Describes, FragCache.Valid, Recorded, Attributed, PortsExplained, Answer, Attribution, FragHistory,
        MatchCount;
      InputCounts(inputs, i, frags.hash);
      var matched, q := frags.Apply(i.p);
      if matched {
        stats.fragMatched := stats.fragMatched + 1;
      }
      s := i.(p := q);
      stats.Add(s, History());
      inputs := inputs + [i];
    }

    /** Adds the packet to its flow, unless it did not decode cleanly. */
    method JoinFlow(s: Seen, allocOk: bool) returns (ok: bool)
      requires TablesValid()
      modifies this`flowEntries, flows, flows.slots
      ensures TablesValid() && (flows.slots == old(flows.slots) || fresh(flows.slots))
      ensures ok ==> flowEntries == old(flowEntries) + Listed(FlowEntryOf(s))
      ensures !ok ==> flowEntries == old(flowEntries) && FlowEntryOf(s).Some?
    {
      hide FlowTable.Valid, FlowTable.Map, AddEntry;
      if s.p.status != Ok {
        return true;
      }
      ok := flows.AddPacket(s.p, s.wirelen, s.ts, allocOk);
      ghost var e := FlowEntry(s.p, s.wirelen, s.ts);
      if ok && e.Some? {
        AccountedMore(flowEntries, e.value, flows.keyHash);
        flowEntries := flowEntries + [e.value];
      }
    }

    /** Adds a G-PDU whose headers were read in full to its tunnel. */
    method JoinTunnel(s: Seen, allocOk: bool) returns (ok: bool)
      requires TablesValid() && s.p.status == Ok
      modifies this`tunnelEntries, tunnels, tunnels.slots
      ensures TablesValid() && (tunnels.slots == old(tunnels.slots) || fresh(tunnels.slots))
      ensures ok ==> tunnelEntries == old(tunnelEntries) + Listed(TunnelEntryOf(s))
      ensures !ok ==> tunnelEntries == old(tunnelEntries) && TunnelEntryOf(s).Some?
    {
      hide FlowTable.Valid, FlowTable.Map, AddEntry;
      if !s.p.gtp.isGtpu || !s.p.gtp.v1u || !s.p.gtp.msgOk || s.p.gtp.msgType != GTPU_MSG_GPDU {
        return true;
      }
      ok := tunnels.AddTunnel(s.p, s.wirelen, s.ts, allocOk);
      ghost var e := TunnelEntry(s.p, s.wirelen, s.ts);
      if ok && e.Some? {
        AccountedMore(tunnelEntries, e.value, tunnels.keyHash);
        tunnelEntries := tunnelEntries + [e.value];
      }
    }

    /** Accounts one decoded packet. */
    method Account(i: Input, flowAlloc: bool, tunnelAlloc: bool) returns (ok: bool)
      requires Valid()
      modifies this`inputs, this`flowEntries, this`tunnelEntries
      modifies stats, stats.byStatus, stats.gtpu, stats.gtpu.byStatus, frags`history, frags`packets, frags.slots
      modifies flows, flows.slots, tunnels, tunnels.slots
      ensures Valid() && inputs == old(inputs) + [i]
      ensures flows.slots == old(flows.slots) || fresh(flows.slots)
      ensures tunnels.slots == old(tunnels.slots) || fresh(tunnels.slots)
      ensures ok && old(InStep()) ==> InStep()
      ensures !ok && old(InStep()) ==> LastMissing()
    {
      hide CountsValid, TablesValid, FlowEntryOf, TunnelEntryOf, Attribution, Attributed;
      ghost var before := History();
      var s := Count(i);
      assert History()[..|History()| - 1] == before;
      EntriesGrow(before, s);
      if s.p.status != Ok {
        NoEntries(s);
        return true;
      }
      ok := JoinFlow(s, flowAlloc);
      if !ok {
        return;
      }
      ok := JoinTunnel(s, tunnelAlloc);
    }

    /** Reads, decodes and accounts every record. `rs` are the records accounted: all of them or, if
        a table could not grow, those up to and including the one that was lost. */
    method Run(r: Reader, flowAlloc: nat -> bool, tunnelAlloc: nat -> bool)
      returns (st: PcapStatus, ghost rs: seq<Record>)
      requires Valid() && InStep() && r.Valid() && r.error != ErrNomem
      modifies this`inputs, this`flowEntries, this`tunnelEntries
      modifies stats, stats.byStatus, stats.gtpu, stats.gtpu.byStatus, frags`history, frags`packets, frags.slots
      modifies flows, flows.slots, tunnels, tunnels.slots, r`memPos, r`records, r`error
      ensures Valid() && inputs == old(inputs) + Inputs(rs)
      ensures st != ErrNomem ==> InStep() && Capture(rs, st) == old(r.Remaining())
      ensures st == ErrNomem ==> LastMissing() && rs != [] && rs <= old(r.Remaining()).records
    {
      hide Analysis.Valid, Analysis.InStep, Analysis.LastMissing, Inputs, Reader.Remaining, Reading;
      var pi := new PacketRecord();
      rs := [];
      NoInputs();
      var rec: Record, start: nat;
      ghost var all := r.Remaining();
      assert [] + all.records == all.records;
      st, rec, start := Fetch(r, rs, all);
      while st == PcapOk
        invariant Valid() && InStep() && Reading(r, st, rec, start, rs, all)
        invariant flows.slots == old(flows.slots) || fresh(flows.slots)
        invariant tunnels.slots == old(tunnels.slots) || fresh(tunnels.slots)
        invariant inputs == old(inputs) + Inputs(rs)
        decreases r.memLen - r.memPos, r.error == PcapOk
      {
        InputsMore(rs, rec);
        ReadingGoesOn(r, st, rec, start, rs, all);
        var ok := AccountRecord(r.mem, rec, start, pi, flowAlloc(r.records), tunnelAlloc(r.records));
        rs := rs + [rec];
        if !ok {
          return ErrNomem, rs;
        }
        st, rec, start := Fetch(r, rs, all);
      }
      ReadingDone(r, st, rec, start, rs, all);
    }

    /** One turn of the loop: decode the bytes in the buffer, then account the packet. */
    method AccountRecord(mem: array<byte>, rec: Record, start: nat, pi: PacketRecord, flowAlloc: bool,
                         tunnelAlloc: bool)
      returns (ok: bool)
      requires Valid() && InStep()
      requires start + rec.caplen <= mem.Length && rec.data == mem[start..start + rec.caplen]
      modifies this`inputs, this`flowEntries, this`tunnelEntries, pi
      modifies stats, stats.byStatus, stats.gtpu, stats.gtpu.byStatus, frags`history, frags`packets, frags.slots
      modifies flows, flows.slots, tunnels, tunnels.slots
      ensures Valid() && inputs == old(inputs) + [InputOf(rec)]
      ensures flows.slots == old(flows.slots) || fresh(flows.slots)
      ensures tunnels.slots == old(tunnels.slots) || fresh(tunnels.slots)
      ensures if ok then InStep() else LastMissing()
    {
      hide Analysis.Valid, Analysis.InStep, Analysis.LastMissing;
      var st := DecodeFrame(mem, start, rec.caplen, rec.wirelen, pi);
      ok := Account(Seen(pi.Info(), rec.caplen, rec.wirelen, rec.ts), flowAlloc, tunnelAlloc);
    }

    /** The equations between counters and tables when `missedFlow` packets with `missedBytes` bytes are
        missing from the flows and `missedTunnel` packets from the tunnels. */
    ghost predicate Conserves(missedFlow: nat, missedBytes: nat, missedTunnel: nat)
      requires TablesValid()
      reads this, stats, stats.byStatus, stats.gtpu, stats.gtpu.byStatus, flows, flows.slots, tunnels, tunnels.slots
    {
      && stats.Balanced()
      && stats.packets == SumPackets(flows.Map()) + missedFlow + stats.nonIp + stats.truncated + stats.malformed
      && stats.wireBytes == SumBytes(flows.Map()) + missedBytes + ExcludedBytes(History())
      && stats.capturedBytes <= stats.wireBytes
      && SumPackets(tunnels.Map()) + missedTunnel + Tally(InGtp(GpduHeadersBad), History()) == stats.gtpu.gpdu
      && stats.gtpu.gpdu - SumPackets(tunnels.Map()) - missedTunnel
         <= (stats.gtpu.truncated - stats.gtpu.userTruncated) + (stats.gtpu.malformed - stats.gtpu.userMalformed)
    }

    /** The laws of the counters alone, of any run. */
    lemma CountersConserved(rs: seq<Record>)
      requires CountsValid() && inputs == Inputs(rs) && forall r :: r in rs ==> FromReader(r)
      ensures stats.packets == |rs| == |History()| && stats.wireBytes == WireBytes(History())
      ensures stats.wireBytes == SumOfWire(rs) && stats.capturedBytes == SumOfCaptured(rs)
      ensures stats.nonIp == Tally(NonIp, History())
      ensures stats.truncated == Tally(Truncated, History()) && stats.malformed == Tally(Malformed, History())
      ensures AllWellFormed(History()) && stats.Balanced() && stats.capturedBytes <= stats.wireBytes
      ensures stats.gtpu.gpdu == Tally(InGtp(Gpdu), History())
      ensures Tally(InGtp(GpduHeadersBad), History())
              <= (stats.gtpu.truncated - stats.gtpu.userTruncated) + (stats.gtpu.malformed - stats.gtpu.userMalformed)
    {
      hide FragCache.Valid, Tally, Attribution, AllWellFormed, Stats.Balanced, WireBytes, CapturedBytes;
      var h := History();
      RunIsWellFormed(rs, frags.hash);
      stats.DescribedIsBalanced(h);
      BytesBounded(rs, frags.hash);
      GpdusPartition(h);
    }

    /** Counters and tables are those of the records `rs`, and the equations hold over the fields. */
    ghost predicate Accounts(rs: seq<Record>)
      reads this, stats, stats.byStatus, stats.gtpu, stats.gtpu.byStatus
      reads flows, flows.slots, tunnels, tunnels.slots, frags, frags.slots
    {
      && Valid() && inputs == Inputs(rs) && stats.packets == |rs| && Conserves(0, 0, 0)
      && stats.wireBytes == SumOfWire(rs) && stats.capturedBytes == SumOfCaptured(rs)
      && flows.Map() == Accounted(FlowEntries(Attribution(Inputs(rs), frags.hash)), flows.keyHash)
      && tunnels.Map() == Accounted(TunnelEntries(Attribution(Inputs(rs), frags.hash)), tunnels.keyHash)
    }

    /** The same, but for the last packet: it is missing from its tunnel, or from its flow and, if it has
        one, its tunnel, and the equations are off by it and no more. */
    ghost predicate AccountsButLast(rs: seq<Record>)
      reads this, stats, stats.byStatus, stats.gtpu, stats.gtpu.byStatus
      reads flows, flows.slots, tunnels, tunnels.slots, frags, frags.slots
    {
      && Valid() && inputs == Inputs(rs) && stats.packets == |rs| > 0
      && var last := History()[|rs| - 1];
         || (TunnelEntryOf(last).Some? && Conserves(0, 0, 1))
         || (FlowEntryOf(last).Some? && Conserves(1, last.wirelen, if TunnelEntryOf(last).Some? then 1 else 0))
    }

    /** The laws of a finished run, in terms of the counters and the tables themselves. */
    lemma Conserved(rs: seq<Record>)
      requires Valid() && InStep() && inputs == Inputs(rs) && forall r :: r in rs ==> FromReader(r)
      ensures Accounts(rs)
    {
      hide FlowTable.Valid, FlowTable.Map, FragCache.Valid, Tally, Accounted, Attribution, AllWellFormed,
        Stats.Balanced, Stats.Describes;
      var h := History();
      CountersConserved(rs);
      FlowConservation(h, flows.keyHash);
      TunnelConservation(h, tunnels.keyHash);
    }

    /** The laws of a run in which a growth failed. */
    lemma ConservedButOne(rs: seq<Record>)
      requires Valid() && LastMissing() && inputs == Inputs(rs) && forall r :: r in rs ==> FromReader(r)
      ensures AccountsButLast(rs)
    {
      hide FlowTable.Valid, FlowTable.Map, FragCache.Valid, Tally, Accounted, Attribution, AllWellFormed, FlowEntryOf,
        TunnelEntryOf, FlowEntries, TunnelEntries, ExcludedBytes, Stats.Balanced, Stats.Describes;
      var h := History();
      CountersConserved(rs);
      TunnelsButLast(h, tunnels.keyHash);
      if flowEntries == FlowEntries(h[..|h| - 1]) && FlowEntryOf(h[|h| - 1]).Some? {
        FlowsButLast(h, flows.keyHash);
      } else {
        FlowConservation(h, flows.keyHash);
      }
    }
  }

  /** From the bytes of a file to the equations: what is in the file is what is counted, every packet is
      in its flow and its tunnel, and if memory runs out only the last packet is missing. */
  method AnalyzeCapture(data: array<byte>, len: nat, keyHash: KeyHash, datagramHash: DatagramHash,
                        flowAlloc: nat -> bool, tunnelAlloc: nat -> bool)
    returns (a: Analysis, st: PcapStatus, ghost rs: seq<Record>)
    requires len <= data.Length
    ensures a.flows.keyHash == keyHash && a.tunnels.keyHash == keyHash && a.frags.hash == datagramHash
    ensures st != ErrNomem ==> Capture(rs, st) == ReadFile(data[..len]) && a.Accounts(rs)
    ensures st == ErrNomem ==> rs <= ReadFile(data[..len]).records && a.AccountsButLast(rs)
  {
    hide Analysis.Valid, Analysis.InStep, Analysis.LastMissing, Analysis.Accounts, Analysis.AccountsButLast, ReadFile,
      Inputs, Reader.Rest, ReadRecords;
    var r := new Reader(data, len);
    a := new Analysis(keyHash, datagramHash);
    ghost var file := ReadFile(data[..len]);
    assert r.Remaining() == file;
    FileFromReader(data[..len]);
    NoInputs();
    if r.error != PcapOk {
      assert r.Remaining() == file;
      rs := [];
      a.Conserved(rs);
      return a, r.error, rs;
    }
    assert r.Remaining() == file;
    st, rs := a.Run(r, flowAlloc, tunnelAlloc);
    assert [] + Inputs(rs) == Inputs(rs);
    if st != ErrNomem {
      a.Conserved(rs);
    } else {
      a.ConservedButOne(rs);
    }
  }

  /** The state of the reading loop: `rs` have been handled, and then `rec` was read, or `st` says why
      there is no more; `all` is what the file had to say. */
  ghost predicate Reading(r: Reader, st: PcapStatus, rec: Record, start: nat, rs: seq<Record>, all: Capture)
    reads r, r.mem
  {
    && r.Valid() && st == r.error && st != ErrNomem
    && (st == PcapOk ==> start + rec.caplen <= r.mem.Length && rec.data == r.mem[start..start + rec.caplen])
    && all == if st == PcapOk then Capture(rs + ([rec] + r.Remaining().records), r.Remaining().status)
              else Capture(rs, st)
  }

  method Fetch(r: Reader, ghost rs: seq<Record>, ghost all: Capture) returns (st: PcapStatus, rec: Record, start: nat)
    requires r.Valid() && r.error != ErrNomem
    requires all == Capture(rs + r.Remaining().records, r.Remaining().status)
    modifies r`memPos, r`records, r`error
    ensures Reading(r, st, rec, start, rs, all)
    ensures r.memPos >= old(r.memPos) && (st == PcapOk ==> r.memPos > old(r.memPos)) && r.error == st
  {
    hide Reader.Remaining, NextRecord, Reader.Rest;
    st, rec, start := r.Next();
    assert rs + [] == rs;
  }

  lemma ReadingGoesOn(r: Reader, st: PcapStatus, rec: Record, start: nat, rs: seq<Record>, all: Capture)
    requires Reading(r, st, rec, start, rs, all) && st == PcapOk
    ensures r.Valid() && r.error == PcapOk && start + rec.caplen <= r.mem.Length
    ensures rec.data == r.mem[start..start + rec.caplen]
    ensures all == Capture((rs + [rec]) + r.Remaining().records, r.Remaining().status)
    ensures rs + [rec] <= all.records
  {
    hide Reader.Remaining;
    Assoc(rs, [rec], r.Remaining().records);
  }

  lemma ReadingDone(r: Reader, st: PcapStatus, rec: Record, start: nat, rs: seq<Record>, all: Capture)
    requires Reading(r, st, rec, start, rs, all) && st != PcapOk
    ensures st != ErrNomem && all == Capture(rs, st)
  {
  }

  lemma StartingSizes(n: nat, m: nat)
    ensures LeastCapacity(n, INITIAL_FLOW_SLOTS) ==> n == 1024
    ensures LeastCapacity(m, INITIAL_TUNNEL_SLOTS) ==> m == 64
  {
    assert Pow2(6) == 64 && Pow2(10) == 1024;
    if LeastCapacity(n, INITIAL_FLOW_SLOTS) {
      LeastIs(n, INITIAL_FLOW_SLOTS);
    }
    if LeastCapacity(m, INITIAL_TUNNEL_SLOTS) {
      LeastIs(m, INITIAL_TUNNEL_SLOTS);
    }
  }

  lemma NothingYet(keyHash: KeyHash, hash: DatagramHash)
    ensures Attribution([], hash) == [] && FragHistory([]) == [] && MatchCount([], hash) == 0
    ensures FlowEntries([]) == [] && TunnelEntries([]) == [] && Accounted([], keyHash) == map[]
  {
  }

  lemma NoInputs()
    ensures Inputs([]) == []
  {
  }

  lemma InputCounts(ins: seq<Input>, i: Input, hash: DatagramHash)
    ensures Attribution(ins + [i], hash) == Attribution(ins, hash) + [i.(p := Attributed(FragHistory(ins), i.p, hash))]
    ensures FragHistory(ins + [i]) == Recorded(FragHistory(ins), i.p)
    ensures MatchCount(ins + [i], hash) == MatchCount(ins, hash) +
              if Asks(i.p) && Answer(FragHistory(ins), DatagramOf(i.p), hash).Some? then 1 else 0
  {
    assert (ins + [i])[..|ins|] == ins;
  }

  lemma InputsMore(rs: seq<Record>, r: Record)
    ensures Inputs(rs + [r]) == Inputs(rs) + [InputOf(r)]
  {
    assert (rs + [r])[..|rs|] == rs;
  }

  lemma NoEntries(s: Seen)
    requires s.p.status != Ok
    ensures FlowEntryOf(s).None? && TunnelEntryOf(s).None?
  {
  }

  lemma EntriesGrow(h: seq<Seen>, s: Seen)
    ensures FlowEntries(h + [s]) == FlowEntries(h) + Listed(FlowEntryOf(s))
    ensures TunnelEntries(h + [s]) == TunnelEntries(h) + Listed(TunnelEntryOf(s))
  {
    hide FlowEntryOf, TunnelEntryOf;
    assert (h + [s])[..|h|] == h;
  }

  function Listed<T>(o: Option<T>): seq<T> {
    if o.Some? then [o.value] else []
  }

  lemma AccountedMore(es: seq<Entry>, e: Entry, keyHash: KeyHash)
    ensures Accounted(es + [e], keyHash) == AddEntry(Accounted(es, keyHash), e, keyHash)
  {
    assert (es + [e])[..|es|] == es;
  }
}
