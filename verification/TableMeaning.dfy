/** What the two tables hold, in terms of the packets themselves: which packets make up a flow or a
    tunnel, and what each field of its entry says about them. */
module TableMeaning {
  import opened Accounting
  import opened Bits
  import opened Bytes
  import opened Counting
  import opened FlowKeys
  import opened Packet
  import opened Pipeline

  // ----- Flows -----

  /** A cleanly decoded packet of the flow, sent by endpoint A. */
  ghost predicate FromA(s: Seen, k: FlowKey) {
    && s.p.status == Ok && s.p.l3.present
    && k.teid == 0 && k.version == s.p.l3.version && k.proto == s.p.l3.proto
    && k.addrA == s.p.l3.src && k.portA == s.p.l4.srcPort && k.addrB == s.p.l3.dst && k.portB == s.p.l4.dstPort
  }

  /** A cleanly decoded packet of the flow, sent by endpoint B. */
  ghost predicate FromB(s: Seen, k: FlowKey) {
    && s.p.status == Ok && s.p.l3.present
    && k.teid == 0 && k.version == s.p.l3.version && k.proto == s.p.l3.proto
    && k.addrB == s.p.l3.src && k.portB == s.p.l4.srcPort && k.addrA == s.p.l3.dst && k.portA == s.p.l4.dstPort
  }

  /** Endpoint A is the one with the smaller address, byte by byte, or the smaller port. */
  ghost predicate Canonical(k: FlowKey) {
    if k.addrA == k.addrB then k.portA <= k.portB
    else exists i :: 0 <= i < 16 && FirstDifference(k.addrA, k.addrB, i) && k.addrA[i] < k.addrB[i]
  }

  /** The packets of a flow, in the order in which they came. */
  ghost function PacketsOf(h: seq<Seen>, k: FlowKey): seq<Seen> {
    if h == [] then []
    else
      var s := h[|h| - 1];
      PacketsOf(h[..|h| - 1], k) + if Canonical(k) && (FromA(s, k) || FromB(s, k)) then [s] else []
  }

  /** The canonical form is the one whose first address, or first port, is not the greater. */
  lemma CanonicalIff(k: FlowKey)
    ensures Canonical(k) <==>
            LexCmp(k.addrA, k.addrB) < 0 || (LexCmp(k.addrA, k.addrB) == 0 && k.portA <= k.portB)
  {
    LexZero(k.addrA, k.addrB);
    if k.addrA != k.addrB {
      var i := LexFirst(k.addrA, k.addrB);
      if Canonical(k) {
        var j :| 0 <= j < 16 && FirstDifference(k.addrA, k.addrB, j) && k.addrA[j] < k.addrB[j];
        OneFirstDifference(k.addrA, k.addrB, i, j);
      }
    }
  }

  /** What one packet adds to the flow table. */
  lemma FlowEntryMeans(s: Seen, k: FlowKey)
    ensures var e := FlowEntryOf(s);
            && ((e.Some? && e.value.key == k) <==> Canonical(k) && (FromA(s, k) || FromB(s, k)))
            && (e.Some? && e.value.key == k ==>
                  && e.value.wirelen == s.wirelen && e.value.ts == s.ts
                  && (if e.value.reversed then FromB(s, k) && !FromA(s, k) else FromA(s, k))
                  && e.value.tcpFlags == if s.p.l3.proto == 6 && s.p.l4.present then s.p.l4.tcpFlags else 0)
  {
    CanonicalIff(k);
    if s.p.l3.present {
      LexOpposite(s.p.l3.src, s.p.l3.dst);
      LexZero(s.p.l3.src, s.p.l3.dst);
    }
    hide LexCmp, Canonical;
  }

  /** The entries of a key are those of its packets, one by one. */
  lemma {:induction false} EntriesAre(h: seq<Seen>, k: FlowKey)
    ensures var es, ps := Of(FlowEntries(h), k), PacketsOf(h, k);
            && |es| == |ps|
            && (forall i :: 0 <= i < |es| ==> FlowEntryOf(ps[i]) == Some(es[i]) && es[i].key == k)
            && TotalOf(es).bytes == WireBytes(ps)
  {
    hide FlowEntryOf, FromA, FromB, Canonical, One, Plus;
    if h != [] {
      var front, s := h[..|h| - 1], h[|h| - 1];
      EntriesAre(front, k);
      FlowEntryMeans(s, k);
      var all, e := FlowEntries(front), FlowEntryOf(s);
      assert PacketsOf(front, k) + [] == PacketsOf(front, k);
      if e.Some? {
        assert (all + [e.value])[..|all|] == all;
        if e.value.key == k {
          EntryAndPacketMore(Of(all, k), e.value, PacketsOf(front, k), s);
        }
      }
    }
  }

  lemma EntryAndPacketMore(es: seq<Entry>, e: Entry, ps: seq<Seen>, s: Seen)
    requires TotalOf(es).bytes == WireBytes(ps) && e.wirelen == s.wirelen
    ensures TotalOf(es + [e]).bytes == WireBytes(ps + [s])
  {
    assert (es + [e])[..|es|] == es && (ps + [s])[..|ps|] == ps;
  }

  /** Number `i` is the first packet among those with the earliest timestamp. */
  ghost predicate FirstOfEarliest(ps: seq<Seen>, i: nat) {
    && i < |ps|
    && (forall j :: 0 <= j < |ps| ==> ps[i].ts <= ps[j].ts)
    && (forall j :: 0 <= j < i ==> ps[i].ts < ps[j].ts)
  }

  /** A flow is in the table exactly when it has a packet; its counters are the number and the bytes of
      its packets; its times the least and the greatest timestamp; its direction is that of the first of
      the earliest packets, and false where both endpoints are the same; and its flags are the union of
      the flags of its TCP packets. */
  lemma FlowIsItsPackets(h: seq<Seen>, keyHash: KeyHash, k: FlowKey)
    ensures k in Accounted(FlowEntries(h), keyHash) <==> PacketsOf(h, k) != []
    ensures k in Accounted(FlowEntries(h), keyHash) ==>
              var f, ps := Accounted(FlowEntries(h), keyHash)[k], PacketsOf(h, k);
              && f.key == k && f.packets == |ps| && f.bytes == WireBytes(ps)
              && (exists i :: 0 <= i < |ps| && ps[i].ts == f.firstTs)
              && (forall i :: 0 <= i < |ps| ==> f.firstTs <= ps[i].ts)
              && (exists i :: 0 <= i < |ps| && ps[i].ts == f.lastTs)
              && (forall i :: 0 <= i < |ps| ==> ps[i].ts <= f.lastTs)
              && (exists i: nat :: FirstOfEarliest(ps, i) &&
                    if f.firstFromB then FromB(ps[i], k) && !FromA(ps[i], k) else FromA(ps[i], k))
              && forall b: nat :: BitAt(f.tcpFlags, b) <==>
                   exists i ::
                     0 <= i < |ps| && ps[i].p.l3.proto == 6 && ps[i].p.l4.present && BitAt(ps[i].p.l4.tcpFlags, b)
  {
    hide Accounted, FlowEntries, FlowEntryOf, Of, PacketsOf, FromA, FromB, TotalOf, WireBytes;
    var es, ps := Of(FlowEntries(h), k), PacketsOf(h, k);
    EntriesAre(h, k);
    TableSummarizes(FlowEntries(h), keyHash, k);
    if es != [] {
      var f := Accounted(FlowEntries(h), keyHash)[k];
      forall i | 0 <= i < |ps|
        ensures es[i].ts == ps[i].ts && es[i] in es
        ensures if es[i].reversed then FromB(ps[i], k) && !FromA(ps[i], k) else FromA(ps[i], k)
        ensures es[i].tcpFlags == if ps[i].p.l3.proto == 6 && ps[i].p.l4.present then ps[i].p.l4.tcpFlags else 0
      {
        FlowEntryMeans(ps[i], k);
      }
      PacketCount(es);
      TimesMean(f, es, ps);
      var i: nat :| IsFirstSeen(i, f.firstTs, es) && f.firstFromB == es[i].reversed;
      assert FirstOfEarliest(ps, i);
      forall b: nat
        ensures BitAt(f.tcpFlags, b) <==>
                exists i ::
                     0 <= i < |ps| && ps[i].p.l3.proto == 6 && ps[i].p.l4.present && BitAt(ps[i].p.l4.tcpFlags, b)
      {
        FlagsMean(es, b);
        NoBits(b);
      }
    }
  }

  lemma TimesMean(f: Flow, es: seq<Entry>, ps: seq<Seen>)
    requires Summarizes(f, es) && |es| == |ps| && forall i :: 0 <= i < |ps| ==> es[i].ts == ps[i].ts && es[i] in es
    ensures (exists i :: 0 <= i < |ps| && ps[i].ts == f.firstTs)
            && (forall i :: 0 <= i < |ps| ==> f.firstTs <= ps[i].ts)
    ensures (exists i :: 0 <= i < |ps| && ps[i].ts == f.lastTs)
            && (forall i :: 0 <= i < |ps| ==> ps[i].ts <= f.lastTs)
  {
    hide TotalOf;
    var x :| x in es && x.ts == f.firstTs;
    var i :| 0 <= i < |es| && es[i] == x;
    assert ps[i].ts == f.firstTs;
    var y :| y in es && y.ts == f.lastTs;
    var j :| 0 <= j < |es| && es[j] == y;
    assert ps[j].ts == f.lastTs;
  }

  lemma {:induction false} PacketCount(es: seq<Entry>)
    ensures TotalOf(es).packets == |es|
  {
    if es != [] {
      PacketCount(es[..|es| - 1]);
    }
  }

  lemma {:induction false} FlagsMean(es: seq<Entry>, b: nat)
    ensures BitAt(TotalOf(es).tcpFlags, b) <==> exists i :: 0 <= i < |es| && BitAt(es[i].tcpFlags, b)
  {
    hide BitAt, BitOr;
    NoBits(b);
    if es != [] {
      var front, e := es[..|es| - 1], es[|es| - 1];
      FlagsMean(front, b);
      OrBits(TotalOf(front).tcpFlags, e.tcpFlags, b);
      assert forall i :: 0 <= i < |front| ==> front[i] == es[i];
    }
  }

  // ----- Tunnels -----

  /** A G-PDU of the tunnel whose GTP-U headers were read in full, whatever became of the user packet. */
  ghost predicate InTunnel(s: Seen, k: FlowKey) {
    && s.p.status == Ok && s.p.gtp.isGtpu && s.p.gtp.v1u && s.p.gtp.msgOk && s.p.gtp.msgType == 255
    && k.teid == s.p.gtp.teid && k.version == s.p.l3.version && k.proto == s.p.l3.proto
    && k.addrA == s.p.l3.src && k.addrB == s.p.l3.dst && k.portA == 0 && k.portB == 0
  }

  ghost function GpdusOf(h: seq<Seen>, k: FlowKey): seq<Seen> {
    if h == [] then []
    else GpdusOf(h[..|h| - 1], k) + if InTunnel(h[|h| - 1], k) then [h[|h| - 1]] else []
  }

  lemma TunnelEntryMeans(s: Seen, k: FlowKey)
    ensures var e := TunnelEntryOf(s);
            && ((e.Some? && e.value.key == k) <==> InTunnel(s, k))
            && (e.Some? && e.value.key == k ==>
                  e.value.wirelen == s.wirelen && e.value.ts == s.ts && !e.value.reversed && e.value.tcpFlags == 0)
  {
  }

  lemma {:induction false} TunnelEntriesAre(h: seq<Seen>, k: FlowKey)
    ensures var es, ps := Of(TunnelEntries(h), k), GpdusOf(h, k);
            && |es| == |ps|
            && (forall i :: 0 <= i < |es| ==> TunnelEntryOf(ps[i]) == Some(es[i]) && es[i].key == k)
            && TotalOf(es).bytes == WireBytes(ps)
  {
    hide TunnelEntryOf, InTunnel, One, Plus;
    if h != [] {
      var front, s := h[..|h| - 1], h[|h| - 1];
      TunnelEntriesAre(front, k);
      TunnelEntryMeans(s, k);
      var all, e := TunnelEntries(front), TunnelEntryOf(s);
      assert GpdusOf(front, k) + [] == GpdusOf(front, k);
      if e.Some? {
        assert (all + [e.value])[..|all|] == all;
        if e.value.key == k {
          EntryAndPacketMore(Of(all, k), e.value, GpdusOf(front, k), s);
        }
      }
    }
  }

  /** A tunnel is in the table exactly when it has a G-PDU; it counts their number and bytes and spans
      their timestamps. Its first address is the sender's. */
  lemma TunnelIsItsPackets(h: seq<Seen>, keyHash: KeyHash, k: FlowKey)
    ensures k in Accounted(TunnelEntries(h), keyHash) <==> GpdusOf(h, k) != []
    ensures k in Accounted(TunnelEntries(h), keyHash) ==>
              var f, ps := Accounted(TunnelEntries(h), keyHash)[k], GpdusOf(h, k);
              && f.key == k && f.packets == |ps| && f.bytes == WireBytes(ps) && !f.firstFromB
              && (exists i :: 0 <= i < |ps| && ps[i].ts == f.firstTs)
              && (forall i :: 0 <= i < |ps| ==> f.firstTs <= ps[i].ts)
              && (exists i :: 0 <= i < |ps| && ps[i].ts == f.lastTs)
              && (forall i :: 0 <= i < |ps| ==> ps[i].ts <= f.lastTs)
              && forall b: nat :: !BitAt(f.tcpFlags, b)
  {
    hide Accounted, TunnelEntries, TunnelEntryOf, Of, GpdusOf, InTunnel, TotalOf, WireBytes;
    var es, ps := Of(TunnelEntries(h), k), GpdusOf(h, k);
    TunnelEntriesAre(h, k);
    TableSummarizes(TunnelEntries(h), keyHash, k);
    if es != [] {
      var f := Accounted(TunnelEntries(h), keyHash)[k];
      forall i | 0 <= i < |ps|
        ensures es[i].ts == ps[i].ts && es[i] in es && !es[i].reversed && es[i].tcpFlags == 0
      {
        TunnelEntryMeans(ps[i], k);
      }
      PacketCount(es);
      TimesMean(f, es, ps);
      forall b: nat
        ensures !BitAt(f.tcpFlags, b)
      {
        FlagsMean(es, b);
        NoBits(b);
      }
    }
  }
}
