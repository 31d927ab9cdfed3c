/** What a table holds after any history of accounted packets, and why the order does not matter. */
module Accounting {
  import opened Bytes
  import opened Bits
  import opened Collections
  import opened FlowKeys
  import opened Packet

  type FlowMap = map<FlowKey, Flow>

  /** One packet as the table sees it. */
  datatype Entry = Entry(key: FlowKey, reversed: bool, tcpFlags: byte, wirelen: uint32, ts: uint64)

  /** How a packet counts in the flow table: by its canonical key, if it has an IP layer. */
  function FlowEntry(p: PacketInfo, wirelen: uint32, ts: uint64): Option<Entry> {
    match FlowKeyOf(p.l3, p.l4)
    case NoKey => None
    case Keyed(key, reversed) =>
      Some(Entry(key, reversed, if p.l3.proto == PROTO_TCP && p.l4.present then p.l4.tcpFlags else 0, wirelen, ts))
  }

  /** How a packet counts in the tunnel table. */
  function TunnelEntry(p: PacketInfo, wirelen: uint32, ts: uint64): Option<Entry> {
    match TunnelKeyOf(p)
    case None => None
    case Some(key) => Some(Entry(key, false, 0, wirelen, ts))
  }

  function NewFlow(key: FlowKey, hash: uint64): Flow {
    Flow(key, 0, false, hash, 0, 0, 0, 0)
  }

  function UnionOfFlags(a: byte, b: byte): byte {
    assert Pow2(8) == 256;
    OrBound(a, b, 8);
    BitOr(a, b)
  }

  /** The entry after one more packet; `inserted` says that this packet created it. */
  function Credited(f: Flow, e: Entry, inserted: bool): Flow {
    var g := if inserted then f.(firstTs := e.ts, lastTs := e.ts, firstFromB := e.reversed) else f;
    var g := if e.ts < g.firstTs then g.(firstTs := e.ts, firstFromB := e.reversed) else g;
    var g := if e.ts > g.lastTs then g.(lastTs := e.ts) else g;
    g.(packets := g.packets + 1, bytes := g.bytes + e.wirelen, tcpFlags := UnionOfFlags(g.tcpFlags, e.tcpFlags))
  }

  function AddEntry(m: FlowMap, e: Entry, keyHash: KeyHash): FlowMap {
    var f := if e.key in m then m[e.key] else NewFlow(e.key, keyHash(e.key));
    m[e.key := Credited(f, e, e.key !in m)]
  }

  /** The table after a history of packets. */
  function Accounted(es: seq<Entry>, keyHash: KeyHash): FlowMap {
    if es == [] then map[]
    else AddEntry(Accounted(es[..|es| - 1], keyHash), es[|es| - 1], keyHash)
  }

  // ----- What an entry says about the history -----

  /** The part of the history that belongs to one key. */
  function Of(es: seq<Entry>, k: FlowKey): seq<Entry> {
    if es == [] then []
    else if es[|es| - 1].key == k then Of(es[..|es| - 1], k) + [es[|es| - 1]]
    else Of(es[..|es| - 1], k)
  }

  /** Sums that do not depend on order. */
  datatype Totals = Totals(packets: nat, bytes: nat, tcpFlags: nat)

  function Plus(a: Totals, b: Totals): Totals {
    Totals(a.packets + b.packets, a.bytes + b.bytes, BitOr(a.tcpFlags, b.tcpFlags))
  }

  function One(e: Entry): Totals {
    Totals(1, e.wirelen, e.tcpFlags)
  }

  function TotalOf(es: seq<Entry>): Totals {
    if es == [] then Totals(0, 0, 0) else Plus(TotalOf(es[..|es| - 1]), One(es[|es| - 1]))
  }

  ghost predicate IsEarliest(ts: uint64, es: seq<Entry>) {
    (exists e :: e in es && e.ts == ts) && forall e :: e in es ==> ts <= e.ts
  }

  ghost predicate IsLatest(ts: uint64, es: seq<Entry>) {
    (exists e :: e in es && e.ts == ts) && forall e :: e in es ==> e.ts <= ts
  }

  /** Was `i` the first packet seen among those with the smallest timestamp? */
  ghost predicate IsFirstSeen(i: nat, ts: uint64, es: seq<Entry>) {
    i < |es| && es[i].ts == ts && forall j :: 0 <= j < i ==> es[j].ts > ts
  }

  /** The whole meaning of an entry: number, bytes and flags of the key's packets, the earliest and
      the latest of their timestamps, and the direction of the first packet seen at the earliest. */
  ghost predicate Summarizes(f: Flow, es: seq<Entry>) {
    && Totals(f.packets, f.bytes, f.tcpFlags) == TotalOf(es)
    && IsEarliest(f.firstTs, es)
    && IsLatest(f.lastTs, es)
    && exists i: nat :: IsFirstSeen(i, f.firstTs, es) && f.firstFromB == es[i].reversed
  }

  lemma CreditedNew(e: Entry, hash: uint64)
    ensures Summarizes(Credited(NewFlow(e.key, hash), e, true), [e])
  {
    var f := Credited(NewFlow(e.key, hash), e, true);
    assert [e][..0] == [];
    assert TotalOf([e]) == Plus(TotalOf([]), One(e));
    assert IsFirstSeen(0, f.firstTs, [e]);
  }

  lemma EarliestOfMore(ts: uint64, es: seq<Entry>, e: Entry)
    requires IsEarliest(ts, es)
    ensures IsEarliest(if e.ts < ts then e.ts else ts, es + [e])
  {
    var early :| early in es && early.ts == ts;
    assert early in es + [e] && e in es + [e];
  }

  lemma LatestOfMore(ts: uint64, es: seq<Entry>, e: Entry)
    requires IsLatest(ts, es)
    ensures IsLatest(if e.ts > ts then e.ts else ts, es + [e])
  {
    var late :| late in es && late.ts == ts;
    assert late in es + [e] && e in es + [e];
  }

  lemma FirstSeenOfMore(i: nat, ts: uint64, es: seq<Entry>, e: Entry)
    requires IsFirstSeen(i, ts, es) && IsEarliest(ts, es)
    ensures if e.ts < ts then IsFirstSeen(|es|, e.ts, es + [e]) else IsFirstSeen(i, ts, es + [e])
  {
    assert forall j :: 0 <= j < |es| ==> es[j] in es;
  }

  lemma CreditedFields(f: Flow, e: Entry)
    ensures var g := Credited(f, e, false);
            && Totals(g.packets, g.bytes, g.tcpFlags) == Plus(Totals(f.packets, f.bytes, f.tcpFlags), One(e))
            && g.firstTs == (if e.ts < f.firstTs then e.ts else f.firstTs)
            && g.lastTs == (if e.ts > f.lastTs then e.ts else f.lastTs)
            && g.firstFromB == (if e.ts < f.firstTs then e.reversed else f.firstFromB)
  {
  }

  lemma CreditedMore(f: Flow, es: seq<Entry>, e: Entry)
    requires Summarizes(f, es)
    ensures Summarizes(Credited(f, e, false), es + [e])
  {
    CreditedFields(f, e);
    assert (es + [e])[..|es|] == es;
    assert TotalOf(es + [e]) == Plus(TotalOf(es), One(e));
    var i: nat :| IsFirstSeen(i, f.firstTs, es) && f.firstFromB == es[i].reversed;
    FirstSeenOfMore(i, f.firstTs, es, e);
    EarliestOfMore(f.firstTs, es, e);
    LatestOfMore(f.lastTs, es, e);
    hide Credited, IsEarliest, IsLatest, TotalOf, Plus, One;
    var i' := if e.ts < f.firstTs then |es| else i;
    assert IsFirstSeen(i', Credited(f, e, false).firstTs, es + [e]);
  }

  /** Over every history, the table has an entry exactly for the keys that occurred, and the entry
      summarizes the packets of its key. */
  lemma {:induction false} TableSummarizes(es: seq<Entry>, keyHash: KeyHash, k: FlowKey)
    ensures k in Accounted(es, keyHash) <==> Of(es, k) != []
    ensures k in Accounted(es, keyHash) ==>
              var f := Accounted(es, keyHash)[k];
              f.key == k && f.hash == keyHash(k) && Summarizes(f, Of(es, k))
  {
    hide Summarizes, Credited;
    if es != [] {
      var front, e := es[..|es| - 1], es[|es| - 1];
      TableSummarizes(front, keyHash, k);
      if e.key == k {
        var m := Accounted(front, keyHash);
        var f := if k in m then m[k] else NewFlow(k, keyHash(k));
        CreditedKeeps(f, e, k !in m);
        if k in m {
          CreditedMore(f, Of(front, k), e);
        } else {
          CreditedNew(e, keyHash(k));
          assert [] + [e] == [e];
        }
      }
    }
  }

  lemma CreditedKeeps(f: Flow, e: Entry, inserted: bool)
    ensures Credited(f, e, inserted).key == f.key && Credited(f, e, inserted).hash == f.hash
  {
  }

  // ----- Order independence -----

  lemma PlusLaws(a: Totals, b: Totals, c: Totals)
    ensures Plus(a, b) == Plus(b, a)
    ensures Plus(Plus(a, b), c) == Plus(a, Plus(b, c))
  {
    OrCommutes(a.tcpFlags, b.tcpFlags);
    OrAssociates(a.tcpFlags, b.tcpFlags, c.tcpFlags);
  }

  lemma {:induction false} TotalOfConcat(a: seq<Entry>, b: seq<Entry>)
    ensures TotalOf(a + b) == Plus(TotalOf(a), TotalOf(b))
  {
    hide Plus, One;
    if b == [] {
      assert a + b == a;
      NothingAdds(TotalOf(a));
    } else {
      var front, e := b[..|b| - 1], b[|b| - 1];
      TotalOfConcat(a, front);
      assert (a + b)[..|a + b| - 1] == a + front;
      PlusLaws(TotalOf(a), TotalOf(front), One(e));
    }
  }

  lemma NothingAdds(t: Totals)
    ensures Plus(t, Totals(0, 0, 0)) == t && Plus(Totals(0, 0, 0), t) == t
  {
  }

  lemma {:induction false} SamePacketsSameTotals(a: seq<Entry>, b: seq<Entry>)
    requires multiset(a) == multiset(b)
    ensures TotalOf(a) == TotalOf(b)
  {
    hide Plus, One;
    if a == [] {
      assert |multiset(b)| == 0;
    } else {
      var front, e := a[..|a| - 1], a[|a| - 1];
      assert a == front + [e];
      var i := FindLast(a, b);
      var left, right := b[..i], b[i + 1..];
      assert b == left + ([e] + right);
      SamePacketsSameTotals(front, left + right);
      TotalOfConcat(left, right);
      TotalOfConcat([e], right);
      TotalOfConcat(left, [e] + right);
      TotalOfConcat(front, [e]);
      PlusLaws(TotalOf([e]), TotalOf(right), TotalOf(left));
      PlusLaws(TotalOf(left), TotalOf(right), TotalOf([e]));
    }
  }

  lemma {:induction false} OfMultiset(es: seq<Entry>, k: FlowKey, e: Entry)
    ensures multiset(Of(es, k))[e] == if e.key == k then multiset(es)[e] else 0
  {
    if es != [] {
      OfMultiset(es[..|es| - 1], k, e);
      assert es == es[..|es| - 1] + [es[|es| - 1]];
    }
  }

  lemma OfSamePackets(es: seq<Entry>, es': seq<Entry>, k: FlowKey)
    requires multiset(es) == multiset(es')
    ensures multiset(Of(es, k)) == multiset(Of(es', k))
  {
    forall e: Entry
      ensures multiset(Of(es, k))[e] == multiset(Of(es', k))[e]
    {
      OfMultiset(es, k, e);
      OfMultiset(es', k, e);
    }
  }

  /** Do all packets with the smallest timestamp travel in the same direction? */
  ghost predicate DirectionSettled(es: seq<Entry>) {
    forall d, e :: d in es && e in es && IsEarliest(d.ts, es) && e.ts == d.ts ==> d.reversed == e.reversed
  }

  lemma SummariesAgree(f: Flow, es: seq<Entry>, f': Flow, es': seq<Entry>)
    requires Summarizes(f, es) && Summarizes(f', es') && multiset(es) == multiset(es')
    requires f.key == f'.key && f.hash == f'.hash
    ensures f' == f.(firstFromB := f'.firstFromB)
    ensures DirectionSettled(es) ==> f' == f
  {
    hide TotalOf;
    SamePacketsSameTotals(es, es');
    SameMembers(es, es');
    var i: nat :| IsFirstSeen(i, f.firstTs, es) && f.firstFromB == es[i].reversed;
    var i': nat :| IsFirstSeen(i', f'.firstTs, es') && f'.firstFromB == es'[i'].reversed;
    assert es[i] in es && es'[i'] in es;
  }

  /** Two histories with the same packets, in any order, build the same table, up to the direction
      flag; and that flag agrees too whenever the earliest packets of the key agree on it. */
  lemma OrderIndependent(es: seq<Entry>, es': seq<Entry>, keyHash: KeyHash)
    requires multiset(es) == multiset(es')
    ensures var m, m' := Accounted(es, keyHash), Accounted(es', keyHash);
            && m.Keys == m'.Keys
            && forall k :: k in m ==>
                 && m'[k] == m[k].(firstFromB := m'[k].firstFromB)
                 && (DirectionSettled(Of(es, k)) ==> m'[k] == m[k])
  {
    hide Accounted, Summarizes, DirectionSettled;
    var m, m' := Accounted(es, keyHash), Accounted(es', keyHash);
    forall k: FlowKey
      ensures k in m <==> k in m'
      ensures k in m ==> m'[k] == m[k].(firstFromB := m'[k].firstFromB)
      ensures k in m && DirectionSettled(Of(es, k)) ==> m'[k] == m[k]
    {
      TableSummarizes(es, keyHash, k);
      TableSummarizes(es', keyHash, k);
      OfSamePackets(es, es', k);
      assert Of(es, k) == [] <==> Of(es', k) == [] by {
        assert |multiset(Of(es, k))| == |multiset(Of(es', k))|;
      }
      if k in m {
        SummariesAgree(m[k], Of(es, k), m'[k], Of(es', k));
      }
    }
  }

  lemma {:induction false} OfCons(d: Entry, es: seq<Entry>)
    ensures Of([d] + es, d.key) == [d] + Of(es, d.key)
  {
    var all := [d] + es;
    if es == [] {
      assert all[..0] == [];
    } else {
      OfCons(d, es[..|es| - 1]);
      assert all[..|all| - 1] == [d] + es[..|es| - 1];
    }
  }

  /** If a packet is among the earliest of its key, seeing it first decides the direction. So when
      the earliest packets disagree, reordering the history does change the flag. */
  lemma EarliestSeenFirstDecides(es: seq<Entry>, i: nat, keyHash: KeyHash)
    requires i < |es| && IsEarliest(es[i].ts, Of(es, es[i].key))
    ensures var es' := [es[i]] + (es[..i] + es[i + 1..]);
            && multiset(es') == multiset(es)
            && es[i].key in Accounted(es', keyHash)
            && Accounted(es', keyHash)[es[i].key].firstFromB == es[i].reversed
  {
    var d, rest := es[i], es[..i] + es[i + 1..];
    var es' := [d] + rest;
    WithoutAt(es, i);
    OfCons(d, rest);
    OfSamePackets(es, es', d.key);
    SameMembers(Of(es, d.key), Of(es', d.key));
    TableSummarizes(es', keyHash, d.key);
    hide Accounted, Of, TotalOf;
    assert Of(es', d.key)[0] == d;
    assert IsEarliest(d.ts, Of(es', d.key));
  }

  /** Every rearrangement of the packets gives the key the same entry. */
  ghost predicate OrderIrrelevant(es: seq<Entry>, k: FlowKey, keyHash: KeyHash) {
    forall es' :: multiset(es') == multiset(es) ==> SameEntry(es', es, k, keyHash)
  }

  ghost predicate SameEntry(es: seq<Entry>, es': seq<Entry>, k: FlowKey, keyHash: KeyHash) {
    var m, m' := Accounted(es, keyHash), Accounted(es', keyHash);
    (k in m <==> k in m') && (k in m ==> m[k] == m'[k])
  }

  /** The order of the packets is irrelevant to a key exactly when its earliest packets agree on their
      direction. */
  lemma OrderIrrelevantIff(es: seq<Entry>, k: FlowKey, keyHash: KeyHash)
    ensures OrderIrrelevant(es, k, keyHash) <==> DirectionSettled(Of(es, k))
  {
    hide DirectionSettled, Accounted, Of;
    if DirectionSettled(Of(es, k)) {
      forall es' | multiset(es') == multiset(es)
        ensures SameEntry(es', es, k, keyHash)
      {
        OrderIndependent(es, es', keyHash);
      }
    } else {
      var d, e := Unsettled(es, k);
      EarliestSeenFirstDecides(es, d, keyHash);
      EarliestSeenFirstDecides(es, e, keyHash);
      var esD, esE := [es[d]] + (es[..d] + es[d + 1..]), [es[e]] + (es[..e] + es[e + 1..]);
      assert !SameEntry(esD, es, k, keyHash) || !SameEntry(esE, es, k, keyHash);
    }
  }

  /** Two earliest packets of the key that disagree. */
  lemma Unsettled(es: seq<Entry>, k: FlowKey) returns (d: nat, e: nat)
    requires !DirectionSettled(Of(es, k))
    ensures d < |es| && es[d].key == k && IsEarliest(es[d].ts, Of(es, k))
    ensures e < |es| && es[e].key == k && IsEarliest(es[e].ts, Of(es, k))
    ensures es[d].reversed != es[e].reversed
  {
    var x, y :|
      x in Of(es, k) && y in Of(es, k) && IsEarliest(x.ts, Of(es, k)) && y.ts == x.ts && x.reversed != y.reversed;
    OfMembers(es, k, x);
    OfMembers(es, k, y);
    d :| 0 <= d < |es| && es[d] == x;
    e :| 0 <= e < |es| && es[e] == y;
  }

  lemma OfMembers(es: seq<Entry>, k: FlowKey, e: Entry)
    requires e in Of(es, k)
    ensures e.key == k && e in es
  {
    OfMultiset(es, k, e);
    assert multiset(Of(es, k))[e] > 0;
  }

  // ----- Conservation -----

  ghost function SumPackets(m: FlowMap): nat
    decreases |m|
  {
    if m == map[] then 0
    else
      var k :| k in m;
      Smaller(m, k);
      m[k].packets + SumPackets(m - {k})
  }

  ghost function SumBytes(m: FlowMap): nat
    decreases |m|
  {
    if m == map[] then 0
    else
      var k :| k in m;
      Smaller(m, k);
      m[k].bytes + SumBytes(m - {k})
  }

  lemma Smaller(m: FlowMap, k: FlowKey)
    requires k in m
    ensures |m - {k}| < |m|
  {
    assert m.Keys == (m - {k}).Keys + {k};
  }

  /** The sums do not depend on the order in which the keys are picked. */
  lemma SumPick(m: FlowMap, k: FlowKey)
    requires k in m
    ensures SumPackets(m) == m[k].packets + SumPackets(m - {k})
    ensures SumBytes(m) == m[k].bytes + SumBytes(m - {k})
    decreases |m|
  {
    PickPackets(m, k);
    PickBytes(m, k);
  }

  lemma {:induction false} PickPackets(m: FlowMap, k: FlowKey)
    requires k in m
    ensures SumPackets(m) == m[k].packets + SumPackets(m - {k})
    decreases |m|
  {
    var j :| j in m && SumPackets(m) == m[j].packets + SumPackets(m - {j});
    if j != k {
      Smaller(m, j);
      Smaller(m, k);
      PickPackets(m - {j}, k);
      PickPackets(m - {k}, j);
      assert m - {j} - {k} == m - {k} - {j};
    }
  }

  lemma {:induction false} PickBytes(m: FlowMap, k: FlowKey)
    requires k in m
    ensures SumBytes(m) == m[k].bytes + SumBytes(m - {k})
    decreases |m|
  {
    var j :| j in m && SumBytes(m) == m[j].bytes + SumBytes(m - {j});
    if j != k {
      Smaller(m, j);
      Smaller(m, k);
      PickBytes(m - {j}, k);
      PickBytes(m - {k}, j);
      assert m - {j} - {k} == m - {k} - {j};
    }
  }

  lemma AddEntryConserves(m: FlowMap, e: Entry, keyHash: KeyHash)
    ensures SumPackets(AddEntry(m, e, keyHash)) == SumPackets(m) + 1
    ensures SumBytes(AddEntry(m, e, keyHash)) == SumBytes(m) + e.wirelen
  {
    var m' := AddEntry(m, e, keyHash);
    SumPick(m', e.key);
    if e.key in m {
      SumPick(m, e.key);
      assert m' - {e.key} == m - {e.key};
    } else {
      assert m' - {e.key} == m;
    }
  }

  /** Every accounted packet, and every one of its bytes, is in exactly one entry of the table. */
  lemma {:induction false} TableConserves(es: seq<Entry>, keyHash: KeyHash)
    ensures SumPackets(Accounted(es, keyHash)) == |es| == TotalOf(es).packets
    ensures SumBytes(Accounted(es, keyHash)) == TotalOf(es).bytes
  {
    hide AddEntry;
    if es != [] {
      TableConserves(es[..|es| - 1], keyHash);
      AddEntryConserves(Accounted(es[..|es| - 1], keyHash), es[|es| - 1], keyHash);
    }
  }
}
