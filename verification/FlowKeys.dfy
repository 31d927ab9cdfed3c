/** Keys of the flow and tunnel tables, and the order in which the largest flows are listed. */
module FlowKeys {
  import opened Bytes
  import opened Packet

  /** Endpoints in canonical order for a flow (`teid` 0), or sender, receiver and TEID for a tunnel. */
  datatype FlowKey = FlowKey(teid: uint32, version: byte, proto: byte, portA: uint16, portB: uint16,
                             addrA: Address, addrB: Address)

  datatype Flow = Flow(key: FlowKey, tcpFlags: byte, firstFromB: bool, hash: uint64,
                       packets: nat, bytes: nat, firstTs: uint64, lastTs: uint64)

  datatype Option<+T> = None | Some(value: T)

  /** Any hash function will do: no property depends on which one. */
  type KeyHash = FlowKey -> uint64

  // ----- Lexicographic order -----

  /** The sign of `memcmp`, for sequences of equal length. */
  function LexCmp(a: seq<int>, b: seq<int>): (c: int)
    requires |a| == |b|
    ensures -1 <= c <= 1
  {
    if a == [] then 0
    else if a[0] != b[0] then (if a[0] < b[0] then -1 else 1)
    else LexCmp(a[1..], b[1..])
  }

  lemma {:induction false} LexZero(a: seq<int>, b: seq<int>)
    requires |a| == |b|
    ensures LexCmp(a, b) == 0 <==> a == b
  {
    if a != [] {
      LexZero(a[1..], b[1..]);
      assert a == [a[0]] + a[1..] && b == [b[0]] + b[1..];
    }
  }

  lemma {:induction false} LexOpposite(a: seq<int>, b: seq<int>)
    requires |a| == |b|
    ensures LexCmp(b, a) == -LexCmp(a, b)
  {
    if a != [] {
      LexOpposite(a[1..], b[1..]);
    }
  }

  lemma {:induction false} LexTransitive(a: seq<int>, b: seq<int>, c: seq<int>)
    requires |a| == |b| == |c| && LexCmp(a, b) < 0 && LexCmp(b, c) < 0
    ensures LexCmp(a, c) < 0
  {
    if a[0] == b[0] == c[0] {
      LexTransitive(a[1..], b[1..], c[1..]);
    }
  }

  lemma {:induction false} LexConcat(a: seq<int>, a': seq<int>, b: seq<int>, b': seq<int>)
    requires |a| == |b| && |a'| == |b'|
    ensures LexCmp(a + a', b + b') == if LexCmp(a, b) != 0 then LexCmp(a, b) else LexCmp(a', b')
  {
    if a == [] {
      assert a + a' == a' && b + b' == b';
    } else {
      LexConcat(a[1..], a', b[1..], b');
      assert (a + a')[1..] == a[1..] + a' && (b + b')[1..] == b[1..] + b';
    }
  }

  /** The sequences agree up to position `i`, and differ there. */
  ghost predicate FirstDifference(a: seq<int>, b: seq<int>, i: nat) {
    i < |a| == |b| && a[i] != b[i] && forall j :: 0 <= j < i ==> a[j] == b[j]
  }

  lemma {:induction false} LexFirst(a: seq<int>, b: seq<int>) returns (i: nat)
    requires |a| == |b| && a != b
    ensures FirstDifference(a, b, i) && (LexCmp(a, b) < 0 <==> a[i] < b[i])
  {
    if a[0] != b[0] {
      i := 0;
    } else {
      assert a == [a[0]] + a[1..] && b == [b[0]] + b[1..];
      i := LexFirst(a[1..], b[1..]);
      i := i + 1;
    }
  }

  lemma OneFirstDifference(a: seq<int>, b: seq<int>, i: nat, j: nat)
    requires FirstDifference(a, b, i) && FirstDifference(a, b, j)
    ensures i == j
  {
  }

  /** What the sign says: the first position where they differ decides. */
  lemma LexMeans(a: seq<int>, b: seq<int>)
    requires |a| == |b|
    ensures LexCmp(a, b) < 0 <==> exists i: nat :: FirstDifference(a, b, i) && a[i] < b[i]
    ensures LexCmp(a, b) == 0 <==> a == b
  {
    LexZero(a, b);
    if a != b {
      var i := LexFirst(a, b);
      if j: nat :| FirstDifference(a, b, j) && a[j] < b[j] {
        OneFirstDifference(a, b, i, j);
      }
    }
  }

  // ----- Canonical flow keys -----

  /** The key of a packet and whether it travelled from endpoint B to endpoint A. */
  datatype Keyed = NoKey | Keyed(key: FlowKey, reversed: bool)

  function FlowKeyOf(l3: L3, l4: L4): Keyed {
    if !l3.present then NoKey
    else
      var c := LexCmp(l3.src, l3.dst);
      var cmp := if c != 0 then c
                 else (if l4.srcPort > l4.dstPort then 1 else 0) - (if l4.srcPort < l4.dstPort then 1 else 0);
      if cmp <= 0
      then Keyed(FlowKey(0, l3.version, l3.proto, l4.srcPort, l4.dstPort, l3.src, l3.dst), false)
      else Keyed(FlowKey(0, l3.version, l3.proto, l4.dstPort, l4.srcPort, l3.dst, l3.src), true)
  }

  /** The same packet travelling the other way. */
  function Turned3(l3: L3): L3 {
    l3.(src := l3.dst, dst := l3.src)
  }

  function Turned4(l4: L4): L4 {
    l4.(srcPort := l4.dstPort, dstPort := l4.srcPort)
  }

  /** Two IP packets share a key exactly when version, protocol and endpoints agree, possibly with
      the endpoints swapped. */
  lemma SameFlow(l3: L3, l4: L4, m3: L3, m4: L4)
    requires l3.present && m3.present
    ensures FlowKeyOf(l3, l4).key == FlowKeyOf(m3, m4).key <==>
            && l3.version == m3.version && l3.proto == m3.proto
            && ((l3.src == m3.src && l3.dst == m3.dst && l4.srcPort == m4.srcPort && l4.dstPort == m4.dstPort)
                || (l3.src == m3.dst && l3.dst == m3.src && l4.srcPort == m4.dstPort && l4.dstPort == m4.srcPort))
  {
    LexOpposite(l3.src, l3.dst);
    LexOpposite(m3.src, m3.dst);
    LexZero(l3.src, l3.dst);
    LexZero(m3.src, m3.dst);
  }

  /** The key and the direction flag together give back who sent the packet; turning the packet
      round flips the flag, unless the two endpoints are the same. */
  lemma DirectionRecovered(l3: L3, l4: L4)
    requires l3.present
    ensures var k := FlowKeyOf(l3, l4);
            (l3.src, l4.srcPort, l3.dst, l4.dstPort) ==
            if k.reversed then (k.key.addrB, k.key.portB, k.key.addrA, k.key.portA)
            else (k.key.addrA, k.key.portA, k.key.addrB, k.key.portB)
    ensures FlowKeyOf(l3, l4).reversed == FlowKeyOf(Turned3(l3), Turned4(l4)).reversed <==>
            l3.src == l3.dst && l4.srcPort == l4.dstPort
  {
    LexOpposite(l3.src, l3.dst);
    LexZero(l3.src, l3.dst);
  }

  // ----- Tunnel keys -----

  function TunnelKeyOf(p: PacketInfo): Option<FlowKey> {
    if !p.gtp.isGtpu || !p.gtp.v1u then None
    else Some(FlowKey(p.gtp.teid, p.l3.version, p.l3.proto, 0, 0, p.l3.src, p.l3.dst))
  }

  /** Tunnel keys keep the direction: they agree only for the same sender, receiver and TEID. */
  lemma SameTunnel(p: PacketInfo, q: PacketInfo)
    requires TunnelKeyOf(p).Some? && TunnelKeyOf(q).Some?
    ensures TunnelKeyOf(p) == TunnelKeyOf(q) <==>
            (p.l3.version, p.l3.proto, p.l3.src, p.l3.dst, p.gtp.teid) ==
            (q.l3.version, q.l3.proto, q.l3.src, q.l3.dst, q.gtp.teid)
  {
  }

  // ----- Rank -----

  function Sign(less: bool): int {
    if less then -1 else 1
  }

  function KeyCmp(a: FlowKey, b: FlowKey): int {
    if a.teid != b.teid then Sign(a.teid < b.teid)
    else if a.version != b.version then Sign(a.version < b.version)
    else if a.proto != b.proto then Sign(a.proto < b.proto)
    else if LexCmp(a.addrA, b.addrA) != 0 then LexCmp(a.addrA, b.addrA)
    else if a.portA != b.portA then Sign(a.portA < b.portA)
    else if LexCmp(a.addrB, b.addrB) != 0 then LexCmp(a.addrB, b.addrB)
    else if a.portB != b.portB then Sign(a.portB < b.portB)
    else 0
  }

  /** Negative if `a` is listed before `b`: more bytes, then more packets, then the earlier start. */
  function RankCmp(a: Flow, b: Flow): int {
    if a.bytes != b.bytes then Sign(a.bytes > b.bytes)
    else if a.packets != b.packets then Sign(a.packets > b.packets)
    else if a.firstTs != b.firstTs then Sign(a.firstTs < b.firstTs)
    else KeyCmp(a.key, b.key)
  }

  predicate Before(a: Flow, b: Flow) {
    RankCmp(a, b) < 0
  }

  /** The comparison is the lexicographic one on this vector. */
  function KeyVector(k: FlowKey): (v: seq<int>)
    ensures |v| == 37
  {
    [k.teid, k.version, k.proto] + (k.addrA + ([k.portA] + (k.addrB + [k.portB])))
  }

  function RankVector(f: Flow): (v: seq<int>)
    ensures |v| == 40
  {
    [-(f.bytes as int), -(f.packets as int), f.firstTs] + KeyVector(f.key)
  }

  lemma LexHead(a: int, b: int)
    ensures LexCmp([a], [b]) == if a == b then 0 else Sign(a < b)
  {
    if a == b {
      LexZero([a], [b]);
    }
  }

  lemma LexTriple(a: int, a': int, a'': int, b: int, b': int, b'': int)
    ensures LexCmp([a, a', a''], [b, b', b'']) ==
            if a != b then Sign(a < b)
            else if a' != b' then Sign(a' < b')
            else if a'' != b'' then Sign(a'' < b'') else 0
  {
    assert [a, a', a''] == [a] + ([a'] + [a'']) && [b, b', b''] == [b] + ([b'] + [b'']);
    LexConcat([a], [a'] + [a''], [b], [b'] + [b'']);
    LexConcat([a'], [a''], [b'], [b'']);
    LexHead(a, b);
    LexHead(a', b');
    LexHead(a'', b'');
  }

  lemma KeyCmpIsLex(a: FlowKey, b: FlowKey)
    ensures KeyCmp(a, b) == LexCmp(KeyVector(a), KeyVector(b))
    ensures KeyCmp(a, b) ==
            LexCmp([a.teid, a.version, a.proto] + (a.addrA + ([a.portA] + (a.addrB + [a.portB]))),
                   [b.teid, b.version, b.proto] + (b.addrA + ([b.portA] + (b.addrB + [b.portB]))))
  {
    hide LexCmp;
    var a4, b4 := a.addrB + [a.portB], b.addrB + [b.portB];
    var a3, b3 := [a.portA] + a4, [b.portA] + b4;
    var a2, b2 := a.addrA + a3, b.addrA + b3;
    LexConcat([a.teid, a.version, a.proto], a2, [b.teid, b.version, b.proto], b2);
    LexTriple(a.teid, a.version, a.proto, b.teid, b.version, b.proto);
    LexConcat(a.addrA, a3, b.addrA, b3);
    LexConcat([a.portA], a4, [b.portA], b4);
    LexHead(a.portA, b.portA);
    LexConcat(a.addrB, [a.portB], b.addrB, [b.portB]);
    LexHead(a.portB, b.portB);
  }

  lemma RankCmpIsLex(a: Flow, b: Flow)
    ensures RankCmp(a, b) == LexCmp(RankVector(a), RankVector(b))
  {
    hide LexCmp;
    LexConcat([-(a.bytes as int), -(a.packets as int), a.firstTs], KeyVector(a.key),
              [-(b.bytes as int), -(b.packets as int), b.firstTs], KeyVector(b.key));
    LexTriple(-(a.bytes as int), -(a.packets as int), a.firstTs, -(b.bytes as int), -(b.packets as int), b.firstTs);
    KeyCmpIsLex(a.key, b.key);
  }

  lemma KeyCmpZero(a: FlowKey, b: FlowKey)
    ensures KeyCmp(a, b) == 0 <==> a == b
  {
    LexZero(a.addrA, b.addrA);
    LexZero(a.addrB, b.addrB);
  }

  /** What is listed first: more bytes, then more packets, then the earlier start, then the smaller key. */
  lemma BeforeMeans(a: Flow, b: Flow)
    ensures Before(a, b) <==>
            || a.bytes > b.bytes
            || (a.bytes == b.bytes && a.packets > b.packets)
            || (a.bytes == b.bytes && a.packets == b.packets && a.firstTs < b.firstTs)
            || (a.bytes == b.bytes && a.packets == b.packets && a.firstTs == b.firstTs && KeyCmp(a.key, b.key) < 0)
  {
  }

  /** Listing order is a strict order, total on flows with different keys. */
  lemma BeforeTransitive(a: Flow, b: Flow, c: Flow)
    requires Before(a, b) && Before(b, c)
    ensures Before(a, c)
  {
    RankCmpIsLex(a, b);
    RankCmpIsLex(b, c);
    RankCmpIsLex(a, c);
    LexTransitive(RankVector(a), RankVector(b), RankVector(c));
  }

  lemma BeforeTotal(a: Flow, b: Flow)
    ensures RankCmp(b, a) == -RankCmp(a, b)
    ensures a.key != b.key ==> Before(a, b) || Before(b, a)
    ensures !(Before(a, b) && Before(b, a))
  {
    RankCmpIsLex(a, b);
    RankCmpIsLex(b, a);
    LexOpposite(RankVector(a), RankVector(b));
    KeyCmpZero(a.key, b.key);
  }
}
