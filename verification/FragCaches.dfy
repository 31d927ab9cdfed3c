/** The direct-mapped cache of src/frag.c, which lends a first fragment's ports to the later
    fragments of its datagram. It may forget, but what it answers is what an unbounded map of the
    whole history would answer. */
module FragCaches {
  import opened Bits
  import opened Bytes
  import opened FlowKeys
  import opened Packet

  const FRAG_CACHE_SLOTS: nat := 4096

  /** What all fragments of one datagram share. */
  datatype Datagram = Datagram(version: byte, proto: byte, id: uint32, src: Address, dst: Address)

  datatype Ports = Ports(src: uint16, dst: uint16)

  /** A first fragment, as the cache records it. */
  datatype FragEntry = FragEntry(datagram: Datagram, ports: Ports)

  /** Any hash function will do. */
  type DatagramHash = Datagram -> uint64

  function DatagramOf(p: PacketInfo): Datagram {
    Datagram(p.l3.version, p.l3.proto, p.l3.fragId, p.l3.src, p.l3.dst)
  }

  function SlotFor(d: Datagram, hash: DatagramHash): (i: nat)
    ensures i < FRAG_CACHE_SLOTS
  {
    assert FRAG_CACHE_SLOTS == Pow2(12);
    MaskIsRemainder(hash(d), FRAG_CACHE_SLOTS);
    BitAnd(hash(d), FRAG_CACHE_SLOTS - 1)
  }

  /** Does this packet record its ports? */
  predicate Records(p: PacketInfo) {
    p.status == Ok && p.l3.present && p.l3.frag == FragFirst && p.l4.present
  }

  /** Does this packet look for ports? */
  predicate Asks(p: PacketInfo) {
    p.status == Ok && p.l3.present && p.l3.frag == FragLater
  }

  function EntryOf(p: PacketInfo): FragEntry {
    FragEntry(DatagramOf(p), Ports(p.l4.srcPort, p.l4.dstPort))
  }

  // ----- What the history of recorded first fragments says -----

  /** The last recorded entry that falls into slot `i`. */
  function LastIn(history: seq<FragEntry>, i: nat, hash: DatagramHash): Option<FragEntry> {
    if history == [] then None
    else if SlotFor(history[|history| - 1].datagram, hash) == i then Some(history[|history| - 1])
    else LastIn(history[..|history| - 1], i, hash)
  }

  /** The ports of the most recent first fragment of a datagram: the unbounded map. */
  function LastPorts(history: seq<FragEntry>, d: Datagram): Option<Ports> {
    if history == [] then None
    else if history[|history| - 1].datagram == d then Some(history[|history| - 1].ports)
    else LastPorts(history[..|history| - 1], d)
  }

  /** The answer of the cache, given the history. */
  function Answer(history: seq<FragEntry>, d: Datagram, hash: DatagramHash): Option<Ports> {
    var e := LastIn(history, SlotFor(d, hash), hash);
    if e.Some? && e.value.datagram == d then Some(e.value.ports) else None
  }

  ghost predicate EvictedAt(history: seq<FragEntry>, d: Datagram, hash: DatagramHash, k: nat) {
    && k < |history|
    && SlotFor(history[k].datagram, hash) == SlotFor(d, hash)
    && forall j :: k <= j < |history| ==> history[j].datagram != d
  }

  /** Has another datagram taken the slot since the datagram last recorded its ports? */
  ghost predicate Evicted(history: seq<FragEntry>, d: Datagram, hash: DatagramHash) {
    LastPorts(history, d).Some? && exists k: nat :: EvictedAt(history, d, hash, k)
  }

  /** An answer is never another datagram's: it is what the unbounded map answers. The cache is
      silent where the map would answer exactly when a collision has evicted the entry. */
  lemma {:induction false} AnswerIsNeverWrong(history: seq<FragEntry>, d: Datagram, hash: DatagramHash)
    ensures Answer(history, d, hash).Some? ==> Answer(history, d, hash) == LastPorts(history, d)
    ensures Answer(history, d, hash) != LastPorts(history, d) <==> Evicted(history, d, hash)
  {
    hide SlotFor;
    if history != [] && history[|history| - 1].datagram != d {
      var front, last := history[..|history| - 1], history[|history| - 1];
      AnswerIsNeverWrong(front, d, hash);
      if SlotFor(last.datagram, hash) == SlotFor(d, hash) {
        assert EvictedAt(history, d, hash, |front|);
      } else {
        EvictedBefore(history, d, hash);
      }
    }
  }

  lemma EvictedBefore(history: seq<FragEntry>, d: Datagram, hash: DatagramHash)
    requires history != [] && history[|history| - 1].datagram != d
    requires SlotFor(history[|history| - 1].datagram, hash) != SlotFor(d, hash)
    ensures Evicted(history, d, hash) <==> Evicted(history[..|history| - 1], d, hash)
  {
    hide SlotFor;
    var front := history[..|history| - 1];
    forall k: nat
      ensures EvictedAt(history, d, hash, k) <==> EvictedAt(front, d, hash, k)
    {
    }
  }

  /** The packet after the cache has seen it: a later fragment may have been given ports. */
  function Attributed(history: seq<FragEntry>, p: PacketInfo, hash: DatagramHash): PacketInfo {
    if Asks(p) && Answer(history, DatagramOf(p), hash).Some? then
      var ports := Answer(history, DatagramOf(p), hash).value;
      p.(l4 := p.l4.(srcPort := ports.src, dstPort := ports.dst))
    else p
  }

  function Recorded(history: seq<FragEntry>, p: PacketInfo): seq<FragEntry> {
    if Records(p) then history + [EntryOf(p)] else history
  }

  // ----- What the packets before say -----

  /** What has been recorded when the packets `ps` have passed. */
  function HistoryOf(ps: seq<PacketInfo>): seq<FragEntry> {
    if ps == [] then [] else Recorded(HistoryOf(ps[..|ps| - 1]), ps[|ps| - 1])
  }

  lemma HistoryMore(ps: seq<PacketInfo>, p: PacketInfo)
    ensures HistoryOf(ps + [p]) == Recorded(HistoryOf(ps), p)
  {
    assert (ps + [p])[..|ps|] == ps;
  }

  /** `a` is a decoded first fragment with ports, of the datagram that `p` is a fragment of. */
  ghost predicate FirstOfSame(a: PacketInfo, p: PacketInfo) {
    && a.status == Ok && a.l3.present && a.l3.frag == FragFirst && a.l4.present
    && a.l3.version == p.l3.version && a.l3.proto == p.l3.proto && a.l3.fragId == p.l3.fragId
    && a.l3.src == p.l3.src && a.l3.dst == p.l3.dst
  }

  /** `a` is a decoded first fragment with ports, and it is recorded where `p` looks. */
  ghost predicate Overwrites(a: PacketInfo, p: PacketInfo, hash: DatagramHash) {
    && a.status == Ok && a.l3.present && a.l3.frag == FragFirst && a.l4.present
    && hash(Datagram(a.l3.version, a.l3.proto, a.l3.fragId, a.l3.src, a.l3.dst)) % 4096 ==
       hash(Datagram(p.l3.version, p.l3.proto, p.l3.fragId, p.l3.src, p.l3.dst)) % 4096
  }

  /** Of the packets `ps`, number `j` is the last first fragment recorded where `p` looks. */
  ghost predicate LastWriter(ps: seq<PacketInfo>, p: PacketInfo, hash: DatagramHash, j: nat) {
    j < |ps| && Overwrites(ps[j], p, hash) && forall m :: j < m < |ps| ==> !Overwrites(ps[m], p, hash)
  }

  lemma OverwritesMeans(a: PacketInfo, p: PacketInfo, hash: DatagramHash)
    ensures Overwrites(a, p, hash) <==>
            Records(a) && SlotFor(DatagramOf(a), hash) == SlotFor(DatagramOf(p), hash)
    ensures FirstOfSame(a, p) <==> Records(a) && DatagramOf(a) == DatagramOf(p)
  {
    SlotIsRemainder(DatagramOf(a), hash);
    SlotIsRemainder(DatagramOf(p), hash);
  }

  lemma SlotIsRemainder(d: Datagram, hash: DatagramHash)
    ensures SlotFor(d, hash) == hash(d) % 4096
  {
    assert FRAG_CACHE_SLOTS == Pow2(12);
    MaskIsRemainder(hash(d), FRAG_CACHE_SLOTS);
  }

  lemma LastWriterMore(ps: seq<PacketInfo>, last: PacketInfo, p: PacketInfo, hash: DatagramHash, j: nat)
    ensures LastWriter(ps + [last], p, hash, j) <==>
            if Overwrites(last, p, hash) then j == |ps| else LastWriter(ps, p, hash, j)
  {
    hide Overwrites;
    var more := ps + [last];
    assert more[|ps|] == last;
    assert forall m :: 0 <= m < |ps| ==> more[m] == ps[m];
  }

  /** What lies in the slot of a packet's datagram is the entry of the last first fragment that was
      recorded there. */
  lemma {:induction false} SlotMeans(ps: seq<PacketInfo>, p: PacketInfo, hash: DatagramHash)
    ensures LastIn(HistoryOf(ps), SlotFor(DatagramOf(p), hash), hash).Some? ==>
              exists j: nat :: LastWriter(ps, p, hash, j)
    ensures forall j: nat :: LastWriter(ps, p, hash, j) ==>
              LastIn(HistoryOf(ps), SlotFor(DatagramOf(p), hash), hash) == Some(EntryOf(ps[j]))
  {
    hide SlotFor, Overwrites;
    if ps != [] {
      var front, last := ps[..|ps| - 1], ps[|ps| - 1];
      SlotMeans(front, p, hash);
      OverwritesMeans(last, p, hash);
      assert ps == front + [last];
      forall j: nat
        ensures LastWriter(ps, p, hash, j) <==>
                if Overwrites(last, p, hash) then j == |front| else LastWriter(front, p, hash, j)
      {
        LastWriterMore(front, last, p, hash, j);
      }
var before := HistoryOf(front);
      if Records(last) {
        assert HistoryOf(ps) == before + [EntryOf(last)] && HistoryOf(ps)[..|before|] == before;
      }
      if Overwrites(last, p, hash) {
        assert LastWriter(ps, p, hash, |front|);
      } else if exists j: nat :: LastWriter(front, p, hash, j) {
        var j: nat :| LastWriter(front, p, hash, j);
        assert LastWriter(ps, p, hash, j) && ps[j] == front[j];
      }
    }
  }

  /** A fragment is given ports exactly when the last first fragment recorded in its place is of its own
      datagram, and then those of that fragment: no first fragment of the datagram came in between. */
  lemma AnswerMeans(ps: seq<PacketInfo>, p: PacketInfo, hash: DatagramHash)
    ensures Answer(HistoryOf(ps), DatagramOf(p), hash).Some? <==>
            exists j: nat :: LastWriter(ps, p, hash, j) && FirstOfSame(ps[j], p)
    ensures forall j: nat :: LastWriter(ps, p, hash, j) && FirstOfSame(ps[j], p) ==>
              && Answer(HistoryOf(ps), DatagramOf(p), hash) == Some(Ports(ps[j].l4.srcPort, ps[j].l4.dstPort))
              && forall m :: j < m < |ps| ==> !FirstOfSame(ps[m], p)
  {
    hide SlotFor, Overwrites, FirstOfSame, DatagramOf;
    SlotMeans(ps, p, hash);
    forall m | 0 <= m < |ps|
      ensures FirstOfSame(ps[m], p) <==> Records(ps[m]) && DatagramOf(ps[m]) == DatagramOf(p)
      ensures FirstOfSame(ps[m], p) ==> Overwrites(ps[m], p, hash)
      ensures Overwrites(ps[m], p, hash) ==> Records(ps[m])
    {
      OverwritesMeans(ps[m], p, hash);
    }
  }

  /** What becomes of a packet after the packets `ps`: a later fragment gets the ports of the last first
      fragment recorded in its place if that is one of its own datagram, and then no first fragment of the
      datagram came in between; every other packet stays as it is. */
  ghost predicate PortsExplained(ps: seq<PacketInfo>, p: PacketInfo, hash: DatagramHash, matched: bool, q: PacketInfo) {
    && (matched <==>
          && p.status == Ok && p.l3.present && p.l3.frag == FragLater
          && exists j: nat :: LastWriter(ps, p, hash, j) && FirstOfSame(ps[j], p))
    && (!matched ==> q == p)
    && (matched ==> forall j: nat :: LastWriter(ps, p, hash, j) && FirstOfSame(ps[j], p) ==>
          && q == p.(l4 := p.l4.(srcPort := ps[j].l4.srcPort, dstPort := ps[j].l4.dstPort))
          && forall m :: j < m < |ps| ==> !FirstOfSame(ps[m], p))
  }

  lemma AttributionExplained(ps: seq<PacketInfo>, p: PacketInfo, hash: DatagramHash)
    ensures PortsExplained(ps, p, hash, Asks(p) && Answer(HistoryOf(ps), DatagramOf(p), hash).Some?,
                           Attributed(HistoryOf(ps), p, hash))
  {
    hide LastWriter, FirstOfSame, Answer, DatagramOf;
    AnswerMeans(ps, p, hash);
  }

  // ----- The cache itself -----

  class FragCache {
    const hash: DatagramHash
    const slots: array<Option<FragEntry>>
    ghost var history: seq<FragEntry>
    ghost var packets: seq<PacketInfo>

    ghost predicate Valid()
      reads this`history, this`packets, slots
    {
      && slots.Length == FRAG_CACHE_SLOTS && history == HistoryOf(packets)
      && forall i :: 0 <= i < FRAG_CACHE_SLOTS ==> slots[i] == LastIn(history, i, hash)
    }

    constructor (hash: DatagramHash)
      ensures Valid() && history == [] && packets == [] && this.hash == hash && fresh(slots)
    {
      this.hash := hash;
      slots := new Option<FragEntry>[FRAG_CACHE_SLOTS](_ => None);
      history, packets := [], [];
    }

    /** A later fragment is given the ports of the last first fragment recorded in its place, if that is
        one of its own datagram. */
    method Apply(p: PacketInfo) returns (matched: bool, q: PacketInfo)
      requires Valid()
      modifies slots, this`history, this`packets
      ensures Valid() && history == Recorded(old(history), p) && packets == old(packets) + [p]
      ensures q == Attributed(old(history), p, hash)
      ensures matched <==> Asks(p) && Answer(old(history), DatagramOf(p), hash).Some?
      ensures PortsExplained(old(packets), p, hash, matched, q)
    {
      hide SlotFor, PortsExplained, HistoryOf;
      AttributionExplained(packets, p, hash);
      HistoryMore(packets, p);
      packets := packets + [p];
      q := p;
      if p.status != Ok || !p.l3.present {
        return false, q;
      }
      if p.l3.frag == FragFirst && p.l4.present {
        var e := EntryOf(p);
        var i := SlotFor(e.datagram, hash);
        slots[i] := Some(e);
        history := history + [e];
        assert history[..|history| - 1] == old(history);
        return false, q;
      }
      if p.l3.frag == FragLater {
        var e := slots[SlotFor(DatagramOf(p), hash)];
        if e.None? || e.value.datagram != DatagramOf(p) {
          return false, q;
        }
        q := p.(l4 := p.l4.(srcPort := e.value.ports.src));
        q := q.(l4 := q.l4.(dstPort := e.value.ports.dst));
        return true, q;
      }
      return false, q;
    }
  }
}
