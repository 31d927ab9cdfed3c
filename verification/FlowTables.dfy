/** The flow table of src/flow.c: an array of slots, grown by doubling, that stands for a finite map.

    Nothing depends on which hash function is used: it is a parameter of the table. Whether an
    allocation succeeds is a parameter of the operations that allocate. */
module FlowTables {
  import opened Accounting
  import opened Bytes
  import opened Bits
  import opened Collections
  import opened FlowKeys
  import opened Packet
  import opened Probing

  const MIN_CAPACITY: nat := 16
  const LOAD_NUM: nat := 7
  const LOAD_DEN: nat := 10

  /** The size of one slot in bytes, which bounds how many of them can be allocated. */
  const FLOW_SIZE: nat := 88

  /** Doubling stops where the allocation size would no longer fit `size_t`. */
  predicate CanDouble(capacity: nat) {
    capacity <= SIZE_MAX / 2 / FLOW_SIZE
  }

  /** The least power of two, not below 16, that reaches the hint or can no longer double. */
  ghost predicate LeastCapacity(cap: nat, hint: nat) {
    && IsPow2(cap) && MIN_CAPACITY <= cap && (hint <= cap || !CanDouble(cap))
    && forall c: nat :: IsPow2(c) && MIN_CAPACITY <= c < cap ==> c < hint && CanDouble(c)
  }

  lemma LeastIs(cap: nat, hint: nat)
    requires LeastCapacity(cap, hint) && hint >= MIN_CAPACITY && IsPow2(hint) && CanDouble(hint)
    ensures cap == hint
  {
  }

  /** The first `i` slots have been copied: their keys, and only those, live in the new array. */
  ghost predicate Moved(slots: Slots, index: Index, i: nat, bigger: Slots, placed: Index) {
    && (forall k :: k in placed ==> k in index && index[k] < i)
    && (forall k :: k in index && index[k] < i ==> k in placed)
    && (forall k :: k in placed ==> index[k] < |slots| && placed[k] < |bigger| && bigger[placed[k]] == slots[index[k]])
  }

  lemma MovedIsPart(slots: Slots, index: Index, keyHash: KeyHash, i: nat, bigger: Slots, placed: Index)
    requires Indexed(slots, index, keyHash) && Moved(slots, index, i, bigger, placed)
    requires i < |slots| && slots[i].Some?
    ensures |placed| <= |index| && slots[i].value.key !in placed
    ensures slots[i].value.hash == keyHash(slots[i].value.key)
  {
    Fewer(placed.Keys, index.Keys);
  }

  lemma MovedNone(slots: Slots, index: Index, i: nat, bigger: Slots, placed: Index)
    requires KeysLive(slots, index) && Moved(slots, index, i, bigger, placed) && i < |slots| && slots[i].None?
    ensures Moved(slots, index, i + 1, bigger, placed)
  {
  }

  lemma MovedOne(slots: Slots, index: Index, keyHash: KeyHash, i: nat, bigger: Slots, placed: Index, at: nat)
    requires KeysLive(slots, index) && SlotsKnown(slots, index, keyHash) && Moved(slots, index, i, bigger, placed)
    requires i < |slots| && slots[i].Some? && at < |bigger| && bigger[at].None?
    ensures Moved(slots, index, i + 1, bigger[at := slots[i]], placed[slots[i].value.key := at])
  {
    forall k | k in placed
      ensures placed[k] != at
    {
      assert bigger[placed[k]] == slots[index[k]];
    }
  }

  lemma NothingMoved(slots: Slots, index: Index, keyHash: KeyHash, bigger: Slots)
    requires Indexed(slots, index, keyHash) && IsPow2(|bigger|) && forall i :: 0 <= i < |bigger| ==> bigger[i].None?
    ensures Moved(slots, index, 0, bigger, map[]) && Indexed(bigger, map[], keyHash)
    ensures KeysLive(slots, index) && SlotsKnown(slots, index, keyHash)
  {
  }

  lemma MovedAll(slots: Slots, index: Index, keyHash: KeyHash, bigger: Slots, placed: Index)
    requires Indexed(slots, index, keyHash) && Indexed(bigger, placed, keyHash)
    requires Moved(slots, index, |slots|, bigger, placed)
    ensures Contents(bigger, placed) == Contents(slots, index) && |placed| == |index|
  {
    assert placed.Keys == index.Keys;
  }

  class FlowTable {
    const keyHash: KeyHash
    var slots: array<Option<Flow>>
    var count: nat
    ghost var index: Index

    /** A table without slots is one whose first allocation failed. */
    ghost predicate Valid()
      reads this, slots
    {
      && (slots.Length == 0 ==> index == map[])
      && (slots.Length != 0 ==> slots.Length >= MIN_CAPACITY && Indexed(slots[..], index, keyHash))
      && slots.Length * FLOW_SIZE <= SIZE_MAX
      && count == |index|
      && count * LOAD_DEN <= slots.Length * LOAD_NUM
    }

    /** What the table stands for. */
    ghost function Map(): (m: map<FlowKey, Flow>)
      requires Valid()
      reads this, slots
      ensures m.Keys == index.Keys
    {
      Contents(slots[..], index)
    }

    /** `capacity_hint` rounded up to a power of two, at least 16. */
    constructor (keyHash: KeyHash, capacityHint: nat, allocOk: bool)
      ensures Valid() && Map() == map[] && fresh(slots) && this.keyHash == keyHash
      ensures if allocOk then LeastCapacity(slots.Length, capacityHint) else slots.Length == 0
    {
      this.keyHash := keyHash;
      count := 0;
      index := map[];
      var cap := MIN_CAPACITY;
      assert cap == Pow2(4);
      while cap < capacityHint && CanDouble(cap)
        invariant MIN_CAPACITY <= cap && IsPow2(cap) && cap * FLOW_SIZE <= SIZE_MAX
        invariant forall c: nat :: IsPow2(c) && MIN_CAPACITY <= c < cap ==> c < capacityHint && CanDouble(c)
        decreases capacityHint - cap
      {
        Doubled(cap);
        forall c: nat | IsPow2(c) && cap < c
          ensures 2 * cap <= c
        {
          NextPow2(cap, c);
        }
        cap := cap * 2;
      }
      slots := new Option<Flow>[if allocOk then cap else 0](_ => None);
    }

    /** Grow before the table would be more than 70% full. */
    predicate NeedsGrowth()
      reads this
    {
      (count + 1) * LOAD_DEN > slots.Length * LOAD_NUM
    }

    /** Copies every entry into an array twice as long, comparing no keys. */
    method Grow(allocOk: bool) returns (ok: bool)
      requires Valid() && slots.Length != 0
      modifies this
      ensures Valid() && Map() == old(Map()) && count == old(count)
      ensures ok <==> allocOk && CanDouble(old(slots.Length))
      ensures ok ==> fresh(slots) && slots.Length == 2 * old(slots.Length)
      ensures !ok ==> slots == old(slots) && index == old(index)
    {
      hide Indexed, Contents, CanDouble;
      if !CanDouble(slots.Length) || !allocOk {
        return false;
      }
      DoubledFits(slots.Length);
      slots, index := Enlarge(slots, index, keyHash);
      return true;
    }

    /** The slot in which `key` lives, if it does. */
    method Find(key: FlowKey) returns (r: Option<nat>)
      requires Valid()
      ensures r.Some? <==> key in Map()
      ensures r.Some? ==> r.value < slots.Length && slots[r.value] == Some(Map()[key])
    {
      hide BitAnd, ChainsFull;
      if slots.Length == 0 {
        return None;
      }
      var n := slots.Length;
      ghost var e := SomeSlotEmpty(slots[..], index, keyHash);
      ghost var h := Home(keyHash(key), n);
      var i: nat := BitAnd(keyHash(key), n - 1);
      while slots[i].Some?
        invariant i < n && Steps(h, i, n) <= Steps(h, e, n)
        invariant forall j :: 0 <= j < n && Between(h, j, i) ==> slots[j].Some? && slots[j].value.key != key
        decreases Steps(h, e, n) - Steps(h, i, n)
      {
        if slots[i].value.key == key {
          return Some(i);
        }
        StepForward(h, i, n);
        MaskedNext(i, n);
        i := BitAnd(i + 1, n - 1);
      }
      EmptySlotEndsProbe(slots[..], index, keyHash, key, i);
      return None;
    }

    /** Walks the probe path of `key` to its entry or to the first empty slot. */
    method Probe(key: FlowKey, hash: uint64) returns (i: nat, found: bool)
      requires Valid() && slots.Length != 0 && hash == keyHash(key)
      ensures i < slots.Length && found == slots[i].Some? && found == (key in Map())
      ensures found ==> slots[i] == Some(Map()[key]) && Map()[key].key == key
      ensures !found ==> ChainFull(slots[..], Home(hash, slots.Length), i)
    {
      hide BitAnd;
      var n := slots.Length;
      ghost var e := SomeSlotEmpty(slots[..], index, keyHash);
      ghost var h := Home(hash, n);
      i := BitAnd(hash, n - 1);
      while slots[i].Some?
        invariant i < n && Steps(h, i, n) <= Steps(h, e, n)
        invariant forall j :: 0 <= j < n && Between(h, j, i) ==> slots[j].Some? && slots[j].value.key != key
        decreases Steps(h, e, n) - Steps(h, i, n)
      {
        if slots[i].value.hash == hash && slots[i].value.key == key {
          return i, true;
        }
        StepForward(h, i, n);
        MaskedNext(i, n);
        i := BitAnd(i + 1, n - 1);
      }
      EmptySlotEndsProbe(slots[..], index, keyHash, key, i);
      found := false;
    }

    /** The slot of `key`, in which an empty entry has been put if there was none. The table grows
        first when it has to, so a growth that fails is reported even for a key that is present. */
    method FindOrInsert(key: FlowKey, allocOk: bool) returns (r: Option<nat>, inserted: bool)
      requires Valid()
      modifies this, slots
      ensures Valid() && (slots == old(slots) || fresh(slots)) && slots.Length >= old(slots.Length)
      ensures r.Some? <==> old(slots.Length) != 0 &&
                           (old(NeedsGrowth()) ==> allocOk && CanDouble(old(slots.Length)))
      ensures r.None? ==> slots == old(slots) && slots[..] == old(slots[..]) && Map() == old(Map()) && !inserted
      ensures r.Some? ==> inserted == (key !in old(Map()))
      ensures r.Some? ==>
                && Map() == (if inserted then old(Map())[key := NewFlow(key, keyHash(key))] else old(Map()))
                && r.value < slots.Length && slots[r.value] == Some(Map()[key]) && Map()[key].key == key
      ensures r.Some? ==>
                slots.Length ==
                (if 10 * (old(count) + 1) > 7 * old(slots.Length) then 2 * old(slots.Length) else old(slots.Length))
    {
      hide Indexed, Contents, Home;
      if slots.Length == 0 {
        return None, false;
      }
      if NeedsGrowth() {
        var grown := Grow(allocOk);
        if !grown {
          return None, false;
        }
      }
      var hash := keyHash(key);
      var i, found := Probe(key, hash);
      if found {
        return Some(i), false;
      }
      Fill(i, NewFlow(key, hash));
      return Some(i), true;
    }

    /** Occupies the empty slot at the end of a probe path. */
    method Fill(i: nat, f: Flow)
      requires Valid() && slots.Length != 0 && !NeedsGrowth() && i < slots.Length && slots[i].None?
      requires f.key !in Map() && f.hash == keyHash(f.key)
      requires ChainFull(slots[..], Home(f.hash, slots.Length), i)
      modifies this`index, this`count, slots
      ensures Valid() && Map() == old(Map())[f.key := f] && slots[i] == Some(f)
    {
      hide Home;
      InsertKeepsIndex(slots[..], index, keyHash, f, i);
      ghost var filled, filledIndex := slots[..][i := Some(f)], index[f.key := i];
      hide Indexed, Contents, ChainFull;
      slots[i] := Some(f);
      index := index[f.key := i];
      count := count + 1;
      assert slots[..] == filled && index == filledIndex;
    }

    /** Adds one packet to the entry of its key. */
    method Account(e: Entry, allocOk: bool) returns (ok: bool)
      requires Valid()
      modifies this, slots
      ensures Valid() && (slots == old(slots) || fresh(slots)) && slots.Length >= old(slots.Length)
      ensures ok <==> old(slots.Length) != 0 && (old(NeedsGrowth()) ==> allocOk && CanDouble(old(slots.Length)))
      ensures Map() == if ok then AddEntry(old(Map()), e, keyHash) else old(Map())
    {
      hide FlowTable.Valid, FlowTable.Map;
      var r, inserted := FindOrInsert(e.key, allocOk);
      if r.None? {
        return false;
      }
      var f := slots[r.value].value;
      if inserted {
        f := f.(firstTs := e.ts, lastTs := e.ts, firstFromB := e.reversed);
      }
      if e.ts < f.firstTs {
        f := f.(firstTs := e.ts, firstFromB := e.reversed);
      }
      if e.ts > f.lastTs {
        f := f.(lastTs := e.ts);
      }
      f := f.(packets := f.packets + 1, bytes := f.bytes + e.wirelen, tcpFlags := UnionOfFlags(f.tcpFlags, e.tcpFlags));
      ghost var before := old(Map());
      ghost var start := if inserted then NewFlow(e.key, keyHash(e.key)) else before[e.key];
      assert f == Credited(start, e, inserted);
      Update(r.value, f);
      assert before[e.key := start][e.key := f] == before[e.key := f];
      return true;
    }

    /** Overwrites the counters of an entry in place. */
    method Update(i: nat, f: Flow)
      requires Valid() && i < slots.Length && slots[i].Some?
      requires f.key == slots[i].value.key && f.hash == slots[i].value.hash
      modifies slots
      ensures Valid() && Map() == old(Map())[f.key := f]
    {
      UpdateKeepsIndex(slots[..], index, keyHash, f, i);
      ghost var updated := slots[..][i := Some(f)];
      hide Indexed, Contents;
      slots[i] := Some(f);
      assert slots[..] == updated;
    }

    /** A packet without a valid IP layer is ignored. */
    method AddPacket(p: PacketInfo, wirelen: uint32, ts: uint64, allocOk: bool) returns (ok: bool)
      requires Valid()
      modifies this, slots
      ensures Valid() && (slots == old(slots) || fresh(slots)) && slots.Length >= old(slots.Length)
      ensures var e := FlowEntry(p, wirelen, ts);
              && Map() == (if ok && e.Some? then AddEntry(old(Map()), e.value, keyHash) else old(Map()))
              && (ok <==> e.None? || (old(slots.Length) != 0 &&
                                      (old(NeedsGrowth()) ==> allocOk && CanDouble(old(slots.Length)))))
    {
      hide AddEntry;
      var k := FlowKeyOf(p.l3, p.l4);
      if k.NoKey? {
        return true;
      }
      var flags: byte := 0;
      if p.l3.proto == PROTO_TCP && p.l4.present {
        flags := p.l4.tcpFlags;
      }
      ok := Account(Entry(k.key, k.reversed, flags, wirelen, ts), allocOk);
    }

    /** A packet that is not GTPv1-U is ignored. */
    method AddTunnel(p: PacketInfo, wirelen: uint32, ts: uint64, allocOk: bool) returns (ok: bool)
      requires Valid()
      modifies this, slots
      ensures Valid() && (slots == old(slots) || fresh(slots)) && slots.Length >= old(slots.Length)
      ensures var e := TunnelEntry(p, wirelen, ts);
              && Map() == (if ok && e.Some? then AddEntry(old(Map()), e.value, keyHash) else old(Map()))
              && (ok <==> e.None? || (old(slots.Length) != 0 &&
                                      (old(NeedsGrowth()) ==> allocOk && CanDouble(old(slots.Length)))))
    {
      hide AddEntry;
      var k := TunnelKeyOf(p);
      if k.None? {
        return true;
      }
      ok := Account(Entry(k.value, false, 0, wirelen, ts), allocOk);
    }

    /** The next occupied slot at or after `pos`. */
    method Next(pos: nat) returns (r: Option<Flow>, pos': nat)
      requires pos <= slots.Length
      ensures pos <= pos' <= slots.Length
      ensures r.None? ==> pos' == slots.Length
      ensures r.Some? ==> pos < pos'
      ensures Used(slots[..pos']) == Used(slots[..pos]) + (if r.Some? then [r.value] else [])
    {
      pos' := pos;
      while pos' < slots.Length
        invariant pos <= pos' <= slots.Length
        invariant Used(slots[..pos']) == Used(slots[..pos])
      {
        var f := slots[pos'];
        pos' := pos' + 1;
        assert slots[..pos'][..pos' - 1] == slots[..pos' - 1];
        if f.Some? {
          return f, pos';
        }
      }
      r := None;
    }
  }

  lemma DoubledFits(n: nat)
    requires CanDouble(n)
    ensures 2 * n * FLOW_SIZE <= SIZE_MAX
  {
  }

  /** An array twice as long with the same entries. */
  method Enlarge(slots: array<Option<Flow>>, ghost index: Index, keyHash: KeyHash)
    returns (bigger: array<Option<Flow>>, ghost placed: Index)
    requires slots.Length != 0 && |index| < slots.Length && Indexed(slots[..], index, keyHash)
    ensures fresh(bigger) && bigger.Length == 2 * slots.Length
    ensures Indexed(bigger[..], placed, keyHash) && |placed| == |index|
    ensures Contents(bigger[..], placed) == Contents(slots[..], index)
  {
    Doubled(slots.Length);
    hide KeysLive, SlotsKnown, ChainsFull, Contents;
    bigger := new Option<Flow>[2 * slots.Length](_ => None);
    placed := Rehash(slots, index, bigger, keyHash);
  }

  /** Copies the entries of an array into a bigger, empty one. */
  method Rehash(slots: array<Option<Flow>>, ghost index: Index, bigger: array<Option<Flow>>, keyHash: KeyHash)
    returns (ghost placed: Index)
    requires Indexed(slots[..], index, keyHash)
    requires slots != bigger && IsPow2(bigger.Length) && |index| < bigger.Length
    requires forall i :: 0 <= i < bigger.Length ==> bigger[i].None?
    modifies bigger
    ensures Indexed(bigger[..], placed, keyHash) && |placed| == |index|
    ensures Contents(bigger[..], placed) == Contents(slots[..], index)
  {
    hide Indexed, KeysLive, SlotsKnown, Moved, Contents;
    placed := map[];
    ghost var was := slots[..];
    NothingMoved(was, index, keyHash, bigger[..]);
    for i := 0 to slots.Length
      invariant slots[..] == was
      invariant Indexed(bigger[..], placed, keyHash) && Moved(was, index, i, bigger[..], placed)
    {
      if slots[i].Some? {
        MovedIsPart(was, index, keyHash, i, bigger[..], placed);
        ghost var before := bigger[..];
        ghost var at := Place(bigger, slots[i].value, keyHash, placed);
        MovedOne(was, index, keyHash, i, before, placed, at);
        placed := placed[slots[i].value.key := at];
      } else {
        MovedNone(was, index, i, bigger[..], placed);
      }
    }
    MovedAll(was, index, keyHash, bigger[..], placed);
  }

  /** The first free slot of a probe path. */
  method FreeSlot(bigger: array<Option<Flow>>, hash: uint64, keyHash: KeyHash, ghost placed: Index) returns (i: nat)
    requires Indexed(bigger[..], placed, keyHash) && |placed| < bigger.Length
    ensures i < bigger.Length && bigger[i].None? && ChainFull(bigger[..], Home(hash, bigger.Length), i)
  {
    hide BitAnd;
    var n := bigger.Length;
    ghost var e := SomeSlotEmpty(bigger[..], placed, keyHash);
    ghost var h := Home(hash, n);
    i := BitAnd(hash, n - 1);
    while bigger[i].Some?
      invariant i < n && Steps(h, i, n) <= Steps(h, e, n)
      invariant forall j :: 0 <= j < n && Between(h, j, i) ==> bigger[j].Some?
      decreases Steps(h, e, n) - Steps(h, i, n)
    {
      StepForward(h, i, n);
      MaskedNext(i, n);
      i := BitAnd(i + 1, n - 1);
    }
  }

  /** Puts an entry whose key is new into the first free slot of its probe path. */
  method Place(bigger: array<Option<Flow>>, f: Flow, keyHash: KeyHash, ghost placed: Index) returns (ghost at: nat)
    requires Indexed(bigger[..], placed, keyHash) && |placed| < bigger.Length
    requires f.key !in placed && f.hash == keyHash(f.key)
    modifies bigger
    ensures at < bigger.Length && bigger[..] == old(bigger[..])[at := Some(f)] && old(bigger[at]).None?
    ensures Indexed(bigger[..], placed[f.key := at], keyHash)
  {
    hide Home;
    var i := FreeSlot(bigger, f.hash, keyHash, placed);
    InsertKeepsIndex(bigger[..], placed, keyHash, f, i);
    ghost var filled := bigger[..][i := Some(f)];
    hide Indexed;
    bigger[i] := Some(f);
    assert bigger[..] == filled;
    at := i;
  }
}
