/** Open addressing with cyclic linear probing, on the slots of a table as a sequence.

    `index` says in which slot each key lives. The probe-chain invariant is that every slot from a
    key's home, cyclically, up to the slot it lives in is occupied: a probe for the key cannot meet
    an empty slot on the way. */
module Probing {
  import opened Bytes
  import opened Bits
  import opened FlowKeys

  type Slots = seq<Option<Flow>>
  type Index = map<FlowKey, nat>

  /** Is `j` one of the slots from `h` up to, but not including, `i`, going round? */
  predicate Between(h: nat, j: nat, i: nat) {
    if h <= i then h <= j < i else j >= h || j < i
  }

  /** How many steps it takes to get from `h` to `i` in a table of `n` slots. */
  function Steps(h: nat, i: nat, n: nat): (d: nat)
    requires h < n && i < n
    ensures d < n
  {
    if h <= i then i - h else i + n - h
  }

  function Next(i: nat, n: nat): (r: nat)
    requires i < n
    ensures r < n
  {
    if i + 1 == n then 0 else i + 1
  }

  function Home(hash: uint64, n: nat): (h: nat)
    requires IsPow2(n)
    ensures h < n
  {
    MaskIsRemainder(hash, n);
    BitAnd(hash, n - 1)
  }

  ghost predicate ChainFull(slots: Slots, h: nat, i: nat) {
    forall j :: 0 <= j < |slots| && Between(h, j, i) ==> slots[j].Some?
  }

  ghost predicate KeysLive(slots: Slots, index: Index) {
    forall k :: k in index ==>
      index[k] < |slots| && slots[index[k]].Some? && slots[index[k]].value.key == k
  }

  ghost predicate SlotsKnown(slots: Slots, index: Index, keyHash: KeyHash) {
    forall i :: 0 <= i < |slots| && slots[i].Some? ==>
      var f := slots[i].value; f.key in index && index[f.key] == i && f.hash == keyHash(f.key)
  }

  ghost predicate ChainsFull(slots: Slots, index: Index, keyHash: KeyHash)
    requires IsPow2(|slots|)
  {
    forall k :: k in index ==> ChainFull(slots, Home(keyHash(k), |slots|), index[k])
  }

  ghost predicate Indexed(slots: Slots, index: Index, keyHash: KeyHash) {
    IsPow2(|slots|) && KeysLive(slots, index) && SlotsKnown(slots, index, keyHash) &&
    ChainsFull(slots, index, keyHash)
  }

  /** The finite map that the table stands for. */
  ghost function Contents(slots: Slots, index: Index): (m: map<FlowKey, Flow>)
    requires KeysLive(slots, index)
    ensures m.Keys == index.Keys
  {
    map k | k in index :: slots[index[k]].value
  }

  // ----- Probing -----

  lemma StepForward(h: nat, i: nat, n: nat)
    requires h < n && i < n && Steps(h, i, n) + 1 < n
    ensures Steps(h, Next(i, n), n) == Steps(h, i, n) + 1
    ensures forall j :: 0 <= j < n ==> (Between(h, j, Next(i, n)) <==> Between(h, j, i) || j == i)
  {
  }

  /** A probe that has seen neither the key nor an empty slot, and now meets an empty slot, is
      right to conclude that the key is not there. */
  lemma EmptySlotEndsProbe(slots: Slots, index: Index, keyHash: KeyHash, key: FlowKey, i: nat)
    requires Indexed(slots, index, keyHash) && i < |slots| && slots[i].None?
    requires forall j :: 0 <= j < |slots| && Between(Home(keyHash(key), |slots|), j, i) ==>
               slots[j].Some? && slots[j].value.key != key
    ensures key !in index
  {
  }

  lemma InsertKeepsChains(slots: Slots, index: Index, keyHash: KeyHash, f: Flow, i: nat)
    requires IsPow2(|slots|) && ChainsFull(slots, index, keyHash)
    requires i < |slots| && f.hash == keyHash(f.key) && ChainFull(slots, Home(f.hash, |slots|), i)
    ensures ChainsFull(slots[i := Some(f)], index[f.key := i], keyHash)
  {
    hide Home;
    var slots', index' := slots[i := Some(f)], index[f.key := i];
    forall k | k in index'
      ensures ChainFull(slots', Home(keyHash(k), |slots'|), index'[k])
    {
      assert k != f.key ==> ChainFull(slots, Home(keyHash(k), |slots|), index[k]);
    }
  }

  lemma InsertKeepsKeys(slots: Slots, index: Index, keyHash: KeyHash, f: Flow, i: nat)
    requires KeysLive(slots, index) && SlotsKnown(slots, index, keyHash)
    requires i < |slots| && slots[i].None? && f.key !in index && f.hash == keyHash(f.key)
    ensures KeysLive(slots[i := Some(f)], index[f.key := i])
    ensures SlotsKnown(slots[i := Some(f)], index[f.key := i], keyHash)
  {
  }

  lemma InsertExtends(slots: Slots, index: Index, f: Flow, i: nat)
    requires KeysLive(slots, index) && i < |slots| && slots[i].None? && f.key !in index
    requires KeysLive(slots[i := Some(f)], index[f.key := i])
    ensures Contents(slots[i := Some(f)], index[f.key := i]) == Contents(slots, index)[f.key := f]
  {
    var m, m' := Contents(slots, index)[f.key := f], Contents(slots[i := Some(f)], index[f.key := i]);
    forall k | k in m
      ensures k in m' && m'[k] == m[k]
    {
    }
  }

  lemma OneKeyMore(index: Index, k: FlowKey, i: nat)
    requires k !in index
    ensures |index[k := i]| == |index| + 1
  {
    assert index[k := i].Keys == index.Keys + {k};
  }

  /** Filling the first empty slot on a key's probe path adds that key and disturbs no other. */
  lemma InsertKeepsIndex(slots: Slots, index: Index, keyHash: KeyHash, f: Flow, i: nat)
    requires Indexed(slots, index, keyHash) && i < |slots| && slots[i].None?
    requires f.key !in index && f.hash == keyHash(f.key)
    requires ChainFull(slots, Home(f.hash, |slots|), i)
    ensures Indexed(slots[i := Some(f)], index[f.key := i], keyHash)
    ensures Contents(slots[i := Some(f)], index[f.key := i]) == Contents(slots, index)[f.key := f]
    ensures |index[f.key := i]| == |index| + 1
  {
    hide ChainsFull, ChainFull, KeysLive, SlotsKnown, Contents, Home;
    InsertKeepsKeys(slots, index, keyHash, f, i);
    InsertKeepsChains(slots, index, keyHash, f, i);
    InsertExtends(slots, index, f, i);
    OneKeyMore(index, f.key, i);
  }

  /** Changing the counters of an entry in place moves nothing. */
  lemma UpdateKeepsIndex(slots: Slots, index: Index, keyHash: KeyHash, f: Flow, i: nat)
    requires Indexed(slots, index, keyHash) && i < |slots| && slots[i].Some?
    requires f.key == slots[i].value.key && f.hash == slots[i].value.hash
    ensures Indexed(slots[i := Some(f)], index, keyHash)
    ensures Contents(slots[i := Some(f)], index) == Contents(slots, index)[f.key := f]
  {
    var slots' := slots[i := Some(f)];
    assert KeysLive(slots', index);
    forall k | k in index
      ensures ChainFull(slots', Home(keyHash(k), |slots'|), index[k])
    {
      assert ChainFull(slots, Home(keyHash(k), |slots|), index[k]);
    }
  }

  // ----- Counting occupied slots -----

  /** The entries in slot order, which is the order of iteration. */
  function Used(slots: Slots): (fs: seq<Flow>)
    ensures |fs| <= |slots|
  {
    if slots == [] then []
    else if slots[|slots| - 1].Some? then Used(slots[..|slots| - 1]) + [slots[|slots| - 1].value]
    else Used(slots[..|slots| - 1])
  }

  ghost predicate DistinctKeys(fs: seq<Flow>) {
    forall i, j :: 0 <= i < j < |fs| ==> fs[i].key != fs[j].key
  }

  ghost function KeySet(fs: seq<Flow>): set<FlowKey> {
    set f | f in fs :: f.key
  }

  lemma {:induction false} DistinctKeysCount(fs: seq<Flow>)
    requires DistinctKeys(fs)
    ensures |KeySet(fs)| == |fs|
  {
    if fs != [] {
      var front, last := fs[..|fs| - 1], fs[|fs| - 1];
      DistinctKeysCount(front);
      assert KeySet(fs) == KeySet(front) + {last.key};
      assert last.key !in KeySet(front);
    }
  }

  lemma {:induction false} UsedMembers(slots: Slots)
    ensures forall f :: f in Used(slots) <==> Some(f) in slots
    ensures (forall i :: 0 <= i < |slots| ==> slots[i].Some?) ==> |Used(slots)| == |slots|
  {
    if slots != [] {
      UsedMembers(slots[..|slots| - 1]);
      assert slots == slots[..|slots| - 1] + [slots[|slots| - 1]];
    }
  }

  lemma {:induction false} UsedDistinct(slots: Slots, index: Index)
    requires forall i :: 0 <= i < |slots| && slots[i].Some? ==>
               slots[i].value.key in index && index[slots[i].value.key] == i
    ensures DistinctKeys(Used(slots))
  {
    if slots != [] {
      var front := slots[..|slots| - 1];
      UsedDistinct(front, index);
      UsedMembers(front);
      forall f | f in Used(front) && slots[|front|].Some?
        ensures f.key != slots[|front|].value.key
      {
        var i :| 0 <= i < |front| && front[i] == Some(f);
        assert slots[i].value.key in index;
      }
    }
  }

  /** The entries met by an iteration are exactly the values of the map, each met once. */
  lemma UsedIsContents(slots: Slots, index: Index, keyHash: KeyHash)
    requires KeysLive(slots, index) && SlotsKnown(slots, index, keyHash)
    ensures DistinctKeys(Used(slots)) && |Used(slots)| == |index|
    ensures forall f :: f in Used(slots) <==> f.key in index && Contents(slots, index)[f.key] == f
  {
    UsedDistinct(slots, index);
    UsedMembers(slots);
    DistinctKeysCount(Used(slots));
    assert KeySet(Used(slots)) == index.Keys by {
      forall k | k in index
        ensures k in KeySet(Used(slots))
      {
        assert Some(slots[index[k]].value) in slots;
      }
    }
  }

  /** The load limit leaves an empty slot, so every probe ends. */
  lemma SomeSlotEmpty(slots: Slots, index: Index, keyHash: KeyHash) returns (e: nat)
    requires KeysLive(slots, index) && SlotsKnown(slots, index, keyHash) && |index| < |slots|
    ensures e < |slots| && slots[e].None?
  {
    UsedIsContents(slots, index, keyHash);
    UsedMembers(slots);
    e :| 0 <= e < |slots| && slots[e].None?;
  }
}
