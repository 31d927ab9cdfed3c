/** Selecting the largest flows with a bounded min-heap, and counting distinct TEIDs. */
module TopFlows {
  import opened Accounting
  import opened Bytes
  import opened Collections
  import opened FlowKeys
  import opened FlowTables
  import opened Probing
  import opened Sorting

  /** `a` is not listed after `b`. */
  predicate NotAfter(a: Flow, b: Flow) {
    RankCmp(a, b) <= 0
  }

  lemma RankIsPreorder()
    ensures TotalPreorder(NotAfter)
  {
    forall a: Flow, b: Flow
      ensures NotAfter(a, b) || NotAfter(b, a)
    {
      BeforeTotal(a, b);
    }
    forall a: Flow, b: Flow, c: Flow | NotAfter(a, b) && NotAfter(b, c)
      ensures NotAfter(a, c)
    {
      NotAfterTransitive(a, b, c);
    }
  }

  lemma NotAfterTransitive(a: Flow, b: Flow, c: Flow)
    requires NotAfter(a, b) && NotAfter(b, c)
    ensures NotAfter(a, c)
  {
    hide KeyCmp, LexCmp;
    RankCmpIsLex(a, b);
    RankCmpIsLex(b, c);
    RankCmpIsLex(a, c);
    LexZero(RankVector(a), RankVector(b));
    LexZero(RankVector(b), RankVector(c));
    if RankCmp(a, b) < 0 && RankCmp(b, c) < 0 {
      LexTransitive(RankVector(a), RankVector(b), RankVector(c));
    }
  }

  // ----- The heap -----

  function Parent(i: nat): nat
    requires i > 0
  {
    (i - 1) / 2
  }

  /** The root is the lowest-ranked flow: no parent is listed before its child. */
  ghost predicate IsHeap(h: seq<Flow>) {
    forall i :: 0 < i < |h| ==> NotAfter(h[i], h[Parent(i)])
  }

  lemma {:induction false} RootIsLast(h: seq<Flow>, i: nat)
    requires IsHeap(h) && i < |h|
    ensures NotAfter(h[i], h[0])
  {
    if i > 0 {
      RootIsLast(h, Parent(i));
      NotAfterTransitive(h[i], h[Parent(i)], h[0]);
    } else {
      BeforeTotal(h[0], h[0]);
    }
  }

  /** A heap except that `i` may have to move up. */
  ghost predicate HeapAbove(h: seq<Flow>, i: nat) {
    && (forall j :: 0 < j < |h| && j != i ==> NotAfter(h[j], h[Parent(j)]))
    && (forall j :: 0 < j < |h| && Parent(j) == i && i > 0 ==> NotAfter(h[j], h[Parent(i)]))
  }

  /** A heap except that `i` may have to move down. */
  ghost predicate HeapBelow(h: seq<Flow>, i: nat) {
    && (forall j :: 0 < j < |h| && Parent(j) != i ==> NotAfter(h[j], h[Parent(j)]))
    && (forall j :: 0 < j < |h| && Parent(j) == i && i > 0 ==> NotAfter(h[j], h[Parent(i)]))
  }

  function Swap(h: seq<Flow>, i: nat, j: nat): (r: seq<Flow>)
    requires i < |h| && j < |h|
  {
    h[i := h[j]][j := h[i]]
  }

  lemma SwapUp(h: seq<Flow>, i: nat)
    requires 0 < i < |h| && HeapAbove(h, i) && !NotAfter(h[i], h[Parent(i)])
    ensures HeapAbove(Swap(h, i, Parent(i)), Parent(i))
  {
    var p, g := Parent(i), Swap(h, i, Parent(i));
    BeforeTotal(h[i], h[p]);
    forall j | 0 < j < |g| && j != p
      ensures NotAfter(g[j], g[Parent(j)])
    {
      if Parent(j) == p && j != i {
        NotAfterTransitive(h[j], h[p], h[i]);
      }
    }
    forall j | 0 < j < |g| && Parent(j) == p && p > 0
      ensures NotAfter(g[j], g[Parent(p)])
    {
      if j != i {
        NotAfterTransitive(h[j], h[p], h[Parent(p)]);
      }
    }
  }

  /** `low` is a child of `i` and, of `i` and its children, the lowest-ranked. */
  lemma SwapDown(h: seq<Flow>, i: nat, low: nat)
    requires i < low < |h| && Parent(low) == i && HeapBelow(h, i) && NotAfter(h[i], h[low])
    requires forall j :: 0 < j < |h| && Parent(j) == i ==> NotAfter(h[j], h[low])
    ensures HeapBelow(Swap(h, i, low), low)
  {
    var g := Swap(h, i, low);
    forall j | 0 < j < |g| && Parent(j) != low
      ensures NotAfter(g[j], g[Parent(j)])
    {
    }
  }

  /** The lowest-ranked of `i` and its children. */
  method LowestOfThree(heap: array<Flow>, n: nat, i: nat) returns (low: nat)
    requires i < n <= heap.Length
    ensures low == i || (i < low < n && Parent(low) == i && NotAfter(heap[i], heap[low]))
    ensures forall j :: 0 < j < n && Parent(j) == i ==> NotAfter(heap[j], heap[low])
  {
    hide RankCmp;
    var l, r := 2 * i + 1, 2 * i + 2;
    low := i;
    if l < n && !NotAfter(heap[l], heap[low]) {
      BeforeTotal(heap[l], heap[low]);
      low := l;
    }
    BeforeTotal(heap[low], heap[low]);
    if r < n && !NotAfter(heap[r], heap[low]) {
      BeforeTotal(heap[r], heap[low]);
      if low == l {
        NotAfterTransitive(heap[i], heap[l], heap[r]);
      } else if l < n {
        NotAfterTransitive(heap[l], heap[i], heap[r]);
      }
      low := r;
    }
    BeforeTotal(heap[low], heap[low]);
    assert forall j :: j > 0 && Parent(j) == i ==> j == l || j == r;
  }

  lemma SwapKeeps(h: seq<Flow>, i: nat, j: nat)
    requires i < |h| && j < |h|
    ensures multiset(Swap(h, i, j)) == multiset(h) && |Swap(h, i, j)| == |h|
  {
  }

  /** Nothing has to move any more. */
  lemma SettledAbove(h: seq<Flow>, i: nat)
    requires i < |h| && HeapAbove(h, i) && (i == 0 || NotAfter(h[i], h[Parent(i)]))
    ensures IsHeap(h)
  {
  }

  lemma SettledBelow(h: seq<Flow>, i: nat)
    requires i < |h| && HeapBelow(h, i)
    requires forall j :: 0 < j < |h| && Parent(j) == i ==> NotAfter(h[j], h[i])
    ensures IsHeap(h)
  {
  }

  lemma NewLeaf(h: seq<Flow>, f: Flow)
    requires IsHeap(h)
    ensures HeapAbove(h + [f], |h|)
  {
  }

  lemma NothingBelow(h: seq<Flow>, i: nat)
    requires HeapBelow(h, i) && i >= |h|
    ensures IsHeap(h)
  {
  }

  method SiftDown(heap: array<Flow>, n: nat, start: nat)
    requires n <= heap.Length && HeapBelow(heap[..n], start)
    modifies heap
    ensures IsHeap(heap[..n]) && multiset(heap[..n]) == multiset(old(heap[..n]))
    ensures heap[n..] == old(heap[n..])
  {
    hide RankCmp, NotAfter, HeapBelow, IsHeap;
    if start >= n {
      NothingBelow(heap[..n], start);
      return;
    }
    var i := start;
    while true
      invariant i < n && HeapBelow(heap[..n], i)
      invariant multiset(heap[..n]) == multiset(old(heap[..n])) && heap[n..] == old(heap[n..])
      decreases n - i
    {
      ghost var h := heap[..n];
      var low := LowestOfThree(heap, n, i);
      if low == i {
        SettledBelow(h, i);
        return;
      }
      SwapDown(h, i, low);
      SwapKeeps(h, i, low);
      heap[i], heap[low] := heap[low], heap[i];
      assert heap[..n] == Swap(h, i, low);
      i := low;
    }
  }

  method SiftUp(heap: array<Flow>, start: nat)
    requires start < heap.Length && IsHeap(heap[..start])
    modifies heap
    ensures IsHeap(heap[..start + 1]) && multiset(heap[..start + 1]) == multiset(old(heap[..start + 1]))
    ensures heap[start + 1..] == old(heap[start + 1..])
  {
    hide RankCmp, NotAfter, HeapAbove, IsHeap;
    var i: nat, n := start, start + 1;
    NewLeaf(heap[..start], heap[start]);
    assert heap[..n] == heap[..start] + [heap[start]];
    while i > 0
      invariant i < n && HeapAbove(heap[..n], i)
      invariant multiset(heap[..n]) == multiset(old(heap[..n])) && heap[n..] == old(heap[n..])
    {
      ghost var h := heap[..n];
      if NotAfter(heap[i], heap[Parent(i)]) {
        SettledAbove(h, i);
        return;
      }
      var p := Parent(i);
      SwapUp(h, i);
      SwapKeeps(h, i, p);
      heap[i], heap[p] := heap[p], heap[i];
      assert heap[..n] == Swap(h, i, p);
      i := p;
    }
    SettledAbove(heap[..n], i);
  }

  // ----- The selection -----

  /** The full descending order of a table's flows. */
  ghost predicate IsRanking(r: seq<Flow>, m: FlowMap) {
    && (forall i, j :: 0 <= i < j < |r| ==> Before(r[i], r[j]))
    && (forall f :: f in r <==> f.key in m && m[f.key] == f)
    && |r| == |m|
  }

  /** There is only one, so it cannot depend on where the flows lie in the table. */
  lemma {:induction false} RankingUnique(r: seq<Flow>, r': seq<Flow>, m: FlowMap)
    requires IsRanking(r, m) && IsRanking(r', m)
    ensures r == r'
  {
    hide RankCmp;
    RankedIsSorted(r);
    RankedIsSorted(r');
    DistinctSameMembers(r, r');
    SortedUnique(r, r', NotAfter);
  }

  /** Asking for fewer flows gives the start of the answer to asking for more. */
  lemma SmallerAnswerIsPrefix(r: seq<Flow>, r': seq<Flow>, m: FlowMap, a: nat, b: nat)
    requires IsRanking(r, m) && IsRanking(r', m) && a <= b
    ensures r[..Min(a, |m|)] <= r'[..Min(b, |m|)]
  {
    hide RankCmp;
    RankingUnique(r, r', m);
  }

  lemma RankedIsSorted(r: seq<Flow>)
    requires forall i, j :: 0 <= i < j < |r| ==> Before(r[i], r[j])
    ensures Sorted(r, NotAfter)
    ensures forall f :: f in r ==> multiset(r)[f] == 1
    ensures forall x, y :: x in r && y in r && NotAfter(x, y) && NotAfter(y, x) ==> x == y
  {
    forall x, y | x in r && y in r && NotAfter(x, y) && NotAfter(y, x)
      ensures x == y
    {
      var i :| 0 <= i < |r| && r[i] == x;
      var j :| 0 <= j < |r| && r[j] == y;
      BeforeTotal(x, y);
    }
    forall f | f in r
      ensures multiset(r)[f] == 1
    {
      var i :| 0 <= i < |r| && r[i] == f;
      WithoutAt(r, i);
      var rest := r[..i] + r[i + 1..];
      BeforeTotal(f, f);
      assert f !in rest;
    }
  }

  lemma DistinctSameMembers(a: seq<Flow>, b: seq<Flow>)
    requires forall f :: f in a ==> multiset(a)[f] == 1
    requires forall f :: f in b ==> multiset(b)[f] == 1
    requires forall f :: f in a <==> f in b
    ensures multiset(a) == multiset(b)
  {
    forall f: Flow
      ensures multiset(a)[f] == multiset(b)[f]
    {
      assert f in a <==> f in multiset(a);
      assert f in b <==> f in multiset(b);
    }
  }

  /** Everything kept is listed before everything that was dropped. */
  ghost predicate KeptBeatDropped(kept: seq<Flow>, dropped: seq<Flow>) {
    forall h, d :: h in kept && d in dropped ==> Before(h, d)
  }

  /** The state of the selection after the flows `seen`. */
  ghost predicate Selected(heap: seq<Flow>, dropped: seq<Flow>, seen: seq<Flow>, n: nat) {
    && IsHeap(heap)
    && multiset(heap) + multiset(dropped) == multiset(seen)
    && |heap| == Min(n, |seen|)
    && KeptBeatDropped(heap, dropped)
  }

  /** Sorting what was kept, then what was dropped, sorts everything seen. */
  lemma SelectionIsPrefix(heap: seq<Flow>, dropped: seq<Flow>, seen: seq<Flow>, n: nat)
    requires Selected(heap, dropped, seen, n) && DistinctKeys(seen)
    ensures Sort(heap, NotAfter) <= Sort(seen, NotAfter)
  {
    hide RankCmp, IsHeap;
    RankIsPreorder();
    SortSorts(heap, NotAfter);
    SortSorts(dropped, NotAfter);
    SortSorts(seen, NotAfter);
    var a, b, c := Sort(heap, NotAfter), Sort(dropped, NotAfter), Sort(seen, NotAfter);
    assert multiset(a + b) == multiset(c);
    JoinSorted(a, b, heap, dropped);
    NoTies(seen);
    SameMembers(c, seen);
    SortedUnique(c, a + b, NotAfter);
  }

  lemma JoinSorted(a: seq<Flow>, b: seq<Flow>, heap: seq<Flow>, dropped: seq<Flow>)
    requires Sorted(a, NotAfter) && Sorted(b, NotAfter) && KeptBeatDropped(heap, dropped)
    requires multiset(a) == multiset(heap) && multiset(b) == multiset(dropped)
    ensures Sorted(a + b, NotAfter)
  {
    SameMembers(a, heap);
    SameMembers(b, dropped);
    assert forall i :: 0 <= i < |a| ==> a[i] in heap;
    assert forall j :: 0 <= j < |b| ==> b[j] in dropped;
  }

  lemma NoTies(s: seq<Flow>)
    requires DistinctKeys(s)
    ensures forall x, y :: x in s && y in s && NotAfter(x, y) && NotAfter(y, x) ==> x == y
  {
    forall x, y | x in s && y in s && NotAfter(x, y) && NotAfter(y, x)
      ensures x == y
    {
      BeforeTotal(x, y);
      var i :| 0 <= i < |s| && s[i] == x;
      var j :| 0 <= j < |s| && s[j] == y;
    }
  }

  /** The sorted flows of a table are its ranking. */
  lemma SortedIsRanking(seen: seq<Flow>, m: FlowMap)
    requires DistinctKeys(seen) && |seen| == |m|
    requires forall f :: f in seen <==> f.key in m && m[f.key] == f
    ensures IsRanking(Sort(seen, NotAfter), m)
  {
    RankIsPreorder();
    SortSorts(seen, NotAfter);
    hide Sort, TotalPreorder, DistinctKeys, NotAfter, RankCmp, IsRanking;
    ArrangedIsRanking(Sort(seen, NotAfter), seen, m);
  }

  lemma ArrangedIsRanking(r: seq<Flow>, seen: seq<Flow>, m: FlowMap)
    requires Sorted(r, NotAfter) && multiset(r) == multiset(seen) && DistinctKeys(seen) && |seen| == |m|
    requires forall f :: f in seen <==> f.key in m && m[f.key] == f
    ensures IsRanking(r, m)
  {
    hide DistinctKeys, NotAfter, RankCmp, Sorted;
    SameMembers(r, seen);
    SortedIsStrict(r, seen);
  }

  lemma SortedIsStrict(r: seq<Flow>, seen: seq<Flow>)
    requires Sorted(r, NotAfter) && multiset(r) == multiset(seen) && DistinctKeys(seen)
    ensures forall i, j :: 0 <= i < j < |r| ==> Before(r[i], r[j])
  {
    hide RankCmp, DistinctKeys;
    forall i, j | 0 <= i < j < |r|
      ensures Before(r[i], r[j])
    {
      SortedKeepsDistinct(seen, r, i, j);
      BeforeTotal(r[i], r[j]);
      assert NotAfter(r[i], r[j]);
    }
  }

  lemma DistinctOnce(s: seq<Flow>, x: Flow)
    requires DistinctKeys(s)
    ensures multiset(s)[x] <= 1
  {
    if x in s {
      var i :| 0 <= i < |s| && s[i] == x;
      WithoutAt(s, i);
      assert x !in s[..i] + s[i + 1..];
    }
  }

  lemma SortedKeepsDistinct(s: seq<Flow>, r: seq<Flow>, i: nat, j: nat)
    requires DistinctKeys(s) && multiset(r) == multiset(s) && i < j < |r|
    ensures r[i].key != r[j].key
  {
    SameMembers(r, s);
    assert r[i] in r && r[j] in r;
    var p :| 0 <= p < |s| && s[p] == r[i];
    var q :| 0 <= q < |s| && s[q] == r[j];
    DistinctOnce(s, r[i]);
    WithoutAt(r, i);
    var rest := r[..i] + r[i + 1..];
    assert rest[j - 1] == r[j];
    assert multiset(rest)[r[i]] == 0;
    assert r[i] !in rest;
  }

  // ----- One step of the selection -----

  lemma NothingDropped(heap: seq<Flow>, dropped: seq<Flow>, seen: seq<Flow>, n: nat)
    requires Selected(heap, dropped, seen, n) && |heap| < n
    ensures dropped == [] && |seen| == |heap|
  {
    assert |multiset(heap) + multiset(dropped)| == |multiset(seen)|;
  }

  lemma KeepMore(heap: seq<Flow>, heap': seq<Flow>, dropped: seq<Flow>, seen: seq<Flow>, f: Flow, n: nat)
    requires Selected(heap, dropped, seen, n) && |heap| < n
    requires IsHeap(heap') && multiset(heap') == multiset(heap) + multiset{f}
    ensures Selected(heap', dropped, seen + [f], n)
  {
    hide IsHeap;
    NothingDropped(heap, dropped, seen, n);
    assert |multiset(heap')| == |heap| + 1;
  }

  /** All other flows in the heap are listed before its root. */
  lemma RootIsWeakest(heap: seq<Flow>, h: Flow)
    requires IsHeap(heap) && h in heap && h != heap[0]
    requires forall x, y :: x in heap && y in heap && x.key == y.key ==> x == y
    ensures Before(h, heap[0])
  {
    var i :| 0 <= i < |heap| && heap[i] == h;
    RootIsLast(heap, i);
    assert heap[0] in heap;
    BeforeTotal(h, heap[0]);
  }

  lemma KeptAreDistinct(heap: seq<Flow>, dropped: seq<Flow>, seen: seq<Flow>)
    requires multiset(heap) + multiset(dropped) == multiset(seen) && DistinctKeys(seen)
    ensures forall x, y :: x in heap && y in heap && x.key == y.key ==> x == y
    ensures forall x :: x in heap || x in dropped <==> x in seen
  {
    SameMembers(heap + dropped, seen);
    forall x, y | x in heap && y in heap && x.key == y.key
      ensures x == y
    {
      assert x in heap + dropped && y in heap + dropped;
      var i :| 0 <= i < |seen| && seen[i] == x;
      var j :| 0 <= j < |seen| && seen[j] == y;
    }
  }

  /** A flow that is not listed before the root is dropped. */
  lemma DropNew(heap: seq<Flow>, dropped: seq<Flow>, seen: seq<Flow>, f: Flow, n: nat)
    requires Selected(heap, dropped, seen, n) && |heap| == n > 0 && DistinctKeys(seen + [f])
    requires !Before(f, heap[0])
    ensures Selected(heap, dropped + [f], seen + [f], n)
  {
    hide RankCmp;
    assert seen == (seen + [f])[..|seen|];
    KeptAreDistinct(heap, dropped, seen);
    forall h | h in heap
      ensures Before(h, f)
    {
      NewKey(seen, f, heap[0]);
      BeforeTotal(f, heap[0]);
      if h != heap[0] {
        RootIsWeakest(heap, h);
        BeforeTransitive(h, heap[0], f);
      }
    }
  }

  lemma NewKey(seen: seq<Flow>, f: Flow, h: Flow)
    requires DistinctKeys(seen + [f]) && h in seen
    ensures h.key != f.key
  {
    var i :| 0 <= i < |seen| && seen[i] == h;
    assert (seen + [f])[i] == h && (seen + [f])[|seen|] == f;
  }

  /** A flow listed before the root takes its place. */
  lemma ReplaceRoot(heap: seq<Flow>, heap': seq<Flow>, dropped: seq<Flow>, seen: seq<Flow>, f: Flow, n: nat)
    requires Selected(heap, dropped, seen, n) && |heap| == n > 0 && DistinctKeys(seen + [f])
    requires Before(f, heap[0]) && IsHeap(heap') && multiset(heap') == multiset(heap[0 := f])
    ensures Selected(heap', dropped + [heap[0]], seen + [f], n)
  {
    hide RankCmp;
    var root, others := heap[0], heap[1..];
    assert heap == [root] + others && heap[0 := f] == [f] + others;
    assert multiset(heap') == multiset{f} + multiset(others);
    assert |multiset(heap')| == |heap|;
    assert seen == (seen + [f])[..|seen|];
    KeptAreDistinct(heap, dropped, seen);
    SameMembers(heap', heap[0 := f]);
    WithoutTwice(seen, heap, dropped);
    hide IsHeap, DistinctKeys;
    forall h | h in heap'
      ensures Before(h, root)
    {
      assert h == f || h in others;
      if h != f {
        RootIsWeakest(heap, h);
      }
    }
    assert root in heap;
    BeatingTheRoot(heap', root, dropped);
  }

  lemma BeatingTheRoot(heap': seq<Flow>, root: Flow, dropped: seq<Flow>)
    requires forall h :: h in heap' ==> Before(h, root)
    requires forall d :: d in dropped ==> Before(root, d)
    ensures KeptBeatDropped(heap', dropped + [root])
  {
    hide RankCmp;
    forall h, d | h in heap' && d in dropped + [root]
      ensures Before(h, d)
    {
      if d != root {
        BeforeTransitive(h, root, d);
      }
    }
  }

  /** The root is met only once in the heap. */
  lemma WithoutTwice(seen: seq<Flow>, heap: seq<Flow>, dropped: seq<Flow>)
    requires multiset(heap) + multiset(dropped) == multiset(seen) && DistinctKeys(seen) && heap != []
    ensures heap[0] !in heap[1..]
  {
    var x := heap[0];
    assert heap == [x] + heap[1..];
    DistinctOnce(seen, x);
    assert multiset(heap[1..])[x] == 0;
  }

  lemma TableRanking(t: FlowTable)
    requires t.Valid()
    ensures IsRanking(Sort(Used(t.slots[..]), NotAfter), t.Map()) && |Used(t.slots[..])| == t.count
    ensures DistinctKeys(Used(t.slots[..]))
    ensures forall p :: 0 <= p <= t.slots.Length ==> DistinctKeys(Used(t.slots[..p]))
  {
    var slots := t.slots[..];
    if slots == [] {
      assert IsRanking([], t.Map());
    } else {
      UsedIsContents(slots, t.index, t.keyHash);
      SortedIsRanking(Used(slots), t.Map());
      forall p | 0 <= p <= |slots|
        ensures DistinctKeys(Used(t.slots[..p]))
      {
        assert t.slots[..p] == slots[..p];
        UsedDistinct(slots[..p], t.index);
      }
    }
  }

  lemma HeapWithNewRoot(heap: seq<Flow>, f: Flow)
    requires IsHeap(heap) && heap != []
    ensures HeapBelow(heap[0 := f], 0)
  {
  }

  lemma SelectedCount(heap: seq<Flow>, dropped: seq<Flow>, seen: seq<Flow>, n: nat)
    requires Selected(heap, dropped, seen, n)
    ensures IsHeap(heap) && |heap| == Min(n, |seen|)
  {
  }

  /** Takes one more flow into account. */
  method Offer(out: array<Flow>, kept: nat, f: Flow, n: nat, ghost dropped: seq<Flow>, ghost seen: seq<Flow>)
    returns (kept': nat, ghost dropped': seq<Flow>)
    requires 0 < n <= out.Length && kept <= n && Selected(out[..kept], dropped, seen, n)
    requires DistinctKeys(seen + [f])
    modifies out
    ensures kept' <= n && Selected(out[..kept'], dropped', seen + [f], n)
  {
    hide RankCmp, IsHeap, Selected, DistinctKeys, HeapBelow;
    ghost var heap := out[..kept];
    SelectedCount(heap, dropped, seen, n);
    if kept < n {
      NothingDropped(heap, dropped, seen, n);
      out[kept] := f;
      assert out[..kept] == heap && out[..kept + 1] == heap + [f];
      SiftUp(out, kept);
      KeepMore(heap, out[..kept + 1], dropped, seen, f, n);
      return kept + 1, dropped;
    }
    assert |heap| == n;
    if RankCmp(f, out[0]) < 0 {
      assert Before(f, heap[0]);
      HeapWithNewRoot(heap, f);
      out[0] := f;
      assert out[..kept] == heap[0 := f];
      SiftDown(out, kept, 0);
      ReplaceRoot(heap, out[..kept], dropped, seen, f, n);
      return kept, dropped + [heap[0]];
    }
    assert !Before(f, heap[0]);
    DropNew(heap, dropped, seen, f, n);
    return kept, dropped + [f];
  }

  /** The library's sort, applied to the first `kept` cells. */
  method SortPrefix(out: array<Flow>, kept: nat)
    requires kept <= out.Length
    modifies out
    ensures out[..kept] == Sort(old(out[..kept]), NotAfter)
  {
    var sorted := Sort(out[..kept], NotAfter);
    for i := 0 to kept
      invariant out[..i] == sorted[..i]
    {
      out[i] := sorted[i];
    }
  }

  /** Offers every flow of the table to the heap. */
  method Select(t: FlowTable, n: nat, out: array<Flow>) returns (kept: nat, ghost dropped: seq<Flow>)
    requires 0 < n <= out.Length
    requires forall p :: 0 <= p <= t.slots.Length ==> DistinctKeys(Used(t.slots[..p]))
    modifies out
    ensures kept == Min(n, |Used(t.slots[..])|) && Selected(out[..kept], dropped, Used(t.slots[..]), n)
  {
    hide RankCmp, Selected, DistinctKeys;
    ghost var slots := t.slots[..];
    kept, dropped := 0, [];
    var pos := 0;
    NothingSelected(n);
    assert out[..0] == [] && slots[..0] == [];
    while true
      invariant pos <= t.slots.Length && kept <= n && t.slots[..] == slots
      invariant Selected(out[..kept], dropped, Used(slots[..pos]), n)
      decreases t.slots.Length - pos
    {
      var f, pos' := t.Next(pos);
      assert t.slots[..pos'] == slots[..pos'] && t.slots[..pos] == slots[..pos];
      if f.None? {
        assert slots[..pos'] == slots && Used(slots[..pos]) + [] == Used(slots[..pos]);
        SelectedCount(out[..kept], dropped, Used(slots), n);
        return;
      }
      kept, dropped := Offer(out, kept, f.value, n, dropped, Used(slots[..pos]));
      pos := pos';
    }
  }

  lemma NothingSelected(n: nat)
    ensures Selected([], [], Used([]), n)
  {
  }

  /** Fills `out` with the flows that come first, in order. */
  method TopN(t: FlowTable, n: nat, out: array<Flow>) returns (kept: nat, ghost ranking: seq<Flow>)
    requires t.Valid() && n <= out.Length
    modifies out
    ensures IsRanking(ranking, t.Map())
    ensures kept == Min(n, t.count) && out[..kept] == ranking[..kept]
  {
    hide NotAfter, Selected, FlowTable.Valid, FlowTable.Map, IsRanking, DistinctKeys, Sort, Used;
    ghost var seen := Used(t.slots[..]);
    ranking := Sort(seen, NotAfter);
    TableRanking(t);
    if n == 0 {
      return 0, ranking;
    }
    ghost var dropped;
    kept, dropped := Select(t, n, out);
    SelectionIsPrefix(out[..kept], dropped, seen, n);
    SortPrefix(out, kept);
  }

  // ----- Distinct TEIDs -----

  predicate AtMost(a: uint32, b: uint32) {
    a <= b
  }

  /** How many positions differ from the one before. */
  function RunStarts(s: seq<uint32>): nat {
    if s == [] then 0
    else RunStarts(s[..|s| - 1]) + (if |s| == 1 || s[|s| - 1] != s[|s| - 2] then 1 else 0)
  }

  ghost function Values(s: seq<uint32>): set<uint32> {
    set x | x in s
  }

  lemma {:induction false} RunStartsCountValues(s: seq<uint32>)
    requires Sorted(s, AtMost)
    ensures RunStarts(s) == |Values(s)|
  {
    hide Sorted, AtMost;
    if s != [] {
      var front, last := s[..|s| - 1], s[|s| - 1];
      SortedFront(s);
      RunStartsCountValues(front);
      assert Values(s) == Values(front) + {last};
      NewValue(s);
    }
  }

  lemma SortedFront(s: seq<uint32>)
    requires Sorted(s, AtMost) && s != []
    ensures Sorted(s[..|s| - 1], AtMost)
  {
  }

  /** In a sorted sequence the last value is new exactly when it differs from the one before. */
  lemma NewValue(s: seq<uint32>)
    requires Sorted(s, AtMost) && s != []
    ensures s[|s| - 1] in Values(s[..|s| - 1]) <==> |s| > 1 && s[|s| - 1] == s[|s| - 2]
  {
    var front, last := s[..|s| - 1], s[|s| - 1];
    if |s| > 1 {
      assert front[|front| - 1] == s[|s| - 2];
      if last != s[|s| - 2] {
        BelowLast(front);
        assert AtMost(s[|s| - 2], last);
      }
    }
  }

  lemma BelowLast(s: seq<uint32>)
    requires Sorted(s, AtMost)
    ensures forall i :: 0 <= i < |s| ==> AtMost(s[i], s[|s| - 1])
  {
  }

  function Teids(fs: seq<Flow>): (ts: seq<uint32>)
    ensures |ts| == |fs|
  {
    if fs == [] then [] else Teids(fs[..|fs| - 1]) + [fs[|fs| - 1].key.teid]
  }

  lemma {:induction false} TeidsAt(fs: seq<Flow>, i: nat)
    requires i < |fs|
    ensures Teids(fs)[i] == fs[i].key.teid
  {
    if i < |fs| - 1 {
      TeidsAt(fs[..|fs| - 1], i);
    }
  }

  ghost function TeidsOf(m: FlowMap): set<uint32> {
    set k | k in m :: k.teid
  }

  lemma TeidsOfTable(t: FlowTable)
    requires t.Valid()
    ensures Values(Teids(Used(t.slots[..]))) == TeidsOf(t.Map()) && |Used(t.slots[..])| == t.count
  {
    hide Teids;
    var fs := Used(t.slots[..]);
    if t.slots.Length == 0 {
      assert fs == [];
    } else {
      UsedIsContents(t.slots[..], t.index, t.keyHash);
      assert KeysLive(t.slots[..], t.index);
      hide Indexed;
      forall x | x in TeidsOf(t.Map())
        ensures x in Teids(fs)
      {
        var k :| k in t.Map() && k.teid == x;
        assert t.Map()[k] in fs;
        var i :| 0 <= i < |fs| && fs[i] == t.Map()[k];
        TeidsAt(fs, i);
      }
      forall x | x in Teids(fs)
        ensures x in TeidsOf(t.Map())
      {
        var i :| 0 <= i < |fs| && Teids(fs)[i] == x;
        TeidsAt(fs, i);
        assert fs[i] in fs;
      }
    }
  }

  /** Counts the different TEIDs in a table by sorting them and counting run starts. */
  method DistinctTeids(t: FlowTable, allocOk: bool) returns (ok: bool, distinct: nat)
    requires t.Valid()
    ensures ok <==> t.count == 0 || allocOk
    ensures distinct == if ok then |TeidsOf(t.Map())| else 0
    ensures ok ==> distinct == |set k | k in t.Map() :: k.teid|
  {
    hide FlowTable.Valid, FlowTable.Map, Used, Sort, RunStarts, Values;
    TeidsOfTable(t);
    if t.count == 0 {
      assert Values(Teids(Used(t.slots[..]))) == {} by {
        NoTeids(Used(t.slots[..]));
      }
      return true, 0;
    }
    if !allocOk {
      return false, 0;
    }
    var teids := CollectTeids(t);
    DistinctAfterSort(teids);
    distinct := CountRuns(Sort(teids, AtMost));
    return true, distinct;
  }

  lemma DistinctAfterSort(teids: seq<uint32>)
    ensures RunStarts(Sort(teids, AtMost)) == |Values(teids)|
  {
    hide Sort;
    SortSorts(teids, AtMost);
    SameMembers(Sort(teids, AtMost), teids);
    assert Values(Sort(teids, AtMost)) == Values(teids);
    RunStartsCountValues(Sort(teids, AtMost));
  }

  lemma NoTeids(fs: seq<Flow>)
    requires fs == []
    ensures Values(Teids(fs)) == {}
  {
  }

  method CountRuns(sorted: seq<uint32>) returns (distinct: nat)
    ensures distinct == RunStarts(sorted)
  {
    distinct := 0;
    for i := 0 to |sorted|
      invariant distinct == RunStarts(sorted[..i])
    {
      assert sorted[..i + 1][..i] == sorted[..i];
      if i == 0 || sorted[i] != sorted[i - 1] {
        distinct := distinct + 1;
      }
    }
    assert sorted[..|sorted|] == sorted;
  }

  method CollectTeids(t: FlowTable) returns (teids: seq<uint32>)
    ensures teids == Teids(Used(t.slots[..]))
  {
    teids := [];
    var pos := 0;
    assert t.slots[..0] == [];
    while true
      invariant pos <= t.slots.Length && teids == Teids(Used(t.slots[..pos]))
      decreases t.slots.Length - pos
    {
      var f, pos' := t.Next(pos);
      if f.None? {
        assert t.slots[..pos'] == t.slots[..];
        assert Used(t.slots[..pos]) + [] == Used(t.slots[..pos]);
        return;
      }
      assert (Used(t.slots[..pos]) + [f.value])[..|Used(t.slots[..pos])|] == Used(t.slots[..pos]);
      teids := teids + [f.value.key.teid];
      pos := pos';
    }
  }
}
