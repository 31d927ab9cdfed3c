/** Facts about sequences, sets and multisets that several components need. */
module Collections {

  lemma SameMembers<T>(a: seq<T>, b: seq<T>)
    requires multiset(a) == multiset(b)
    ensures forall x :: x in a <==> x in b
    ensures |a| == |b|
  {
    assert forall x :: x in a <==> x in multiset(a);
    assert forall x :: x in b <==> x in multiset(b);
    assert |multiset(a)| == |multiset(b)|;
  }

  lemma Fewer<T>(a: set<T>, b: set<T>)
    requires a <= b
    ensures |a| <= |b|
  {
    assert b == a + (b - a);
  }

  lemma SameAfterRemoval<T>(m: multiset<T>, m': multiset<T>, x: T)
    requires m + multiset{x} == m' + multiset{x}
    ensures m == m'
  {
    assert m == (m + multiset{x}) - multiset{x};
    assert m' == (m' + multiset{x}) - multiset{x};
  }

  lemma WithoutAt<T>(b: seq<T>, i: nat)
    requires i < |b|
    ensures multiset(b) == multiset(b[..i] + b[i + 1..]) + multiset{b[i]}
  {
    assert b == b[..i] + ([b[i]] + b[i + 1..]);
  }

  lemma DropSameLast<T>(a: seq<T>, b: seq<T>)
    requires multiset(a) == multiset(b) && a != [] && b != [] && a[|a| - 1] == b[|b| - 1]
    ensures multiset(a[..|a| - 1]) == multiset(b[..|b| - 1])
  {
    var a', b', x := a[..|a| - 1], b[..|b| - 1], a[|a| - 1];
    assert a == a' + [x] && b == b' + [x];
    assert multiset(a') + multiset{x} == multiset(b') + multiset{x};
    SameAfterRemoval(multiset(a'), multiset(b'), x);
  }

  /** Where the last element of `a` sits in a permutation `b` of it. */
  lemma FindLast<T>(a: seq<T>, b: seq<T>) returns (i: nat)
    requires a != [] && multiset(a) == multiset(b)
    ensures i < |b| && b[i] == a[|a| - 1]
    ensures multiset(a[..|a| - 1]) == multiset(b[..i] + b[i + 1..])
  {
    var front, e := a[..|a| - 1], a[|a| - 1];
    assert a == front + [e];
    assert multiset(a) == multiset(front) + multiset{e};
    assert e in a;
    SameMembers(a, b);
    i :| 0 <= i < |b| && b[i] == e;
    WithoutAt(b, i);
    var rest := multiset(b[..i] + b[i + 1..]);
    assert multiset(front) + multiset{e} == rest + multiset{e};
    SameAfterRemoval(multiset(front), rest, e);
  }

  lemma SliceOfSlice<T>(s: seq<T>, lo: nat, hi: nat, i: nat, j: nat)
    requires lo <= hi <= |s| && i <= j <= hi - lo
    ensures s[lo..hi][i..j] == s[lo + i..lo + j]
  {
    var mid := s[lo..hi];
    forall k | 0 <= k < j - i
      ensures mid[i..j][k] == s[lo + i..lo + j][k]
    {
      assert mid[i + k] == s[lo + (i + k)];
    }
  }

  lemma Assoc<T>(a: seq<T>, b: seq<T>, c: seq<T>)
    ensures (a + b) + c == a + (b + c)
  {
  }

  // Appending piece by piece is appending the pieces together.

  lemma Assoc3<T>(s: seq<T>, a: seq<T>, b: seq<T>, c: seq<T>)
    ensures s + a + b + c == s + (a + b + c)
  {
    Assoc(s, a, b);
    Assoc(s, a + b, c);
  }

  lemma Assoc4<T>(s: seq<T>, a: seq<T>, b: seq<T>, c: seq<T>, d: seq<T>)
    ensures s + a + b + c + d == s + (a + b + c + d)
  {
    Assoc3(s, a, b, c);
    Assoc(s, a + b + c, d);
  }

  lemma Assoc5<T>(s: seq<T>, a: seq<T>, b: seq<T>, c: seq<T>, d: seq<T>, e: seq<T>)
    ensures s + a + b + c + d + e == s + (a + b + c + d + e)
  {
    Assoc4(s, a, b, c, d);
    Assoc(s, a + b + c + d, e);
  }
}
