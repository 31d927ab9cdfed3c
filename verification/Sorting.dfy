/** The contract of `qsort`: the sorted arrangement of a sequence, and why there is only one. */
module Sorting {
  import opened Collections

  ghost predicate TotalPreorder<T(!new)>(le: (T, T) -> bool) {
    && (forall a, b :: le(a, b) || le(b, a))
    && (forall a, b, c :: le(a, b) && le(b, c) ==> le(a, c))
  }

  ghost predicate Sorted<T>(s: seq<T>, le: (T, T) -> bool) {
    forall i, j :: 0 <= i < j < |s| ==> le(s[i], s[j])
  }

  function Insert<T>(x: T, s: seq<T>, le: (T, T) -> bool): (r: seq<T>)
    ensures |r| == |s| + 1
  {
    if s == [] || le(s[|s| - 1], x) then s + [x]
    else Insert(x, s[..|s| - 1], le) + [s[|s| - 1]]
  }

  function Sort<T>(s: seq<T>, le: (T, T) -> bool): (r: seq<T>)
    ensures |r| == |s|
  {
    if s == [] then [] else Insert(s[|s| - 1], Sort(s[..|s| - 1], le), le)
  }

  lemma {:induction false} InsertAdds<T>(x: T, s: seq<T>, le: (T, T) -> bool)
    ensures multiset(Insert(x, s, le)) == multiset(s) + multiset{x}
  {
    if s != [] && !le(s[|s| - 1], x) {
      InsertAdds(x, s[..|s| - 1], le);
      assert s == s[..|s| - 1] + [s[|s| - 1]];
    }
  }

  lemma SortedMore<T>(s: seq<T>, last: T, le: (T, T) -> bool)
    requires Sorted(s, le) && forall x :: x in s ==> le(x, last)
    ensures Sorted(s + [last], le)
  {
  }

  lemma {:induction false} InsertSorts<T(!new)>(x: T, s: seq<T>, le: (T, T) -> bool)
    requires TotalPreorder(le) && Sorted(s, le)
    ensures Sorted(Insert(x, s, le), le)
  {
    if s != [] {
      var front, last := s[..|s| - 1], s[|s| - 1];
      if le(last, x) {
        forall y | y in s
          ensures le(y, x)
        {
          LastIsGreatest(s, y, le);
        }
        SortedMore(s, x, le);
      } else {
        InsertSorts(x, front, le);
        var r := Insert(x, front, le);
        InsertAdds(x, front, le);
        forall y | y in r
          ensures le(y, last)
        {
          assert y in multiset(r);
          assert y in front || y == x;
        }
        SortedMore(r, last, le);
      }
    }
  }

  /** Sorting rearranges, and puts in order. */
  lemma {:induction false} SortSorts<T(!new)>(s: seq<T>, le: (T, T) -> bool)
    requires TotalPreorder(le)
    ensures Sorted(Sort(s, le), le) && multiset(Sort(s, le)) == multiset(s)
  {
    hide TotalPreorder, Sorted, Insert;
    if s == [] {
      assert Sorted<T>([], le) by { NothingSorted(le); }
    } else {
      var front, last := s[..|s| - 1], s[|s| - 1];
      SortSorts(front, le);
      InsertSorts(last, Sort(front, le), le);
      InsertAdds(last, Sort(front, le), le);
      assert s == front + [last];
    }
  }

  lemma NothingSorted<T>(le: (T, T) -> bool)
    ensures Sorted<T>([], le)
  {
  }

  lemma LastIsGreatest<T>(a: seq<T>, y: T, le: (T, T) -> bool)
    requires Sorted(a, le) && y in a
    ensures y == a[|a| - 1] || le(y, a[|a| - 1])
  {
    var i :| 0 <= i < |a| && a[i] == y;
  }

  lemma SameLast<T>(a: seq<T>, b: seq<T>, le: (T, T) -> bool)
    requires Sorted(a, le) && Sorted(b, le) && multiset(a) == multiset(b) && a != []
    requires forall x, y :: x in a && y in a && le(x, y) && le(y, x) ==> x == y
    ensures |a| == |b| && a[|a| - 1] == b[|b| - 1]
  {
    SameMembers(a, b);
    var x, y := a[|a| - 1], b[|b| - 1];
    assert x in a && y in b;
    LastIsGreatest(a, y, le);
    LastIsGreatest(b, x, le);
  }

  /** Without ties, a multiset has only one sorted arrangement. */
  lemma {:induction false} SortedUnique<T>(a: seq<T>, b: seq<T>, le: (T, T) -> bool)
    requires Sorted(a, le) && Sorted(b, le) && multiset(a) == multiset(b)
    requires forall x, y :: x in a && y in a && le(x, y) && le(y, x) ==> x == y
    ensures a == b
  {
    SameMembers(a, b);
    if a != [] {
      SameLast(a, b, le);
      DropSameLast(a, b);
      var a', b' := a[..|a| - 1], b[..|b| - 1];
      SortedUnique(a', b', le);
      assert a == a' + [a[|a| - 1]] && b == b' + [b[|b| - 1]];
    }
  }
}
