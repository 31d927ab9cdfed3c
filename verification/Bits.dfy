/** The two bitwise operations the tables need, on unbounded naturals. */
module Bits {

  function BitAnd(a: nat, b: nat): nat {
    if a == 0 || b == 0 then 0
    else (if a % 2 == 1 && b % 2 == 1 then 1 else 0) + 2 * BitAnd(a / 2, b / 2)
  }

  function BitOr(a: nat, b: nat): nat
    decreases a + b
  {
    if a == 0 then b
    else if b == 0 then a
    else (if a % 2 == 1 || b % 2 == 1 then 1 else 0) + 2 * BitOr(a / 2, b / 2)
  }

  function Pow2(k: nat): (p: nat)
    ensures p >= 1
  {
    if k == 0 then 1 else 2 * Pow2(k - 1)
  }

  ghost predicate IsPow2(n: nat) {
    exists k: nat :: n == Pow2(k)
  }

  /** The lowest `k` bits. */
  function LowBits(h: nat, k: nat): (r: nat)
    ensures r < Pow2(k)
  {
    if k == 0 then 0 else h % 2 + 2 * LowBits(h / 2, k - 1)
  }

  lemma {:induction false} MaskKeepsLowBits(h: nat, k: nat)
    ensures BitAnd(h, Pow2(k) - 1) == LowBits(h, k)
    decreases k
  {
    if h == 0 {
      ZeroHasNoBits(k);
    } else if k > 0 {
      MaskKeepsLowBits(h / 2, k - 1);
      assert (Pow2(k) - 1) / 2 == Pow2(k - 1) - 1;
    }
  }

  lemma {:induction false} ZeroHasNoBits(k: nat)
    ensures LowBits(0, k) == 0
  {
    if k > 0 {
      ZeroHasNoBits(k - 1);
    }
  }

  lemma RemainderByBits(h: nat, p: nat)
    requires p >= 1
    ensures h % (2 * p) == 2 * ((h / 2) % p) + h % 2
  {
    var q, r := (h / 2) / p, (h / 2) % p;
    assert h / 2 == q * p + r;
    assert h == q * (2 * p) + (2 * r + h % 2);
    RemainderUnique(h, 2 * p, q, 2 * r + h % 2);
  }

  lemma RemainderUnique(a: nat, n: nat, q: nat, r: nat)
    requires r < n && a == q * n + r
    ensures a % n == r
  {
    SameQuotient(q, a / n, n, r, a % n);
  }

  lemma SameQuotient(q: int, q': int, n: nat, r: nat, r': nat)
    requires r < n && r' < n && q * n + r == q' * n + r'
    ensures q == q' && r == r'
  {
    var d := q' - q;
    assert d * n == r - r';
    Multiples(d, n);
  }

  lemma Multiples(d: int, n: int)
    requires n >= 0
    ensures d >= 1 ==> d * n >= n
    ensures d <= -1 ==> d * n <= -n
    ensures d == 0 ==> d * n == 0
  {
  }

  lemma {:induction false} LowBitsAreRemainder(h: nat, k: nat)
    ensures LowBits(h, k) == h % Pow2(k)
  {
    if k > 0 {
      LowBitsAreRemainder(h / 2, k - 1);
      RemainderByBits(h, Pow2(k - 1));
    }
  }

  /** `h & (n - 1)` is the remainder modulo `n`, when `n` is a power of two. */
  lemma MaskIsRemainder(h: nat, n: nat)
    requires IsPow2(n)
    ensures n > 0 && BitAnd(h, n - 1) == h % n < n
  {
    var k: nat :| n == Pow2(k);
    MaskKeepsLowBits(h, k);
    LowBitsAreRemainder(h, k);
  }

  lemma SmallRemainder(i: nat, n: nat)
    requires i < n
    ensures (i + 1) % n == if i + 1 == n then 0 else i + 1
  {
  }

  /** Stepping through a table of `n` slots with the mask wraps from the last slot to the first. */
  lemma MaskedNext(i: nat, n: nat)
    requires IsPow2(n) && i < n
    ensures BitAnd(i + 1, n - 1) == if i + 1 == n then 0 else i + 1
  {
    hide BitAnd;
    MaskIsRemainder(i + 1, n);
    SmallRemainder(i, n);
  }

  lemma Doubled(n: nat)
    requires IsPow2(n)
    ensures IsPow2(2 * n)
  {
    var k: nat :| n == Pow2(k);
    assert 2 * n == Pow2(k + 1);
  }

  /** No power of two lies between one and its double. */
  lemma NextPow2(a: nat, b: nat)
    requires IsPow2(a) && IsPow2(b) && a < b
    ensures 2 * a <= b
  {
    var j: nat, k: nat :| a == Pow2(j) && b == Pow2(k);
    Pow2Grows(j, k);
  }

  lemma {:induction false} Pow2Grows(j: nat, k: nat)
    requires Pow2(j) < Pow2(k)
    ensures 2 * Pow2(j) <= Pow2(k)
  {
    if j > 0 {
      Pow2Grows(j - 1, k - 1);
    }
  }

  // ----- Union of bit sets -----

  /** Is bit `k` set? */
  predicate BitAt(v: nat, k: nat) {
    if k == 0 then v % 2 == 1 else BitAt(v / 2, k - 1)
  }

  lemma {:induction false} OrBits(a: nat, b: nat, k: nat)
    ensures BitAt(BitOr(a, b), k) <==> BitAt(a, k) || BitAt(b, k)
  {
    NoBits(k);
    if a != 0 && b != 0 {
      OrHalves(a, b);
      if k > 0 {
        OrBits(a / 2, b / 2, k - 1);
      }
    }
  }

  lemma {:induction false} NoBits(k: nat)
    ensures !BitAt(0, k)
  {
    if k > 0 {
      NoBits(k - 1);
    }
  }

  lemma {:induction false} OrAtLeast(a: nat, b: nat)
    ensures BitOr(a, b) >= b
  {
    if a != 0 && b != 0 {
      OrAtLeast(a / 2, b / 2);
    }
  }

  /** Below the bits of `h` shifted by `k`, the lower bits are free. */
  lemma {:induction false} DisjointOr(h: nat, l: nat, k: nat)
    requires l < Pow2(k)
    ensures BitOr(h * Pow2(k), l) == h * Pow2(k) + l
    decreases k
  {
    if k > 0 && l > 0 && h > 0 {
      var half := h * Pow2(k - 1);
      assert h * Pow2(k) == 2 * half;
      DisjointOr(h, l / 2, k - 1);
    }
  }

  lemma {:induction false} OrCommutes(a: nat, b: nat)
    ensures BitOr(a, b) == BitOr(b, a)
  {
    if a != 0 && b != 0 {
      OrCommutes(a / 2, b / 2);
    }
  }

  lemma {:induction false} OrAssociates(a: nat, b: nat, c: nat)
    ensures BitOr(BitOr(a, b), c) == BitOr(a, BitOr(b, c))
  {
    if a != 0 && b != 0 && c != 0 {
      OrAssociates(a / 2, b / 2, c / 2);
      OrHalves(a, b);
      OrHalves(b, c);
    }
  }

  lemma OrHalves(a: nat, b: nat)
    requires a != 0 && b != 0
    ensures BitOr(a, b) / 2 == BitOr(a / 2, b / 2) && BitOr(a, b) != 0
    ensures BitOr(a, b) % 2 == 1 <==> a % 2 == 1 || b % 2 == 1
  {
    OrZero(a / 2, b / 2);
  }

  lemma {:induction false} OrZero(a: nat, b: nat)
    ensures BitOr(a, b) == 0 ==> a == 0 && b == 0
  {
    if a != 0 && b != 0 {
      OrZero(a / 2, b / 2);
    }
  }

  /** A union of eight-bit sets is an eight-bit set. */
  lemma {:induction false} OrBound(a: nat, b: nat, k: nat)
    requires a < Pow2(k) && b < Pow2(k)
    ensures BitOr(a, b) < Pow2(k)
  {
    if a != 0 && b != 0 {
      OrBound(a / 2, b / 2, k - 1);
    }
  }
}
