/** The text form of addresses of src/addr.c, and a reader for it: the text says which address it
    was made from (sections 4.2 and 5 of RFC 5952). */
module AddressText {
  import opened Bytes

  // ----- Numbers -----

  function DigitChar(d: nat): char
    requires d < 16
  {
    if d < 10 then ('0' as int + d) as char else ('a' as int + (d - 10)) as char
  }

  function DigitValue(c: char): nat {
    if '0' <= c <= '9' then c as int - '0' as int
    else if 'a' <= c <= 'f' then c as int - 'a' as int + 10
    else 0
  }

  /** `%u` and `%x`: the digits of a number, without leading zeroes. */
  function Digits(v: nat, base: nat): (s: string)
    requires 2 <= base <= 16
    ensures |s| > 0
  {
    if v < base then [DigitChar(v)]
    else
      assert v / base < v by { Quotient(v, base); }
      Digits(v / base, base) + [DigitChar(v % base)]
  }

  lemma Quotient(v: nat, base: nat)
    requires 2 <= base <= v
    ensures v / base < v && (v / base) * base + v % base == v
  {
    assert v == base * (v / base) + v % base;
  }

  function Number(s: string, base: nat): nat {
    if s == "" then 0 else Number(s[..|s| - 1], base) * base + DigitValue(s[|s| - 1])
  }

  lemma {:induction false} DigitsRead(v: nat, base: nat)
    requires 2 <= base <= 16
    ensures Number(Digits(v, base), base) == v
  {
    hide DigitChar, DigitValue;
    if v < base {
      DigitRead(v);
      assert [DigitChar(v)][..0] == "";
      assert Number("", base) * base == 0;
    } else {
      Quotient(v, base);
      DigitsRead(v / base, base);
      DigitRead(v % base);
      var s := Digits(v, base);
      assert s[..|s| - 1] == Digits(v / base, base);
    }
  }

  lemma DigitRead(d: nat)
    requires d < 16
    ensures DigitValue(DigitChar(d)) == d
  {
  }

  /** The sixteen digits, lower case. */
  lemma DigitsAre(d: nat)
    requires d < 16
    ensures DigitChar(d) == "0123456789abcdef"[d]
    ensures forall c: char :: IsDigit(c) <==> c in "0123456789abcdef"
  {
    assert forall c: char :: '0' <= c <= '9' <==> c in "0123456789";
    assert forall c: char :: 'a' <= c <= 'f' <==> c in "abcdef";
    assert "0123456789abcdef" == "0123456789" + "abcdef";
  }

  predicate IsDigit(c: char) {
    '0' <= c <= '9' || 'a' <= c <= 'f'
  }

  lemma {:induction false} DigitsAreDigits(v: nat, base: nat)
    requires 2 <= base <= 16
    ensures forall c :: c in Digits(v, base) ==> IsDigit(c)
  {
    if v >= base {
      Quotient(v, base);
      DigitsAreDigits(v / base, base);
    }
  }

  lemma {:induction false} DigitsLength(v: nat, base: nat, k: nat)
    requires 2 <= base <= 16 && v < Power(base, k + 1)
    ensures |Digits(v, base)| <= k + 1
  {
    hide Power;
    PowerSteps(base, k);
    if v >= base {
      QuotientBelow(v, base, Power(base, k));
      DigitsLength(v / base, base, k - 1);
    }
  }

  lemma QuotientBelow(v: nat, base: nat, p: nat)
    requires base > 0 && v < p * base
    ensures v / base < p
  {
    var q := v / base;
    assert v == q * base + v % base;
    Scaled(q, p, base);
  }

  lemma Scaled(q: nat, p: nat, base: nat)
    ensures q >= p ==> q * base >= p * base
  {
    if q >= p {
      assert (q - p) * base >= 0;
    }
  }

  lemma PowerSteps(base: nat, k: nat)
    ensures Power(base, k + 1) == Power(base, k) * base && (k == 0 ==> Power(base, k + 1) == base)
  {
  }

  function Power(base: nat, k: nat): nat {
    if k == 0 then 1 else Power(base, k - 1) * base
  }

  // ----- Lists of numbers -----

  /** The numbers in order, with a separator between them. */
  function Join(g: seq<nat>, base: nat, sep: char): string
    requires 2 <= base <= 16
  {
    if g == [] then ""
    else if |g| == 1 then Digits(g[0], base)
    else Join(g[..|g| - 1], base, sep) + [sep] + Digits(g[|g| - 1], base)
  }

  /** Where the last separator is, or -1. */
  function LastIndex(s: string, sep: char): (i: int)
    ensures -1 <= i < |s|
    ensures i >= 0 ==> s[i] == sep
    ensures forall k :: i < k < |s| ==> s[k] != sep
  {
    if s == "" then -1 else if s[|s| - 1] == sep then |s| - 1 else LastIndex(s[..|s| - 1], sep)
  }

  /** The numbers between the separators; nothing for the empty text. */
  function Split(s: string, base: nat, sep: char): seq<nat>
    decreases |s|
  {
    if s == "" then []
    else
      var i := LastIndex(s, sep);
      if i < 0 then [Number(s, base)] else Split(s[..i], base, sep) + [Number(s[i + 1..], base)]
  }

  lemma LastIndexIs(s: string, sep: char, i: int)
    requires -1 <= i < |s| && (i >= 0 ==> s[i] == sep) && forall k :: i < k < |s| ==> s[k] != sep
    ensures LastIndex(s, sep) == i
  {
  }

  lemma {:induction false} JoinSplits(g: seq<nat>, base: nat, sep: char)
    requires 2 <= base <= 16 && !IsDigit(sep)
    ensures Split(Join(g, base, sep), base, sep) == g
  {
    hide Digits, Number, LastIndex, IsDigit;
    var s := Join(g, base, sep);
    if |g| == 1 {
      NoSeparator(g[0], base, sep);
      LastIndexIs(s, sep, -1);
      DigitsRead(g[0], base);
    } else if |g| > 1 {
      var front, last := Join(g[..|g| - 1], base, sep), Digits(g[|g| - 1], base);
      NoSeparator(g[|g| - 1], base, sep);
      LastIndexIs(s, sep, |front|);
      JoinSplits(g[..|g| - 1], base, sep);
      DigitsRead(g[|g| - 1], base);
      assert s[..|front|] == front && s[|front| + 1..] == last;
      assert g == g[..|g| - 1] + [g[|g| - 1]];
    }
  }

  lemma NoSeparator(v: nat, base: nat, sep: char)
    requires 2 <= base <= 16 && !IsDigit(sep)
    ensures forall k :: 0 <= k < |Digits(v, base)| ==> Digits(v, base)[k] != sep
  {
    DigitsAreDigits(v, base);
  }

  // ----- The "::" of an IPv6 address -----

  ghost predicate DoubleAt(s: string, i: int) {
    0 <= i < |s| - 1 && s[i] == ':' && s[i + 1] == ':'
  }

  /** Every colon stands between two digits. */
  ghost predicate Tidy(s: string) {
    && (forall i :: 0 <= i < |s| ==> IsDigit(s[i]) || s[i] == ':')
    && (s != "" ==> s[0] != ':' && s[|s| - 1] != ':')
    && forall i :: !DoubleAt(s, i)
  }

  lemma {:induction false} JoinIsTidy(g: seq<nat>)
    ensures Tidy(Join(g, 16, ':')) && (g != [] ==> Join(g, 16, ':') != "")
  {
    hide Digits;
    if g != [] {
      var last := Digits(g[|g| - 1], 16);
      DigitsAreDigits(g[|g| - 1], 16);
      assert forall k :: 0 <= k < |last| ==> last[k] in last;
      if |g| > 1 {
        JoinIsTidy(g[..|g| - 1]);
        TidyMore(Join(g[..|g| - 1], 16, ':'), last);
      }
    }
  }

  lemma TidyMore(a: string, b: string)
    requires Tidy(a) && a != "" && b != "" && forall k :: 0 <= k < |b| ==> IsDigit(b[k])
    ensures Tidy(a + [':'] + b)
  {
    var s := a + [':'] + b;
    forall i: int
      ensures !DoubleAt(s, i)
    {
      if 0 <= i < |a| - 1 {
        assert !DoubleAt(a, i);
      }
    }
  }

  /** The place of the first "::", or the length of the text. */
  function FirstDouble(s: string): (i: nat)
    ensures i <= |s|
    ensures i < |s| ==> DoubleAt(s, i)
    ensures forall k :: 0 <= k < i ==> !DoubleAt(s, k)
  {
    if s == "" then 0
    else if |s| >= 2 && s[0] == ':' && s[1] == ':' then 0
    else
      var i := FirstDouble(s[1..]);
      assert forall k :: 0 < k ==> (DoubleAt(s, k) <==> DoubleAt(s[1..], k - 1));
      1 + i
  }

  lemma DoubleInside(left: string, right: string, i: int)
    requires Tidy(left) && Tidy(right) && i != |left|
    ensures !DoubleAt(left + "::" + right, i)
  {
    assert !DoubleAt(left, i) && !DoubleAt(right, i - |left| - 2);
  }

  lemma FirstDoubleIs(left: string, right: string)
    requires Tidy(left) && Tidy(right)
    ensures FirstDouble(left + "::" + right) == |left|
    ensures forall i :: DoubleAt(left + "::" + right, i) ==> i == |left|
  {
    var s := left + "::" + right;
    assert DoubleAt(s, |left|);
    forall i: int | i != |left|
      ensures !DoubleAt(s, i)
    {
      DoubleInside(left, right, i);
    }
  }

  function Zeroes(n: nat): (z: seq<nat>)
    ensures |z| == n && forall i :: 0 <= i < n ==> z[i] == 0
  {
    if n == 0 then [] else Zeroes(n - 1) + [0]
  }

  /** Reads an IPv6 text without dots: "::" stands for as many zero groups as are missing. */
  function Expand(s: string): seq<nat> {
    var i := FirstDouble(s);
    if i == |s| then Split(s, 16, ':')
    else
      var left, right := Split(s[..i], 16, ':'), Split(s[i + 2..], 16, ':');
      left + Zeroes(Max(0, 8 - |left| - |right|)) + right
  }

  /** A run of zero groups. */
  ghost predicate ZeroRun(g: seq<nat>, start: nat, len: nat) {
    start + len <= |g| && forall i :: start <= i < start + len ==> g[i] == 0
  }

  /** The first of the longest runs. */
  ghost predicate FirstLongest(g: seq<nat>, start: nat, len: nat) {
    && ZeroRun(g, start, len)
    && (forall s: nat, l: nat :: ZeroRun(g, s, l) ==> l <= len)
    && (forall s: nat, l: nat :: ZeroRun(g, s, l) && l == len && s < start ==> len == 0)
  }

  /** What is written: the groups in order or, for a run of two or more zero groups, "::" in place
      of the run. */
  function Compressed(g: seq<nat>, start: nat, len: nat): string
    requires start + len <= |g|
  {
    if len < 2 then Join(g, 16, ':')
    else Join(g[..start], 16, ':') + "::" + Join(g[start + len..], 16, ':')
  }

  /** Whatever run was compressed, the text gives the groups back. */
  lemma CompressedExpands(g: seq<nat>, start: nat, len: nat)
    requires |g| == 8 && ZeroRun(g, start, len)
    ensures Expand(Compressed(g, start, len)) == g
    ensures forall i, j :: DoubleAt(Compressed(g, start, len), i) && DoubleAt(Compressed(g, start, len), j) ==> i == j
  {
    hide Join, Split, FirstDouble, Tidy;
    if len < 2 {
      JoinIsTidy(g);
      JoinSplits(g, 16, ':');
      TidyHasNoDouble(Join(g, 16, ':'));
    } else {
      var left, right := Join(g[..start], 16, ':'), Join(g[start + len..], 16, ':');
      JoinIsTidy(g[..start]);
      JoinIsTidy(g[start + len..]);
      FirstDoubleIs(left, right);
      JoinSplits(g[..start], 16, ':');
      JoinSplits(g[start + len..], 16, ':');
      var s := left + "::" + right;
      assert s[..|left|] == left && s[|left| + 2..] == right;
      assert g == g[..start] + Zeroes(len) + g[start + len..];
    }
  }

  lemma TidyHasNoDouble(s: string)
    requires Tidy(s)
    ensures FirstDouble(s) == |s| && forall i :: !DoubleAt(s, i)
  {
  }
}
