/** The formatter of src/addr.c, and why no two addresses share a text. */
module AddressFormat {
  import opened Bytes
  import opened Packet
  import opened AddressText

  /** Room for the longest text and its terminator. */
  const ADDR_STR_LEN: nat := 46

  // ----- What the text of an address is -----

  /** The prefix ::ffff:0:0/96. */
  predicate IsV4Mapped(a: Address) {
    a[..10] == [0, 0, 0, 0, 0, 0, 0, 0, 0, 0] && a[10] == 0xFF && a[11] == 0xFF
  }

  /** The eight 16-bit groups. */
  function Groups(a: Address): (g: seq<nat>)
    ensures |g| == 8 && forall k :: 0 <= k < 8 ==> g[k] == LoadBe16(a, 2 * k)
  {
    [LoadBe16(a, 0), LoadBe16(a, 2), LoadBe16(a, 4), LoadBe16(a, 6),
     LoadBe16(a, 8), LoadBe16(a, 10), LoadBe16(a, 12), LoadBe16(a, 14)]
  }

  const MAPPED_PREFIX: string := "::ffff:"

  /** `s` is the text of an IPv6 address: dotted behind "::ffff:" when it embeds an IPv4 address, else
      the groups in hexadecimal with the first longest run of two or more zero groups left out. */
  ghost predicate IsIpv6Text(a: Address, s: string) {
    if IsV4Mapped(a) then s == MAPPED_PREFIX + Join(a[12..16], 10, '.')
    else exists start: nat, len: nat :: FirstLongest(Groups(a), start, len) && s == Compressed(Groups(a), start, len)
  }

  /** The text of an IPv4 address, held in the first four bytes. */
  function Ipv4Text(a: Address): string {
    Join(a[..4], 10, '.')
  }

  // ----- Reading a text back -----

  /** The groups that an IPv6 text names, with or without a dotted tail. */
  function ReadGroups(s: string): seq<nat> {
    if LastIndex(s, '.') < 0 then Expand(s)
    else MappedGroups(Split(s[LastIndex(s, ':') + 1..], 10, '.'))
  }

  function MappedGroups(q: seq<nat>): seq<nat> {
    if |q| == 4 then [0, 0, 0, 0, 0, 0xFFFF, q[0] * 0x100 + q[1], q[2] * 0x100 + q[3]] else []
  }

  lemma NoDots(s: string)
    requires forall k :: 0 <= k < |s| ==> IsDigit(s[k]) || s[k] == ':'
    ensures LastIndex(s, '.') < 0
  {
  }

  lemma CompressedHasNoDots(g: seq<nat>, start: nat, len: nat)
    requires start + len <= |g|
    ensures LastIndex(Compressed(g, start, len), '.') < 0
  {
    hide Join, LastIndex;
    JoinIsTidy(g);
    JoinIsTidy(g[..start]);
    JoinIsTidy(g[start + len..]);
    NoDots(Compressed(g, start, len));
  }

  lemma {:induction false} DottedHasNoColon(q: seq<nat>)
    ensures forall k :: 0 <= k < |Join(q, 10, '.')| ==> Join(q, 10, '.')[k] != ':'
    ensures |q| > 1 ==> '.' in Join(q, 10, '.')
  {
    hide Digits;
    if q != [] {
      NoSeparator(q[|q| - 1], 10, ':');
      if |q| > 1 {
        DottedHasNoColon(q[..|q| - 1]);
      }
    }
  }

  lemma MappedReads(a: Address)
    requires IsV4Mapped(a)
    ensures ReadGroups(MAPPED_PREFIX + Join(a[12..16], 10, '.')) == Groups(a)
  {
    hide Join, Split, LastIndex;
    var q: seq<nat> := a[12..16];
    var tail := Join(q, 10, '.');
    var s := MAPPED_PREFIX + tail;
    DottedHasNoColon(q);
    assert '.' in s;
    assert s[6] == ':';
    LastIndexIs(s, ':', 6);
    assert s[7..] == tail;
    JoinSplits(q, 10, '.');
    assert q[0] == a[12] && q[1] == a[13] && q[2] == a[14] && q[3] == a[15];
    assert forall k :: 0 <= k < 10 ==> a[k] == a[..10][k];
  }

  /** The text of an address, mapped or not, names exactly its groups. */
  lemma TextIsFaithful(a: Address, s: string)
    requires IsIpv6Text(a, s)
    ensures ReadGroups(s) == Groups(a)
  {
    hide Compressed, Expand, LastIndex, ReadGroups, Groups;
    if IsV4Mapped(a) {
      MappedReads(a);
    } else {
      var start: nat, len: nat :| FirstLongest(Groups(a), start, len) && s == Compressed(Groups(a), start, len);
      LongestIsRun(Groups(a), start, len);
      CompressedExpands(Groups(a), start, len);
      CompressedHasNoDots(Groups(a), start, len);
      Undotted(s);
    }
  }

  lemma LongestIsRun(g: seq<nat>, start: nat, len: nat)
    requires FirstLongest(g, start, len)
    ensures ZeroRun(g, start, len)
  {
  }

  lemma Undotted(s: string)
    requires LastIndex(s, '.') < 0
    ensures ReadGroups(s) == Expand(s)
  {
  }

  lemma SameLoadSameBytes(a: Address, b: Address, i: nat)
    requires i + 2 <= 16 && LoadBe16(a, i) == LoadBe16(b, i)
    ensures a[i] == b[i] && a[i + 1] == b[i + 1]
  {
  }

  lemma SameGroupsSameAddress(a: Address, b: Address)
    requires Groups(a) == Groups(b)
    ensures a == b
  {
    hide LoadBe16, Groups;
    forall i | 0 <= i < 16
      ensures a[i] == b[i]
    {
      var k := i / 2;
      assert LoadBe16(a, 2 * k) == Groups(a)[k] == Groups(b)[k] == LoadBe16(b, 2 * k);
      SameLoadSameBytes(a, b, 2 * k);
    }
  }

  /** Two addresses with the same text are the same address, and an address has one text. */
  lemma TextIsInjective(a: Address, b: Address, s: string, t: string)
    requires IsIpv6Text(a, s) && IsIpv6Text(b, t)
    ensures s == t <==> a == b
  {
    if s == t {
      TextIsFaithful(a, s);
      TextIsFaithful(b, t);
      SameGroupsSameAddress(a, b);
    }
    if a == b && !IsV4Mapped(a) {
      var g := Groups(a);
      var start: nat, len: nat :| FirstLongest(g, start, len) && s == Compressed(g, start, len);
      var start': nat, len': nat :| FirstLongest(g, start', len') && t == Compressed(g, start', len');
      OneFirstLongest(g, start, len, start', len');
    }
  }

  lemma OneFirstLongest(g: seq<nat>, start: nat, len: nat, start': nat, len': nat)
    requires FirstLongest(g, start, len) && FirstLongest(g, start', len')
    ensures len == len' && (len > 0 ==> start == start')
  {
    assert ZeroRun(g, start, len) && ZeroRun(g, start', len');
  }

  /** IPv4 texts name their address as well. */
  lemma Ipv4TextIsInjective(a: Address, b: Address)
    ensures Ipv4Text(a) == Ipv4Text(b) <==> a[..4] == b[..4]
  {
    JoinSplits(a[..4], 10, '.');
    JoinSplits(b[..4], 10, '.');
  }

  /** The text of an IPv4 address is read back, number by number, as its four bytes. */
  lemma Ipv4TextReads(a: Address)
    ensures Split(Ipv4Text(a), 10, '.') == [a[0], a[1], a[2], a[3]]
  {
    hide Split, Join;
    JoinSplits(a[..4], 10, '.');
    assert a[..4] == [a[0], a[1], a[2], a[3]];
  }

  /** What the text is, byte by byte of the address (sections 4.2 and 5 of RFC 5952): behind ten zeroes and
      two times 0xFF the last four bytes in decimal; else the groups in hexadecimal where, of the runs of
      two or more zero groups, the first longest one is left out. */
  lemma TextMeans(a: Address, s: string)
    requires IsIpv6Text(a, s)
    ensures var mapped := (forall i :: 0 <= i < 10 ==> a[i] == 0) && a[10] == 0xFF && a[11] == 0xFF;
            && (mapped ==>
                  && s[..Min(|s|, 7)] == "::ffff:"
                  && Split(s[Min(|s|, 7)..], 10, '.') == [a[12], a[13], a[14], a[15]])
            && (!mapped ==>
                  var g := GroupsOf(a);
                  && ((forall i :: 0 <= i < 7 ==> g[i] != 0 || g[i + 1] != 0) ==> s == Join(g, 16, ':'))
                  && (!(forall i :: 0 <= i < 7 ==> g[i] != 0 || g[i + 1] != 0) ==>
                        exists start: nat, len: nat ::
                          && start + len <= 8 && len >= 2
                          && (forall i :: start <= i < start + len ==> g[i] == 0)
                          && NoLongerRun(g, len) && NoEarlierRun(g, start, len)
                          && s == Join(g[..start], 16, ':') + "::" + Join(g[start + len..], 16, ':')))
  {
    hide Join, Split;
    var ten := a[..10];
    assert (forall i :: 0 <= i < 10 ==> a[i] == 0) <==> ten == [0, 0, 0, 0, 0, 0, 0, 0, 0, 0] by {
      assert forall i :: 0 <= i < 10 ==> ten[i] == a[i];
    }
    if IsV4Mapped(a) {
      var tail := Join(a[12..16], 10, '.');
      assert s[..7] == "::ffff:" && s[7..] == tail;
      JoinSplits(a[12..16], 10, '.');
      assert a[12..16] == [a[12], a[13], a[14], a[15]];
    } else {
      var g := GroupsOf(a);
      assert Groups(a) == g;
      var start: nat, len: nat :| FirstLongest(g, start, len) && s == Compressed(g, start, len);
      RunsMean(g, start, len);
    }
  }

  function GroupsOf(a: Address): (g: seq<nat>)
    ensures |g| == 8 && forall k :: 0 <= k < 8 ==> g[k] == 256 * a[2 * k] as nat + a[2 * k + 1]
  {
    Groups(a)
  }

  ghost predicate NoLongerRun(g: seq<nat>, len: nat) {
    forall s: nat, l: nat :: s + l <= |g| && AllZero(g, s, l) ==> l <= len
  }

  ghost predicate NoEarlierRun(g: seq<nat>, start: nat, len: nat) {
    forall s: nat :: s < start && s + len <= |g| ==> !AllZero(g, s, len)
  }

  ghost predicate AllZero(g: seq<nat>, start: nat, len: nat)
    requires start + len <= |g|
  {
    forall i :: start <= i < start + len ==> g[i] == 0
  }

  lemma RunsAre(g: seq<nat>, start: nat, len: nat)
    requires FirstLongest(g, start, len)
    ensures start + len <= |g| && AllZero(g, start, len) && NoLongerRun(g, len)
    ensures len > 0 ==> NoEarlierRun(g, start, len)
  {
    forall s: nat, l: nat | s + l <= |g| && AllZero(g, s, l)
      ensures l <= len && (l == len > 0 ==> start <= s)
    {
      assert ZeroRun(g, s, l);
    }
  }

  lemma RunsMean(g: seq<nat>, start: nat, len: nat)
    requires |g| == 8 && FirstLongest(g, start, len)
    ensures len < 2 <==> forall i :: 0 <= i < 7 ==> g[i] != 0 || g[i + 1] != 0
    ensures start + len <= 8 && (forall i :: start <= i < start + len ==> g[i] == 0) && NoLongerRun(g, len)
    ensures len > 0 ==> NoEarlierRun(g, start, len)
  {
    RunsAre(g, start, len);
    if len < 2 {
      forall i | 0 <= i < 7
        ensures g[i] != 0 || g[i + 1] != 0
      {
        if g[i] == 0 && g[i + 1] == 0 {
          assert ZeroRun(g, i, 2);
        }
      }
    } else {
      assert 0 <= start < 7 && g[start] == 0 && g[start + 1] == 0;
    }
  }

  // ----- How long it is -----

  lemma {:induction false} JoinLength(g: seq<nat>, base: nat, sep: char, k: nat)
    requires 2 <= base <= 16 && forall i :: 0 <= i < |g| ==> g[i] < Power(base, k + 1)
    ensures |Join(g, base, sep)| <= Max(0, (k + 2) * |g| - 1)
  {
    hide Digits, Power;
    if g != [] {
      var n := |g| - 1;
      DigitsLength(g[n], base, k);
      if n > 0 {
        JoinLength(g[..n], base, sep, k);
        assert (k + 2) * n + (k + 2) == (k + 2) * |g|;
        assert (k + 2) * n >= k + 2;
      }
    }
  }

  /** 39 characters at most, or 22 for a mapped address: both fit a buffer of ADDR_STR_LEN. */
  lemma TextLength(a: Address, s: string)
    requires IsIpv6Text(a, s)
    ensures |s| <= if IsV4Mapped(a) then 22 else 39
  {
    hide Join, Power, Groups;
    if IsV4Mapped(a) {
      DottedLength(a[12..16]);
    } else {
      var g := Groups(a);
      var start: nat, len: nat :| FirstLongest(g, start, len) && s == Compressed(g, start, len);
      LongestIsRun(g, start, len);
      GroupsLength(g);
      GroupsLength(g[..start]);
      GroupsLength(g[start + len..]);
    }
  }

  lemma GroupsLength(g: seq<nat>)
    requires forall i :: 0 <= i < |g| ==> g[i] < 0x10000
    ensures |Join(g, 16, ':')| <= Max(0, 5 * |g| - 1)
  {
    assert Power(16, 4) == 0x10000;
    JoinLength(g, 16, ':', 3);
  }

  lemma DottedLength(q: seq<byte>)
    requires |q| == 4
    ensures |Join(q, 10, '.')| <= 15
  {
    assert Power(10, 3) == 1000;
    JoinLength(q, 10, '.', 2);
  }

  // ----- The formatter -----

  /** The first longest run of zero groups. */
  method FindRun(g: seq<nat>) returns (bestStart: nat, bestLen: nat)
    ensures FirstLongest(g, bestStart, bestLen)
    ensures bestStart + bestLen <= |g| && AllZero(g, bestStart, bestLen) && NoLongerRun(g, bestLen)
    ensures bestLen > 0 ==> NoEarlierRun(g, bestStart, bestLen)
  {
    bestStart, bestLen := 0, 0;
    var i := 0;
    while i < |g|
      invariant i <= |g| && ZeroRun(g, bestStart, bestLen)
      invariant forall s: nat, l: nat :: ZeroRun(g, s, l) && s < i ==> s + l <= i && l <= bestLen
      invariant forall s: nat, l: nat :: ZeroRun(g, s, l) && l == bestLen && s < bestStart ==> bestLen == 0
      invariant bestStart + bestLen <= i
    {
      if g[i] != 0 {
        i := i + 1;
      } else {
        var j := i;
        while j < |g| && g[j] == 0
          invariant i <= j <= |g| && ZeroRun(g, i, j - i)
        {
          j := j + 1;
        }
        if j - i > bestLen {
          bestStart, bestLen := i, j - i;
        }
        i := j;
      }
    }
    RunsAre(g, bestStart, bestLen);
  }

  lemma JoinNone()
    ensures Join([], 16, ':') == ""
  {
  }

  lemma JoinMore(g: seq<nat>, lo: nat, i: nat)
    requires lo <= i < |g|
    ensures Join(g[lo..i + 1], 16, ':') ==
            if i == lo then Digits(g[i], 16) else Join(g[lo..i], 16, ':') + ":" + Digits(g[i], 16)
  {
    hide Digits;
    assert g[lo..i + 1][..i - lo] == g[lo..i];
  }

  /** The text without truncation, appended piece by piece. */
  method FormatIpv6(a: Address) returns (s: string)
    ensures IsIpv6Text(a, s)
  {
    hide Join, Digits, FirstLongest, Groups;
    if IsV4Mapped(a) {
      return MAPPED_PREFIX + Join(a[12..16], 10, '.');
    }
    var g := Groups(a);
    var start, len := FindRun(g);
    LongestIsRun(g, start, len);
    assert g[0..0] == [] && g[0..8] == g && g[start + len..start + len] == [];
    assert Join([], 16, ':') == "" by { JoinNone(); }
    var bestStart: int := if len < 2 then -1 else start;
    var tmp, i := "", 0;
    while i < 8
      invariant i <= 8 && |g| == 8
      invariant bestStart < 0 || i <= bestStart ==> tmp == Join(g[0..i], 16, ':')
      invariant bestStart >= 0 && i > bestStart ==> i >= bestStart + len
      invariant bestStart >= 0 && i > bestStart ==>
        tmp == Join(g[0..bestStart], 16, ':') + "::" + Join(g[bestStart + len..i], 16, ':')
    {
      if i == bestStart {
        tmp := tmp + "::";
        i := i + len;
      } else {
        JoinMore(g, 0, i);
        if bestStart >= 0 && i >= bestStart + len {
          JoinMore(g, bestStart + len, i);
        }
        if i > 0 && !(bestStart >= 0 && i == bestStart + len) {
          tmp := tmp + ":";
        }
        tmp := tmp + Digits(g[i], 16);
        i := i + 1;
      }
    }
    assert g[0..start] == g[..start] && g[start + len..8] == g[start + len..];
    s := tmp;
  }

  /** What `snprintf` leaves of a text in a buffer of `len` bytes, the terminator included. */
  function Clipped(s: string, len: nat): string {
    if len == 0 then "" else s[..Min(|s|, len - 1)]
  }

  /** The whole text when the buffer has the documented size, a prefix of it when it is smaller. */
  method AddrFormat(version: nat, a: Address, len: nat) returns (out: string)
    ensures version == 4 ==> out == Clipped(Ipv4Text(a), len)
    ensures version == 6 ==> exists s :: IsIpv6Text(a, s) && out == Clipped(s, len)
    ensures version == 4 && len >= ADDR_STR_LEN ==> out == Ipv4Text(a)
    ensures version == 6 && len >= ADDR_STR_LEN ==> IsIpv6Text(a, out)
    ensures version != 4 && version != 6 ==> out == Clipped("?", len)
    ensures version == 4 && 0 < len ==> out <= Ipv4Text(a) && (|out| == len - 1 || out == Ipv4Text(a))
    ensures version == 6 && 0 < len ==> exists s :: IsIpv6Text(a, s) && out <= s && (|out| == len - 1 || out == s)
    ensures version != 4 && version != 6 ==> out == if len < 2 then "" else "?"
    ensures len == 0 ==> out == ""
  {
    if version == 4 {
      DottedLength(a[..4]);
      out := Clipped(Ipv4Text(a), len);
    } else if version == 6 {
      var s := FormatIpv6(a);
      TextLength(a, s);
      out := Clipped(s, len);
    } else {
      out := Clipped("?", len);
    }
  }
}
