/** Fixed-width unsigned integers and the byte-order-explicit loads of src/bytes.h.

    Bytes are integers below 256, so a shift by `k` bits is a multiplication or a division by
    two to the `k`, and every width is visible in a type. */
module Bytes {
  type byte = x: nat | x < 0x100
  type uint16 = x: nat | x < 0x1_0000
  type uint32 = x: nat | x < 0x1_0000_0000
  type uint64 = x: nat | x < 0x1_0000_0000_0000_0000

  const SIZE_MAX: uint64 := 0xFFFF_FFFF_FFFF_FFFF

  function LoadBe16(p: seq<byte>, i: nat): (r: uint16)
    requires i + 2 <= |p|
  {
    (p[i] as nat) * 0x100 + p[i + 1]
  }

  function LoadLe16(p: seq<byte>, i: nat): (r: uint16)
    requires i + 2 <= |p|
  {
    (p[i + 1] as nat) * 0x100 + p[i]
  }

  function LoadBe32(p: seq<byte>, i: nat): (r: uint32)
    requires i + 4 <= |p|
  {
    (p[i] as nat) * 0x100_0000 + (p[i + 1] as nat) * 0x1_0000 + (p[i + 2] as nat) * 0x100 + p[i + 3]
  }

  function LoadLe32(p: seq<byte>, i: nat): (r: uint32)
    requires i + 4 <= |p|
  {
    (p[i + 3] as nat) * 0x100_0000 + (p[i + 2] as nat) * 0x1_0000 + (p[i + 1] as nat) * 0x100 + p[i]
  }

  function Min(a: int, b: int): int {
    if a <= b then a else b
  }

  function Max(a: int, b: int): int {
    if a <= b then b else a
  }

  // ----- The stores that the loads undo -----

  function Be16(v: uint16): (s: seq<byte>)
    ensures |s| == 2
  {
    [v / 0x100, v % 0x100]
  }

  function Le16(v: uint16): (s: seq<byte>)
    ensures |s| == 2
  {
    [v % 0x100, v / 0x100]
  }

  function Be32(v: uint32): (s: seq<byte>)
    ensures |s| == 4
  {
    Be16(v / 0x1_0000) + Be16(v % 0x1_0000)
  }

  function Le32(v: uint32): (s: seq<byte>)
    ensures |s| == 4
  {
    Le16(v % 0x1_0000) + Le16(v / 0x1_0000)
  }

  /** Loading what was stored, wherever it lies in a buffer, gives the value back. */
  lemma LoadsUndoStores16(p: seq<byte>, i: nat, v: uint16)
    requires i + 2 <= |p|
    ensures p[i..i + 2] == Be16(v) ==> LoadBe16(p, i) == v
    ensures p[i..i + 2] == Le16(v) ==> LoadLe16(p, i) == v
  {
    assert p[i] == p[i..i + 2][0] && p[i + 1] == p[i..i + 2][1];
  }

  lemma LoadsUndoStores32(p: seq<byte>, i: nat, v: uint32)
    requires i + 4 <= |p|
    ensures p[i..i + 4] == Be32(v) ==> LoadBe32(p, i) == v
    ensures p[i..i + 4] == Le32(v) ==> LoadLe32(p, i) == v
  {
    var q := p[i..i + 4];
    assert p[i] == q[0] && p[i + 1] == q[1] && p[i + 2] == q[2] && p[i + 3] == q[3];
  }
}
