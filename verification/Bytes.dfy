/** Bytes, 32-bit words, and little-endian fields. */
module Bytes {

  type byte = x: int | 0 <= x < 0x100
  type u16 = x: int | 0 <= x < 0x1_0000
  type u32 = x: int | 0 <= x < 0x1_0000_0000

  const TWO32 := 0x1_0000_0000

  /** What a 32-bit operation keeps of a result. */
  function Wrap32(x: int): u32 {
    x % TWO32
  }

  function DivCeil(a: nat, b: nat): nat
    requires b > 0
  {
    (a + b - 1) / b
  }

  function Le32(v: u32): (r: seq<byte>)
    ensures |r| == 4
  {
    [v % 0x100, v / 0x100 % 0x100, v / 0x1_0000 % 0x100, v / 0x100_0000]
  }

  function Get16(b: seq<byte>, at: nat): u16
    requires at + 2 <= |b|
  {
    b[at] as int + 0x100 * b[at + 1] as int
  }

  function Get32(b: seq<byte>, at: nat): u32
    requires at + 4 <= |b|
  {
    b[at] as int + 0x100 * b[at + 1] as int + 0x1_0000 * b[at + 2] as int + 0x100_0000 * b[at + 3] as int
  }

  lemma GetLe32(b: seq<byte>, at: nat, v: u32)
    requires at + 4 <= |b| && b[at..at + 4] == Le32(v)
    ensures Get32(b, at) == v
  {
    var f := b[at..at + 4];
    assert b[at] == f[0] && b[at + 1] == f[1] && b[at + 2] == f[2] && b[at + 3] == f[3];
    Split32(v);
  }

  lemma Split32(v: u32)
    ensures v
         == v % 0x100 + 0x100 * (v / 0x100 % 0x100) + 0x1_0000 * (v / 0x1_0000 % 0x100) + 0x100_0000 * (v / 0x100_0000)
  {
    var a := v / 0x100;
    var b := a / 0x100;
    assert v / 0x1_0000 == b && v / 0x100_0000 == b / 0x100;
  }
}
