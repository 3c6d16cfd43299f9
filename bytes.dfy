/** Fixed-width integers of the archive format and their little-endian byte encoding.
    The index file is a raw dump of `u32`/`s32` values; the model fixes the byte order
    to little-endian. */
module Bytes {

  type byte = x: int | 0 <= x < 0x100

  const U32Max: int := 0xFFFF_FFFF

  type u32 = x: int | 0 <= x <= U32Max

  type s32 = x: int | -0x8000_0000 <= x < 0x8000_0000

  /** Reduction modulo 2^32: what a `u32` expression yields in C++. */
  function U32(x: nat): (r: u32)
    ensures x <= U32Max ==> r == x
    ensures (x - r) % 0x1_0000_0000 == 0
  {
    x % 0x1_0000_0000
  }

  /** The four bytes of `x`, least significant first. */
  function EncodeU32(x: u32): (b: seq<byte>)
    ensures |b| == 4
  {
    [x % 0x100, (x / 0x100) % 0x100, (x / 0x1_0000) % 0x100, x / 0x100_0000]
  }

  /** The value of four bytes read least significant first. */
  function DecodeU32(b: seq<byte>): (x: u32)
    requires |b| == 4
  {
    var b0, b1, b2, b3: int := b[0], b[1], b[2], b[3];
    b0 + 0x100 * b1 + 0x1_0000 * b2 + 0x100_0000 * b3
  }

  lemma DecodeEncodeU32(x: u32)
    ensures DecodeU32(EncodeU32(x)) == x
  {
    var q1 := x / 0x100;
    var q2 := q1 / 0x100;
    var q3 := q2 / 0x100;
    assert x == q1 * 0x100 + x % 0x100;
    assert q1 == q2 * 0x100 + q1 % 0x100;
    assert q2 == q3 * 0x100 + q2 % 0x100;
    assert x / 0x1_0000 == q2;
    assert x / 0x100_0000 == q3;
  }

  lemma EncodeDecodeU32(b: seq<byte>)
    requires |b| == 4
    ensures EncodeU32(DecodeU32(b)) == b
  {
    var x := DecodeU32(b);
    var b0, b1, b2, b3: int := b[0], b[1], b[2], b[3];
    assert x % 0x100 == b0 by {
      assert x == (b1 + 0x100 * b2 + 0x1_0000 * b3) * 0x100 + b0;
    }
    assert (x / 0x100) % 0x100 == b1 by {
      assert x / 0x100 == (b2 + 0x100 * b3) * 0x100 + b1;
    }
    assert (x / 0x1_0000) % 0x100 == b2 by {
      assert x / 0x1_0000 == b3 * 0x100 + b2;
    }
    assert x / 0x100_0000 == b3;
  }

  /** Two's complement view of a signed 32-bit value as an unsigned one. */
  function S32ToU32(x: s32): (u: u32)
    ensures x >= 0 ==> u == x
    ensures x < 0 ==> u == x + 0x1_0000_0000
  {
    if x < 0 then x + 0x1_0000_0000 else x
  }

  function U32ToS32(u: u32): (x: s32)
    ensures S32ToU32(x) == u
  {
    if u >= 0x8000_0000 then u - 0x1_0000_0000 else u
  }

  function EncodeS32(x: s32): (b: seq<byte>)
    ensures |b| == 4
  {
    EncodeU32(S32ToU32(x))
  }

  function DecodeS32(b: seq<byte>): s32
    requires |b| == 4
  {
    U32ToS32(DecodeU32(b))
  }
}
