/** Fixed-width integers and the big-endian 32-bit field codec of the QOI header. */
module Bytes {

  /** An unsigned 8-bit value (C# `byte`). */
  type uint8 = x: int | 0 <= x < 0x100

  /** An unsigned 32-bit value (C# `uint`). */
  type uint32 = x: int | 0 <= x < 0x1_0000_0000

  /** The C# cast `(sbyte)x`: the two's-complement reading of the low 8 bits of `x`,
      i.e. the one value in -128..127 congruent to `x` modulo 256. */
  function ToInt8(x: int): (r: int)
    ensures -128 <= r < 128
  {
    (x + 128) % 256 - 128
  }

  /** `ToInt8` keeps the value modulo 256. */
  lemma {:induction false} ToInt8Congruent(x: int)
    ensures (x - ToInt8(x)) % 256 == 0
  {
    var q := (x + 128) / 256;
    assert x + 128 == 256 * q + (x + 128) % 256;
    assert x - ToInt8(x) == 256 * q;
  }

  /** The C# compound assignment `a += (byte)d` on a byte: addition modulo 256. */
  function AddWrap(a: uint8, d: int): (r: uint8)
  {
    (a + d) % 256
  }

  /** Adding to `y`, modulo 256, any value congruent to `x - y` gives `x` back. */
  lemma {:induction false} AddWrapInverse(x: uint8, y: uint8, v: int)
    requires (x - y - v) % 256 == 0
    ensures AddWrap(y, v) == x
  {
    var k := (x - y - v) / 256;
    assert y + v == x - 256 * k;
  }

  /** `Read32`: the four bytes at `p`, most significant first. The C# code casts the
      result to `int` and back to `uint`, which does not change the 32 bits, so the
      unsigned value is returned. */
  function Read32(bytes: seq<uint8>, p: int): (v: uint32)
    requires 0 <= p && p + 4 <= |bytes|
  {
    bytes[p] as int * 0x100_0000 + bytes[p + 1] as int * 0x1_0000 + bytes[p + 2] as int * 0x100 + bytes[p + 3]
  }

  /** `Write32`: the four bytes of `v`, most significant first. */
  function Write32(v: uint32): (r: seq<uint8>)
    ensures |r| == 4
  {
    [v / 0x100_0000, v / 0x1_0000 % 0x100, v / 0x100 % 0x100, v % 0x100]
  }

  /** Reading back what `Write32` wrote yields the value. */
  lemma {:induction false} Read32Write32(v: uint32, bytes: seq<uint8>, p: int)
    requires 0 <= p && p + 4 <= |bytes| && bytes[p..p + 4] == Write32(v)
    ensures Read32(bytes, p) == v
  {
    var w := Write32(v);
    assert bytes[p] == w[0] && bytes[p + 1] == w[1] && bytes[p + 2] == w[2] && bytes[p + 3] == w[3];
    var q1 := v / 0x100;
    var q2 := q1 / 0x100;
    var q3 := q2 / 0x100;
    assert v / 0x1_0000 == q2;
    assert v / 0x100_0000 == q3;
    assert v == q1 * 0x100 + w[3];
    assert q1 == q2 * 0x100 + w[2];
    assert q2 == q3 * 0x100 + w[1];
  }

  /** Every four bytes are the big-endian form of the value `Read32` reads from them. */
  lemma {:induction false} Write32Read32(bytes: seq<uint8>, p: int)
    requires 0 <= p && p + 4 <= |bytes|
    ensures Write32(Read32(bytes, p)) == bytes[p..p + 4]
  {
    var v := Read32(bytes, p);
    var a: int, b: int, c: int := bytes[p], bytes[p + 1], bytes[p + 2];
    assert v / 0x100 == a * 0x1_0000 + b * 0x100 + c;
    assert v / 0x1_0000 == a * 0x100 + b;
    assert v / 0x100_0000 == a;
  }
}
