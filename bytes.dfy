/** Bytes of the database image and the little-endian 32-bit reads done on them. */
module Bytes {

  /** One byte of the database image (Go's `byte`). */
  newtype byte = x: int | 0 <= x < 256

  const TwoPow8: int := 0x100
  const TwoPow16: int := 0x1_0000
  const TwoPow24: int := 0x100_0000
  const TwoPow32: int := 0x1_0000_0000

  /** True when the four bytes `b[off..off+4]` exist, so `getLong(b, off)` does not panic. */
  predicate CanReadLong(b: seq<byte>, off: int)
  {
    0 <= off && off + 3 < |b|
  }

  /** 256 to the power `n`. */
  function Pow256(n: nat): (r: int)
    ensures r >= 1
  {
    if n == 0 then 1 else TwoPow8 * Pow256(n - 1)
  }

  /** The unsigned integer stored little-endian (least significant byte first) in `b[off..off+n]`. */
  function LittleEndian(b: seq<byte>, off: int, n: nat): (r: int)
    requires 0 <= off && off + n <= |b|
    ensures 0 <= r < Pow256(n)
    decreases n
  {
    if n == 0 then 0 else b[off] as int + TwoPow8 * LittleEndian(b, off + 1, n - 1)
  }

  /**
   * `getLong`: the unsigned little-endian 32-bit integer stored at `b[off..off+4]`.
   * The source ORs the bytes shifted by 0, 8, 16 and 24 bits; the shifted bytes occupy
   * disjoint bit ranges, so the OR is the little-endian sum (see `GetLongBytes`).
   */
  function GetLong(b: seq<byte>, off: int): (r: int)
    requires CanReadLong(b, off)
    ensures 0 <= r < TwoPow32
  {
    assert Pow256(4) == TwoPow32;
    LittleEndian(b, off, 4)
  }

  /** The value read is `b[off] + 2^8*b[off+1] + 2^16*b[off+2] + 2^24*b[off+3]`. */
  lemma GetLongBytes(b: seq<byte>, off: int)
    requires CanReadLong(b, off)
    ensures GetLong(b, off) == b[off] as int + TwoPow8 * b[off + 1] as int
                             + TwoPow16 * b[off + 2] as int + TwoPow24 * b[off + 3] as int
  {
    assert LittleEndian(b, off + 3, 1) == b[off + 3] as int;
    assert LittleEndian(b, off + 2, 2) == b[off + 2] as int + TwoPow8 * b[off + 3] as int;
    assert LittleEndian(b, off + 1, 3) == b[off + 1] as int + TwoPow8 * (b[off + 2] as int + TwoPow8 * b[off + 3] as int);
  }

  /** The four little-endian bytes of a 32-bit unsigned value: how the image stores one. */
  function LE32(x: int): (r: seq<byte>)
    requires 0 <= x < TwoPow32
    ensures |r| == 4
    ensures r[0] as int == x % TwoPow8 && r[3] as int == x / TwoPow24
  {
    [(x % TwoPow8) as byte, (x / TwoPow8 % TwoPow8) as byte,
     (x / TwoPow16 % TwoPow8) as byte, (x / TwoPow24) as byte]
  }

  /** Reading back an encoded value gives the value. */
  lemma GetLongOfLE32(x: int, prefix: seq<byte>, suffix: seq<byte>)
    requires 0 <= x < TwoPow32
    ensures CanReadLong(prefix + LE32(x) + suffix, |prefix|)
    ensures GetLong(prefix + LE32(x) + suffix, |prefix|) == x
  {
    var b := prefix + LE32(x) + suffix;
    var k := |prefix|;
    assert b[k..k + 4] == LE32(x);
    GetLongBytes(b, k);
    var q1 := x / TwoPow8;
    var q2 := q1 / TwoPow8;
    var q3 := q2 / TwoPow8;
    assert x == x % TwoPow8 + TwoPow8 * q1;
    assert q1 == q1 % TwoPow8 + TwoPow8 * q2;
    assert q2 == q2 % TwoPow8 + TwoPow8 * q3;
    assert x / TwoPow16 == q2 && x / TwoPow24 == q3;
  }

  /** Encoding a value read from the image gives back the four bytes it was read from. */
  lemma LE32OfGetLong(b: seq<byte>, off: int)
    requires CanReadLong(b, off)
    ensures LE32(GetLong(b, off)) == b[off..off + 4]
  {
    var b0, b1, b2, b3 := b[off] as int, b[off + 1] as int, b[off + 2] as int, b[off + 3] as int;
    var x := GetLong(b, off);
    GetLongBytes(b, off);
    assert x == b0 + TwoPow8 * (b1 + TwoPow8 * (b2 + TwoPow8 * b3));
    assert x % TwoPow8 == b0 && x / TwoPow8 == b1 + TwoPow8 * (b2 + TwoPow8 * b3);
    assert x / TwoPow16 == (x / TwoPow8) / TwoPow8;
    assert x / TwoPow16 == b2 + TwoPow8 * b3;
    assert x / TwoPow24 == (x / TwoPow16) / TwoPow8;
    assert x / TwoPow24 == b3;
  }
}
