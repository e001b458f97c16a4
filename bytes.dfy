/** Bytes and the fixed-width integer encodings the legacy map format and the
    network protocol use: little-endian 16-bit fields (what a .NET
    BinaryReader/BinaryWriter reads and writes) and big-endian 16-bit fields
    (network order). */
module Bytes {

  /** An unsigned 8-bit value. */
  type byte = b: int | 0 <= b < 256

  function Min(a: int, b: int): (m: int)
    ensures m <= a && m <= b && (m == a || m == b)
  {
    if a <= b then a else b
  }

  /** The unsigned 16-bit value of two bytes stored low byte first. */
  function U16(lo: byte, hi: byte): (v: nat)
    ensures v < 0x1_0000
    ensures v % 256 == lo && v / 256 == hi
  {
    lo + 256 * hi
  }

  /** Two's complement reading of a 16-bit pattern. */
  function SignedOf(u: nat): (v: int)
    requires u < 0x1_0000
    ensures -0x8000 <= v < 0x8000
    ensures (v - u) % 0x1_0000 == 0
  {
    if u < 0x8000 then u else u - 0x1_0000
  }

  /** The signed 16-bit value of two bytes stored low byte first: the
      value in the signed range congruent to the unsigned reading, negative
      exactly when the high byte's top bit is set. */
  function I16(lo: byte, hi: byte): (v: int)
    ensures -0x8000 <= v < 0x8000
    ensures (v - U16(lo, hi)) % 0x1_0000 == 0
    ensures v < 0 <==> hi >= 0x80
  {
    SignedOf(U16(lo, hi))
  }

  /** The value a cast to a 16-bit signed integer gives: the low 16 bits
      of `v`, read as two's complement. */
  function Wrap16(v: int): (w: int)
    ensures -0x8000 <= w < 0x8000
    ensures (w - v) % 0x1_0000 == 0
    ensures -0x8000 <= v < 0x8000 ==> w == v
  {
    SignedOf(v % 0x1_0000)
  }

  /** The two bytes a BinaryWriter emits for `(short)v` or `(ushort)v`:
      the low 16 bits of `v`, low byte first. */
  function LE16(v: int): (r: seq<byte>)
    ensures |r| == 2
    ensures U16(r[0], r[1]) == v % 0x1_0000
  {
    var u := v % 0x1_0000;
    [u % 256, u / 256]
  }

  /** The two bytes of the low 16 bits of `v`, high byte first (network order). */
  function BE16(v: int): (r: seq<byte>)
    ensures |r| == 2
    ensures 256 * (r[0] as int) + r[1] == v % 0x1_0000
  {
    var u := v % 0x1_0000;
    [u / 256, u % 256]
  }

  /** Reading back what LE16 wrote as a signed field gives the value
      truncated to 16 bits. */
  lemma I16OfLE16(v: int)
    ensures I16(LE16(v)[0], LE16(v)[1]) == Wrap16(v)
  {
  }

  /** Reading back what LE16 wrote as an unsigned field gives the value
      modulo 2^16; values already in range come back unchanged. */
  lemma U16OfLE16(v: int)
    ensures U16(LE16(v)[0], LE16(v)[1]) == v % 0x1_0000
    ensures 0 <= v < 0x1_0000 ==> U16(LE16(v)[0], LE16(v)[1]) == v
  {
  }
}
