/**
 * Bytes as the Java streams hand them out, the integer widths of the JVM, and
 * the 4-byte little-endian integer that Parquet stores before its trailing magic.
 */
module Bytes {

  /** An octet as `InputStream.read()` returns it: a value in 0..255. */
  newtype byte = b: int | 0 <= b < 0x100

  const INT32_MIN: int := -0x8000_0000
  const INT32_MAX: int := 0x7fff_ffff
  const INT64_MIN: int := -0x8000_0000_0000_0000
  const INT64_MAX: int := 0x7fff_ffff_ffff_ffff

  /** The range of a Java `int`. */
  predicate IsInt32(x: int) { INT32_MIN <= x <= INT32_MAX }

  /** The range of a Java `long`. */
  predicate IsInt64(x: int) { INT64_MIN <= x <= INT64_MAX }

  /** The unsigned value of four bytes stored least significant first. */
  function LeUint32(b: seq<byte>): (u: int)
    requires |b| == 4
    ensures 0 <= u < 0x1_0000_0000
    ensures u % 0x100 == b[0] as int
  {
    b[0] as int + 0x100 * (b[1] as int + 0x100 * (b[2] as int + 0x100 * (b[3] as int)))
  }

  /**
   * Parquet's `readIntLittleEndian`: `ch1 | ch2 << 8 | ch3 << 16 | ch4 << 24` on Java
   * `int`s. The four bytes occupy disjoint bits, so the `|` is a sum, and the shift
   * of `ch4` into bit 31 makes the result negative whenever the top byte is 0x80 or
   * more (two's complement).
   */
  function LeInt32(b: seq<byte>): (v: int)
    requires |b| == 4
    ensures IsInt32(v)
    ensures v < 0 <==> b[3] >= 0x80
  {
    var u := LeUint32(b);
    if u <= INT32_MAX then u else u - 0x1_0000_0000
  }

  /** The four bytes, least significant first, of the 32-bit two's complement of `v`. */
  function Le32(v: int): (b: seq<byte>)
    requires IsInt32(v)
    ensures |b| == 4
    ensures b[3] >= 0x80 <==> v < 0
  {
    var u := if v < 0 then v + 0x1_0000_0000 else v;
    var u1 := u / 0x100;
    var u2 := u1 / 0x100;
    var u3 := u2 / 0x100;
    [(u % 0x100) as byte, (u1 % 0x100) as byte, (u2 % 0x100) as byte, u3 as byte]
  }

  /** Decoding what was encoded gives back the integer. */
  lemma DecodeEncode(v: int)
    requires IsInt32(v)
    ensures LeInt32(Le32(v)) == v
  {
    var u := if v < 0 then v + 0x1_0000_0000 else v;
    var u1 := u / 0x100;
    var u2 := u1 / 0x100;
    var u3 := u2 / 0x100;
    assert u == u % 0x100 + 0x100 * u1;
    assert u1 == u1 % 0x100 + 0x100 * u2;
    assert u2 == u2 % 0x100 + 0x100 * u3;
    assert LeUint32(Le32(v)) == u;
  }

  /** Encoding what was decoded gives back the four bytes. */
  lemma EncodeDecode(b: seq<byte>)
    requires |b| == 4
    ensures Le32(LeInt32(b)) == b
  {
    var u := LeUint32(b);
    var q1 := b[1] as int + 0x100 * (b[2] as int + 0x100 * (b[3] as int));
    var q2 := b[2] as int + 0x100 * (b[3] as int);
    assert u == b[0] as int + 0x100 * q1;
    assert u / 0x100 == q1 && u % 0x100 == b[0] as int;
    assert q1 / 0x100 == q2 && q1 % 0x100 == b[1] as int;
    assert q2 / 0x100 == b[3] as int && q2 % 0x100 == b[2] as int;
    var e := Le32(LeInt32(b));
    assert e[0] == b[0] && e[1] == b[1] && e[2] == b[2] && e[3] == b[3];
  }
}
