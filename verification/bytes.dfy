/** Bytes and the little-endian integer encodings that the `.nav` reader and
    writer use. Every multi-byte field of the file is written with its
    in-memory (little-endian) layout. */
module Bytes {

  newtype byte = x: int | 0 <= x < 256

  const TWO_8: nat := 0x100
  const TWO_16: nat := 0x1_0000
  const TWO_32: nat := 0x1_0000_0000

  /** Unsigned integer types of the file format, as ranges over `nat`. */
  type u8 = x: nat | x < TWO_8
  type u16 = x: nat | x < TWO_16
  type u32 = x: nat | x < TWO_32

  /** Little-endian encoding of a 16-bit value. */
  function EncodeU16(x: u16): (r: seq<byte>)
    ensures |r| == 2
    ensures r[0] as int + 256 * r[1] as int == x
  {
    [(x % 256) as byte, (x / 256) as byte]
  }

  /** Little-endian encoding of a 32-bit value. */
  function EncodeU32(x: u32): (r: seq<byte>)
    ensures |r| == 4
    ensures r[0] as int + 256 * (r[1] as int + 256 * (r[2] as int + 256 * r[3] as int)) == x
  {
    var q1 := x / 256;
    var q2 := q1 / 256;
    var q3 := q2 / 256;
    assert x == x % 256 + 256 * q1 && q1 == q1 % 256 + 256 * q2 && q2 == q2 % 256 + 256 * q3;
    [(x % 256) as byte, (q1 % 256) as byte, (q2 % 256) as byte, q3 as byte]
  }

  /** Reads a little-endian 16-bit value from the first two bytes. */
  function DecodeU16(b: seq<byte>): u16
    requires |b| >= 2
  {
    b[0] as int + 256 * b[1] as int
  }

  /** Reads a little-endian 32-bit value from the first four bytes. */
  function DecodeU32(b: seq<byte>): (r: u32)
    requires |b| >= 4
  {
    b[0] as int + 256 * (b[1] as int + 256 * (b[2] as int + 256 * b[3] as int))
  }

  lemma U16RoundTrip(x: u16, rest: seq<byte>)
    ensures DecodeU16(EncodeU16(x) + rest) == x
  {
  }

  lemma U32RoundTrip(x: u32, rest: seq<byte>)
    ensures DecodeU32(EncodeU32(x) + rest) == x
  {
  }

  /** Decoding reads nothing past the field: what follows does not matter. */
  lemma U32Prefix(b: seq<byte>, rest: seq<byte>)
    requires |b| >= 4
    ensures DecodeU32(b + rest) == DecodeU32(b)
  {
  }

  // Arithmetic helpers for fields packed into a wider integer

  lemma MulAtLeast(a: int, d: int)
    requires a >= 1 && d > 0
    ensures a * d >= d
  {
    assert a * d == (a - 1) * d + d;
    assert (a - 1) * d >= 0;
  }

  /** Quotient and remainder are determined by any exact decomposition. */
  lemma DivMod(v: int, q: int, r: int, d: int)
    requires d > 0 && 0 <= r < d && v == q * d + r
    ensures v / d == q && v % d == r
  {
    var q' := v / d;
    var r' := v % d;
    assert v == q' * d + r';
    assert (q' - q) * d == r - r';
    if q' > q {
      MulAtLeast(q' - q, d);
    } else if q' < q {
      MulAtLeast(q - q', d);
    }
  }

  /** The field `mid` of `v = (hi * dmid + mid) * dlo + lo` is `(v / dlo) % dmid`. */
  lemma Field(v: int, hi: int, mid: int, lo: int, dmid: int, dlo: int)
    requires dlo > 0 && dmid > 0 && 0 <= lo < dlo && 0 <= mid < dmid
    requires v == (hi * dmid + mid) * dlo + lo
    ensures (v / dlo) % dmid == mid
  {
    DivMod(v, hi * dmid + mid, lo, dlo);
    DivMod(hi * dmid + mid, hi, mid, dmid);
  }
}
