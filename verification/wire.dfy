/** The scalar layer of the `.nav` format: little-endian 8-, 16- and
    32-bit fields, each writer paired with its reader. Encoders are written
    in continuation style, `PutX(x, rest)` being the bytes of `x` followed
    by `rest`; decoders return the value and the bytes after it. */
module Wire {
  import opened Util
  import opened Bytes

  datatype NavError = BadMagic | OldVersion | NotTf2 | Truncated

  type Buf = seq<byte>
  type Got<T> = Result<(T, Buf), NavError>

  function PutU8(x: u8, rest: Buf): Buf { [x as byte] + rest }
  function PutU16(x: u16, rest: Buf): Buf { EncodeU16(x) + rest }
  function PutU32(x: u32, rest: Buf): Buf { EncodeU32(x) + rest }

  function GetU8(b: Buf): (r: Got<u8>)
    ensures r.Ok? ==> |r.value.1| == |b| - 1
  {
    if |b| < 1 then Err(Truncated) else Ok((b[0] as nat, b[1..]))
  }

  function GetU16(b: Buf): (r: Got<u16>)
    ensures r.Ok? ==> |r.value.1| == |b| - 2
  {
    if |b| < 2 then Err(Truncated) else Ok((DecodeU16(b), b[2..]))
  }

  function GetU32(b: Buf): (r: Got<u32>)
    ensures r.Ok? ==> |r.value.1| == |b| - 4
  {
    if |b| < 4 then Err(Truncated) else Ok((DecodeU32(b), b[4..]))
  }

  lemma U8Trip(x: u8, rest: Buf)
    ensures GetU8(PutU8(x, rest)) == Ok((x, rest))
  {
    assert PutU8(x, rest)[1..] == rest;
  }

  lemma U16Trip(x: u16, rest: Buf)
    ensures GetU16(PutU16(x, rest)) == Ok((x, rest))
  {
    U16RoundTrip(x, rest);
    assert PutU16(x, rest)[2..] == rest;
  }

  lemma U32Trip(x: u32, rest: Buf)
    ensures GetU32(PutU32(x, rest)) == Ok((x, rest))
  {
    U32RoundTrip(x, rest);
    assert PutU32(x, rest)[4..] == rest;
  }

  lemma ModSmall(x: nat, m: nat)
    requires x < m
    ensures x % m == x
  {
  }
}
