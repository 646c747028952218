/** The base64 codec of the bot's pipe client (standard alphabet, `=`
    padding, section 4 of RFC 4648).

    Both directions are written the way the client computes them: a bit
    accumulator `val` and a bit cursor `valb`, one input symbol at a time.
    `val` is an unbounded natural here. In the client it is a C `int` that
    keeps shifting left; every emitted symbol is masked out of the low bits
    at the cursor, and those bits are the same in both readings.

    The reference definition `RfcEncode` works on whole 3-byte groups, as
    RFC 4648 states it. The lemmas tie the streaming encoder to it and prove
    the round trip. */
module Base64 {
  import opened Util
  import opened Bytes

  /** Symbol `d` of the alphabet "A..Z a..z 0..9 + /". */
  function Digit(d: nat): (c: char)
    requires d < 64
  {
    if d < 26 then ('A' as int + d) as char
    else if d < 52 then ('a' as int + (d - 26)) as char
    else if d < 62 then ('0' as int + (d - 52)) as char
    else if d == 62 then '+'
    else '/'
  }

  /** The decoder's lookup table: the symbol's index, or -1 for any
      character outside the alphabet (`=` included). */
  function Sextet(c: char): (r: int)
    ensures -1 <= r < 64
    ensures r >= 0 ==> Digit(r) == c
  {
    if 'A' <= c <= 'Z' then c as int - 'A' as int
    else if 'a' <= c <= 'z' then 26 + (c as int - 'a' as int)
    else if '0' <= c <= '9' then 52 + (c as int - '0' as int)
    else if c == '+' then 62
    else if c == '/' then 63
    else -1
  }

  predicate InAlphabet(c: char) {
    Sextet(c) >= 0
  }

  /** The table inverts the alphabet. */
  lemma SextetOfDigit(d: nat)
    requires d < 64
    ensures Sextet(Digit(d)) == d
  {
  }

  lemma PadNotInAlphabet()
    ensures !InAlphabet('=')
  {
  }

  // ---------------------------------------------------------------------
  // Encoder, as written

  /** The inner `while (valb >= 0)` loop: emit the sextet at the cursor. */
  function EmitSextets(out: seq<char>, val: nat, valb: int): (r: (seq<char>, int))
    requires -6 <= valb
    ensures -6 <= r.1 < 0
    ensures |r.0| == |out| + (valb + 6) / 6
    decreases valb + 6
  {
    if valb >= 0 then EmitSextets(out + [Digit((val / Pow2(valb)) % 64)], val, valb - 6)
    else (out, valb)
  }

  /** The loop over the input bytes; returns the output so far, `val` and `valb`. */
  function EncodeBytes(s: seq<byte>, out: seq<char>, val: nat, valb: int): (r: (seq<char>, nat, int))
    requires -6 <= valb < 0
    ensures -6 <= r.2 < 0
    decreases |s|
  {
    if |s| == 0 then (out, val, valb)
    else
      var v := val * 256 + s[0] as int;
      var e := EmitSextets(out, v, valb + 8);
      EncodeBytes(s[1..], e.0, v, e.1)
  }

  /** Appends `=` until the length is a multiple of four. */
  function Pad(out: seq<char>): (r: seq<char>)
    ensures |r| % 4 == 0
    ensures |out| <= |r| < |out| + 4
    ensures r[..|out|] == out
    ensures forall i | |out| <= i < |r| :: r[i] == '='
    decreases (4 - |out| % 4) % 4
  {
    if |out| % 4 == 0 then out else Pad(out + ['='])
  }

  /** The closing partial sextet and the padding. */
  function Finish(st: (seq<char>, nat, int)): seq<char>
    requires -6 <= st.2 < 0
  {
    var (out, val, valb) := st;
    if valb > -6 then Pad(out + [Digit(((val * 256) / Pow2(valb + 8)) % 64)])
    else Pad(out)
  }

  function Encode(s: seq<byte>): seq<char> {
    Finish(EncodeBytes(s, [], 0, -6))
  }

  // ---------------------------------------------------------------------
  // Decoder, as written

  /** The loop over the input characters. It stops at the first character
      outside the alphabet, which is how padding ends the input. */
  function DecodeChars(t: seq<char>, out: seq<byte>, val: nat, valb: int): (r: seq<byte>)
    requires -8 <= valb < 0
    decreases |t|
  {
    if |t| == 0 || !InAlphabet(t[0]) then out
    else
      var v := val * 64 + Sextet(t[0]);
      var b := valb + 6;
      if b >= 0 then DecodeChars(t[1..], out + [((v / Pow2(b)) % 256) as byte], v, b - 8)
      else DecodeChars(t[1..], out, v, b)
  }

  function Decode(t: seq<char>): seq<byte> {
    DecodeChars(t, [], 0, -8)
  }

  // ---------------------------------------------------------------------
  // Reference: RFC 4648 section 4, one 3-byte group at a time

  function Quad(c0: byte, c1: byte, c2: byte): seq<char> {
    [Digit(c0 as nat / 4), Digit((c0 as nat % 4) * 16 + c1 as nat / 16),
     Digit((c1 as nat % 16) * 4 + c2 as nat / 64), Digit(c2 as nat % 64)]
  }

  function RfcEncode(s: seq<byte>): (r: seq<char>)
    decreases |s|
  {
    if |s| >= 3 then Quad(s[0], s[1], s[2]) + RfcEncode(s[3..])
    else if |s| == 2 then
      [Digit(s[0] as nat / 4), Digit((s[0] as nat % 4) * 16 + s[1] as nat / 16),
       Digit((s[1] as nat % 16) * 4), '=']
    else if |s| == 1 then
      [Digit(s[0] as nat / 4), Digit((s[0] as nat % 4) * 16), '=', '=']
    else []
  }

  /** Encoded text: alphabet symbols followed only by padding. */
  predicate WellFormedText(t: seq<char>) {
    forall i | 0 <= i < |t| :: InAlphabet(t[i]) || (t[i] == '=' && forall j | i <= j < |t| :: t[j] == '=')
  }

  // ---------------------------------------------------------------------
  // Encoder lemmas

  lemma EmitOne(out: seq<char>, val: nat, valb: int)
    requires 0 <= valb < 6
    ensures EmitSextets(out, val, valb) == (out + [Digit((val / Pow2(valb)) % 64)], valb - 6)
  {
  }

  lemma EmitTwo(out: seq<char>, val: nat, valb: int)
    requires 6 <= valb < 12
    ensures EmitSextets(out, val, valb)
         == (out + [Digit((val / Pow2(valb)) % 64), Digit((val / Pow2(valb - 6)) % 64)], valb - 12)
  {
    assert EmitSextets(out, val, valb) == EmitSextets(out + [Digit((val / Pow2(valb)) % 64)], val, valb - 6);
    EmitOne(out + [Digit((val / Pow2(valb)) % 64)], val, valb - 6);
    assert out + [Digit((val / Pow2(valb)) % 64)] + [Digit((val / Pow2(valb - 6)) % 64)]
        == out + [Digit((val / Pow2(valb)) % 64), Digit((val / Pow2(valb - 6)) % 64)];
  }

  /** The first byte of a group emits its top six bits. */
  lemma EncodeStepA(c: byte, rest: seq<byte>, out: seq<char>, val: nat)
    ensures EncodeBytes([c] + rest, out, val, -6)
         == EncodeBytes(rest, out + [Digit(c as nat / 4)], val * 256 + c as int, -4)
  {
    var v := val * 256 + c as int;
    assert Pow2(2) == 4;
    Field(v, val, c as nat / 4, c as nat % 4, 64, 4);
    EmitOne(out, v, 2);
    assert ([c] + rest)[0] == c && ([c] + rest)[1..] == rest;
  }

  /** The second byte emits the two bits left over and its own top four. */
  lemma EncodeStepB(c: byte, rest: seq<byte>, out: seq<char>, val: nat)
    ensures EncodeBytes([c] + rest, out, val, -4)
         == EncodeBytes(rest, out + [Digit((val % 4) * 16 + c as nat / 16)], val * 256 + c as int, -2)
  {
    var v := val * 256 + c as int;
    assert Pow2(4) == 16;
    assert val == (val / 4) * 4 + val % 4 && c as nat == (c as nat / 16) * 16 + c as nat % 16;
    Field(v, val / 4, (val % 4) * 16 + c as nat / 16, c as nat % 16, 64, 16);
    EmitOne(out, v, 4);
    assert ([c] + rest)[0] == c && ([c] + rest)[1..] == rest;
  }

  /** The third byte emits the four bits left over with its top two, then
      its low six. */
  lemma EncodeStepC(c: byte, rest: seq<byte>, out: seq<char>, val: nat)
    ensures EncodeBytes([c] + rest, out, val, -2)
         == EncodeBytes(rest, out + [Digit((val % 16) * 4 + c as nat / 64), Digit(c as nat % 64)],
                        val * 256 + c as int, -6)
  {
    var v := val * 256 + c as int;
    assert Pow2(0) == 1 && Pow2(6) == 64;
    assert val == (val / 16) * 16 + val % 16 && c as nat == (c as nat / 64) * 64 + c as nat % 64;
    Field(v, val / 16, (val % 16) * 4 + c as nat / 64, c as nat % 64, 64, 64);
    Field(v, val * 4 + c as nat / 64, c as nat % 64, 0, 64, 1);
    EmitTwo(out, v, 6);
    assert ([c] + rest)[0] == c && ([c] + rest)[1..] == rest;
  }

  /** The first two bytes of a group emit two symbols and leave the cursor
      two bits short of a symbol. */
  lemma EncodePair(c0: byte, c1: byte, rest: seq<byte>, out: seq<char>, val: nat)
    ensures EncodeBytes([c0] + ([c1] + rest), out, val, -6)
         == EncodeBytes(rest, out + [Digit(c0 as nat / 4), Digit((c0 as nat % 4) * 16 + c1 as nat / 16)],
                        (val * 256 + c0 as int) * 256 + c1 as int, -2)
  {
    var v1 := val * 256 + c0 as int;
    DivMod(v1, val * 64 + c0 as nat / 4, c0 as nat % 4, 4);
    EncodeStepA(c0, [c1] + rest, out, val);
    var o1 := out + [Digit(c0 as nat / 4)];
    EncodeStepB(c1, rest, o1, v1);
    assert o1 + [Digit((c0 as nat % 4) * 16 + c1 as nat / 16)]
        == out + [Digit(c0 as nat / 4), Digit((c0 as nat % 4) * 16 + c1 as nat / 16)];
  }

  /** Three bytes from a group boundary emit one full quad and return the
      cursor to the boundary. */
  lemma EncodeGroup(c0: byte, c1: byte, c2: byte, rest: seq<byte>, out: seq<char>, val: nat)
    ensures EncodeBytes([c0, c1, c2] + rest, out, val, -6)
         == EncodeBytes(rest, out + Quad(c0, c1, c2), ((val * 256 + c0 as int) * 256 + c1 as int) * 256 + c2 as int, -6)
  {
    var v2 := (val * 256 + c0 as int) * 256 + c1 as int;
    DivMod(v2, (val * 256 + c0 as int) * 16 + c1 as nat / 16, c1 as nat % 16, 16);
    assert [c0, c1, c2] + rest == [c0] + ([c1] + ([c2] + rest));
    EncodePair(c0, c1, [c2] + rest, out, val);
    var o2 := out + [Digit(c0 as nat / 4), Digit((c0 as nat % 4) * 16 + c1 as nat / 16)];
    EncodeStepC(c2, rest, o2, v2);
    assert o2 + [Digit((c1 as nat % 16) * 4 + c2 as nat / 64), Digit(c2 as nat % 64)] == out + Quad(c0, c1, c2);
  }

  lemma EncodeLastTwo(c0: byte, c1: byte, out: seq<char>, val: nat)
    requires |out| % 4 == 0
    ensures Finish(EncodeBytes([c0, c1], out, val, -6)) == out + RfcEncode([c0, c1])
  {
    var v1 := val * 256 + c0 as int;
    var v2 := v1 * 256 + c1 as int;
    DivMod(v1, val * 64 + c0 as nat / 4, c0 as nat % 4, 4);
    DivMod(v2, v1 * 16 + c1 as nat / 16, c1 as nat % 16, 16);
    assert [c0, c1] == [c0] + ([c1] + []);
    EncodeStepA(c0, [c1] + [], out, val);
    var o1 := out + [Digit(c0 as nat / 4)];
    EncodeStepB(c1, [], o1, v1);
    var o2 := o1 + [Digit((c0 as nat % 4) * 16 + c1 as nat / 16)];
    assert EncodeBytes([c0, c1], out, val, -6) == (o2, v2, -2);
    assert Pow2(6) == 64;
    Field(v2 * 256, v2 / 16, (v2 % 16) * 4, 0, 64, 64);
    var o3 := o2 + [Digit((c1 as nat % 16) * 4)];
    assert Finish((o2, v2, -2)) == Pad(o3);
    assert Pad(o3) == Pad(o3 + ['=']) == o3 + ['='];
  }

  lemma EncodeLastOne(c0: byte, out: seq<char>, val: nat)
    requires |out| % 4 == 0
    ensures Finish(EncodeBytes([c0], out, val, -6)) == out + RfcEncode([c0])
  {
    var v1 := val * 256 + c0 as int;
    DivMod(v1, val * 64 + c0 as nat / 4, c0 as nat % 4, 4);
    assert [c0] == [c0] + [];
    EncodeStepA(c0, [], out, val);
    var o1 := out + [Digit(c0 as nat / 4)];
    assert EncodeBytes([c0], out, val, -6) == (o1, v1, -4);
    assert Pow2(4) == 16;
    Field(v1 * 256, v1 / 4, (v1 % 4) * 16, 0, 64, 16);
    var o2 := o1 + [Digit((c0 as nat % 4) * 16)];
    assert Finish((o1, v1, -4)) == Pad(o2);
    assert Pad(o2) == Pad(o2 + ['=']) == Pad(o2 + ['=', '=']) == o2 + ['=', '='];
  }

  lemma EncodeFirstGroup(s: seq<byte>, out: seq<char>, val: nat)
    requires |s| >= 3
    ensures EncodeBytes(s, out, val, -6)
         == EncodeBytes(s[3..], out + Quad(s[0], s[1], s[2]), ((val * 256 + s[0] as int) * 256 + s[1] as int) * 256 + s[2] as int, -6)
    ensures out + RfcEncode(s) == (out + Quad(s[0], s[1], s[2])) + RfcEncode(s[3..])
  {
    assert s == [s[0], s[1], s[2]] + s[3..];
    EncodeGroup(s[0], s[1], s[2], s[3..], out, val);
  }

  lemma {:induction false} EncodeFrom(s: seq<byte>, out: seq<char>, val: nat)
    requires |out| % 4 == 0
    ensures Finish(EncodeBytes(s, out, val, -6)) == out + RfcEncode(s)
    decreases |s|
  {
    if |s| >= 3 {
      var o := out + Quad(s[0], s[1], s[2]);
      assert |o| == |out| + 4;
      EncodeFrom(s[3..], o, ((val * 256 + s[0] as int) * 256 + s[1] as int) * 256 + s[2] as int);
      EncodeFirstGroup(s, out, val);
    } else {
      EncodeShort(s, out, val);
    }
  }

  /** Fewer than three bytes from a group boundary finish as one padded
      quad, or as nothing. */
  lemma EncodeShort(s: seq<byte>, out: seq<char>, val: nat)
    requires |s| < 3 && |out| % 4 == 0
    ensures Finish(EncodeBytes(s, out, val, -6)) == out + RfcEncode(s)
  {
    if |s| == 2 {
      assert s == [s[0], s[1]];
      EncodeLastTwo(s[0], s[1], out, val);
    } else if |s| == 1 {
      assert s == [s[0]];
      EncodeLastOne(s[0], out, val);
    } else {
      assert Pad(out) == out;
    }
  }

  /** The streaming encoder computes the RFC 4648 encoding. */
  lemma EncodeIsRfc(s: seq<byte>)
    ensures Encode(s) == RfcEncode(s)
  {
    EncodeFrom(s, [], 0);
  }

  lemma {:induction false} RfcEncodeLength(s: seq<byte>)
    ensures |RfcEncode(s)| == 4 * ((|s| + 2) / 3)
    decreases |s|
  {
    if |s| >= 3 {
      RfcEncodeLength(s[3..]);
      assert |RfcEncode(s)| == 4 + |RfcEncode(s[3..])|;
      DivMod(|s| + 2, (|s| - 1) / 3 + 1, (|s| - 1) % 3, 3);
    }
  }

  lemma {:induction false} RfcEncodeWellFormed(s: seq<byte>)
    ensures WellFormedText(RfcEncode(s))
    decreases |s|
  {
    if |s| >= 3 {
      RfcEncodeWellFormed(s[3..]);
      var q := Quad(s[0], s[1], s[2]);
      var t := RfcEncode(s[3..]);
      forall i | 0 <= i < |q + t|
        ensures InAlphabet((q + t)[i]) || ((q + t)[i] == '=' && forall j | i <= j < |q + t| :: (q + t)[j] == '=')
      {
        if i < 4 {
          SextetOfDigit(s[0] as nat / 4);
          SextetOfDigit((s[0] as nat % 4) * 16 + s[1] as nat / 16);
          SextetOfDigit((s[1] as nat % 16) * 4 + s[2] as nat / 64);
          SextetOfDigit(s[2] as nat % 64);
        } else {
          assert (q + t)[i] == t[i - 4];
        }
      }
    } else if |s| == 2 {
      SextetOfDigit(s[0] as nat / 4);
      SextetOfDigit((s[0] as nat % 4) * 16 + s[1] as nat / 16);
      SextetOfDigit((s[1] as nat % 16) * 4);
    } else if |s| == 1 {
      SextetOfDigit(s[0] as nat / 4);
      SextetOfDigit((s[0] as nat % 4) * 16);
    }
  }

  /** The encoding is 4*ceil(n/3) characters long and consists of alphabet
      symbols followed only by `=` padding. */
  lemma EncodeShape(s: seq<byte>)
    ensures |Encode(s)| == 4 * ((|s| + 2) / 3)
    ensures WellFormedText(Encode(s))
  {
    EncodeIsRfc(s);
    RfcEncodeLength(s);
    RfcEncodeWellFormed(s);
  }

  // ---------------------------------------------------------------------
  // Decoder lemmas

  /** One character of the alphabet fed to the decoder. */
  lemma DecodeOne(c: char, rest: seq<char>, out: seq<byte>, val: nat, valb: int)
    requires -8 <= valb < 0 && InAlphabet(c)
    ensures valb + 6 >= 0 ==>
      DecodeChars([c] + rest, out, val, valb)
        == DecodeChars(rest, out + [(((val * 64 + Sextet(c)) / Pow2(valb + 6)) % 256) as byte], val * 64 + Sextet(c), valb - 2)
    ensures valb + 6 < 0 ==>
      DecodeChars([c] + rest, out, val, valb) == DecodeChars(rest, out, val * 64 + Sextet(c), valb + 6)
  {
    assert ([c] + rest)[0] == c;
    assert ([c] + rest)[1..] == rest;
  }

  /** The first symbol of a quad only fills the accumulator. */
  lemma DecodeStep0(d: nat, rest: seq<char>, out: seq<byte>, val: nat)
    requires d < 64
    ensures DecodeChars([Digit(d)] + rest, out, val, -8) == DecodeChars(rest, out, val * 64 + d, -2)
  {
    SextetOfDigit(d);
    DecodeOne(Digit(d), rest, out, val, -8);
  }

  /** The second symbol completes the first byte. */
  lemma DecodeStep1(c0: byte, c1: byte, rest: seq<char>, out: seq<byte>, w: nat)
    requires w % 64 == c0 as nat / 4
    ensures DecodeChars([Digit((c0 as nat % 4) * 16 + c1 as nat / 16)] + rest, out, w, -2)
         == DecodeChars(rest, out + [c0], w * 64 + (c0 as nat % 4) * 16 + c1 as nat / 16, -4)
  {
    var d := (c0 as nat % 4) * 16 + c1 as nat / 16;
    SextetOfDigit(d);
    DecodeOne(Digit(d), rest, out, w, -2);
    assert Pow2(4) == 16;
    assert w == (w / 64) * 64 + c0 as nat / 4 && c0 as nat == (c0 as nat / 4) * 4 + c0 as nat % 4;
    Field(w * 64 + d, w / 64, c0 as int, c1 as nat / 16, 256, 16);
  }

  /** The third symbol completes the second byte. */
  lemma DecodeStep2(c1: byte, c2: byte, rest: seq<char>, out: seq<byte>, w: nat)
    requires w % 16 == c1 as nat / 16
    ensures DecodeChars([Digit((c1 as nat % 16) * 4 + c2 as nat / 64)] + rest, out, w, -4)
         == DecodeChars(rest, out + [c1], w * 64 + (c1 as nat % 16) * 4 + c2 as nat / 64, -6)
  {
    var d := (c1 as nat % 16) * 4 + c2 as nat / 64;
    SextetOfDigit(d);
    DecodeOne(Digit(d), rest, out, w, -4);
    assert Pow2(2) == 4;
    assert w == (w / 16) * 16 + c1 as nat / 16 && c1 as nat == (c1 as nat / 16) * 16 + c1 as nat % 16;
    Field(w * 64 + d, w / 16, c1 as int, c2 as nat / 64, 256, 4);
  }

  /** The fourth symbol completes the third byte and the quad. */
  lemma DecodeStep3(c2: byte, rest: seq<char>, out: seq<byte>, w: nat)
    requires w % 4 == c2 as nat / 64
    ensures DecodeChars([Digit(c2 as nat % 64)] + rest, out, w, -6)
         == DecodeChars(rest, out + [c2], w * 64 + c2 as nat % 64, -8)
  {
    var d := c2 as nat % 64;
    SextetOfDigit(d);
    DecodeOne(Digit(d), rest, out, w, -6);
    assert Pow2(0) == 1;
    assert w == (w / 4) * 4 + c2 as nat / 64 && c2 as nat == (c2 as nat / 64) * 64 + d;
    Field(w * 64 + d, w / 4, c2 as int, 0, 256, 1);
  }

  /** Four sextets of a quad hold the same bits as its three bytes. */
  lemma QuadValue(val: nat, c0: byte, c1: byte, c2: byte)
    ensures (((val * 64 + c0 as nat / 4) * 64 + ((c0 as nat % 4) * 16 + c1 as nat / 16)) * 64
             + ((c1 as nat % 16) * 4 + c2 as nat / 64)) * 64 + c2 as nat % 64
         == ((val * 256 + c0 as int) * 256 + c1 as int) * 256 + c2 as int
  {
    assert c0 as nat == (c0 as nat / 4) * 4 + c0 as nat % 4;
    assert c1 as nat == (c1 as nat / 16) * 16 + c1 as nat % 16;
    assert c2 as nat == (c2 as nat / 64) * 64 + c2 as nat % 64;
  }

  /** The first two symbols of a quad yield its first byte. */
  lemma DecodeFront(c0: byte, c1: byte, rest: seq<char>, out: seq<byte>, val: nat)
    ensures DecodeChars([Digit(c0 as nat / 4), Digit((c0 as nat % 4) * 16 + c1 as nat / 16)] + rest, out, val, -8)
         == DecodeChars(rest, out + [c0], (val * 64 + c0 as nat / 4) * 64 + (c0 as nat % 4) * 16 + c1 as nat / 16, -4)
  {
    var d0, d1 := c0 as nat / 4, (c0 as nat % 4) * 16 + c1 as nat / 16;
    var v1 := val * 64 + d0;
    DivMod(v1, val, d0, 64);
    assert [Digit(d0), Digit(d1)] + rest == [Digit(d0)] + ([Digit(d1)] + rest);
    DecodeStep0(d0, [Digit(d1)] + rest, out, val);
    DecodeStep1(c0, c1, rest, out, v1);
  }

  /** The last two symbols of a quad yield its last two bytes. */
  lemma DecodeBack(c1: byte, c2: byte, rest: seq<char>, out: seq<byte>, w: nat)
    requires w % 16 == c1 as nat / 16
    ensures DecodeChars([Digit((c1 as nat % 16) * 4 + c2 as nat / 64), Digit(c2 as nat % 64)] + rest, out, w, -4)
         == DecodeChars(rest, out + [c1, c2], (w * 64 + (c1 as nat % 16) * 4 + c2 as nat / 64) * 64 + c2 as nat % 64, -8)
  {
    var d2, d3 := (c1 as nat % 16) * 4 + c2 as nat / 64, c2 as nat % 64;
    var v3 := w * 64 + d2;
    DivMod(v3, w * 16 + c1 as nat % 16, c2 as nat / 64, 4);
    assert [Digit(d2), Digit(d3)] + rest == [Digit(d2)] + ([Digit(d3)] + rest);
    DecodeStep2(c1, c2, [Digit(d3)] + rest, out, w);
    DecodeStep3(c2, rest, out + [c1], v3);
    assert out + [c1] + [c2] == out + [c1, c2];
  }

  lemma DecodeQuad(c0: byte, c1: byte, c2: byte, rest: seq<char>, out: seq<byte>, val: nat)
    ensures DecodeChars(Quad(c0, c1, c2) + rest, out, val, -8)
         == DecodeChars(rest, out + [c0, c1, c2], ((val * 256 + c0 as int) * 256 + c1 as int) * 256 + c2 as int, -8)
  {
    var d0, d1, d2, d3 := c0 as nat / 4, (c0 as nat % 4) * 16 + c1 as nat / 16,
                          (c1 as nat % 16) * 4 + c2 as nat / 64, c2 as nat % 64;
    var v2 := (val * 64 + d0) * 64 + d1;
    DivMod(v2, (val * 64 + d0) * 4 + c0 as nat % 4, c1 as nat / 16, 16);
    var back := [Digit(d2), Digit(d3)] + rest;
    assert Quad(c0, c1, c2) + rest == [Digit(d0), Digit(d1)] + back;
    DecodeFront(c0, c1, back, out, val);
    DecodeBack(c1, c2, rest, out + [c0], v2);
    assert out + [c0] + [c1, c2] == out + [c0, c1, c2];
    QuadValue(val, c0, c1, c2);
  }

  lemma DecodeLastTwo(c0: byte, c1: byte, out: seq<byte>, val: nat)
    ensures DecodeChars(RfcEncode([c0, c1]), out, val, -8) == out + [c0, c1]
  {
    var d0, d1, d2 := c0 as nat / 4, (c0 as nat % 4) * 16 + c1 as nat / 16, (c1 as nat % 16) * 4;
    var v1 := val * 64 + d0;
    var v2 := v1 * 64 + d1;
    DivMod(v1, val, d0, 64);
    DivMod(v2, v1 * 4 + c0 as nat % 4, c1 as nat / 16, 16);
    assert RfcEncode([c0, c1]) == [Digit(d0)] + ([Digit(d1)] + ([Digit(d2)] + ['=']));
    DecodeStep0(d0, [Digit(d1)] + ([Digit(d2)] + ['=']), out, val);
    DecodeStep1(c0, c1, [Digit(d2)] + ['='], out, v1);
    DecodeStep2(c1, 0, ['='], out + [c0], v2);
    PadNotInAlphabet();
    assert out + [c0] + [c1] == out + [c0, c1];
  }

  lemma DecodeLastOne(c0: byte, out: seq<byte>, val: nat)
    ensures DecodeChars(RfcEncode([c0]), out, val, -8) == out + [c0]
  {
    var d0, d1 := c0 as nat / 4, (c0 as nat % 4) * 16;
    var v1 := val * 64 + d0;
    DivMod(v1, val, d0, 64);
    assert RfcEncode([c0]) == [Digit(d0)] + ([Digit(d1)] + ['=', '=']);
    DecodeStep0(d0, [Digit(d1)] + ['=', '='], out, val);
    DecodeStep1(c0, 0, ['=', '='], out, v1);
    PadNotInAlphabet();
  }

  lemma {:induction false} DecodeRfc(s: seq<byte>, out: seq<byte>, val: nat)
    ensures DecodeChars(RfcEncode(s), out, val, -8) == out + s
    decreases |s|
  {
    if |s| >= 3 {
      assert RfcEncode(s) == Quad(s[0], s[1], s[2]) + RfcEncode(s[3..]);
      DecodeQuad(s[0], s[1], s[2], RfcEncode(s[3..]), out, val);
      DecodeRfc(s[3..], out + [s[0], s[1], s[2]], ((val * 256 + s[0] as int) * 256 + s[1] as int) * 256 + s[2] as int);
      assert out + [s[0], s[1], s[2]] + s[3..] == out + s;
    } else if |s| == 2 {
      assert s == [s[0], s[1]];
      DecodeLastTwo(s[0], s[1], out, val);
    } else if |s| == 1 {
      assert s == [s[0]];
      DecodeLastOne(s[0], out, val);
    } else {
      assert out + s == out;
    }
  }

  /** Decoding an encoding gives back the original bytes. */
  lemma RoundTrip(s: seq<byte>)
    ensures Decode(Encode(s)) == s
  {
    EncodeIsRfc(s);
    DecodeRfc(s, [], 0);
  }

  /** Number of leading alphabet characters. */
  function AlphabetPrefix(t: seq<char>): (k: nat)
    ensures k <= |t|
    ensures forall i | 0 <= i < k :: InAlphabet(t[i])
    ensures k < |t| ==> !InAlphabet(t[k])
    decreases |t|
  {
    if |t| == 0 || !InAlphabet(t[0]) then 0 else 1 + AlphabetPrefix(t[1..])
  }

  lemma {:induction false} DecodeCount(t: seq<char>, out: seq<byte>, val: nat, valb: int)
    requires -8 <= valb < 0
    ensures 8 * |DecodeChars(t, out, val, valb)| <= 8 * |out| + (valb + 8) + 6 * AlphabetPrefix(t)
                                                 < 8 * |DecodeChars(t, out, val, valb)| + 8
    decreases |t|
  {
    if |t| == 0 || !InAlphabet(t[0]) {
    } else {
      var b := valb + 6;
      if b >= 0 {
        DecodeCount(t[1..], out + [((val * 64 + Sextet(t[0])) / Pow2(b) % 256) as byte], val * 64 + Sextet(t[0]), b - 8);
      } else {
        DecodeCount(t[1..], out, val * 64 + Sextet(t[0]), b);
      }
    }
  }

  /** The decoder emits floor(6k/8) bytes for the k alphabet characters
      before the first character outside the alphabet, and ignores the rest. */
  lemma DecodeLength(t: seq<char>)
    ensures |Decode(t)| == (6 * AlphabetPrefix(t)) / 8
  {
    DecodeCount(t, [], 0, -8);
    var n := |Decode(t)|;
    DivMod(6 * AlphabetPrefix(t), n, 6 * AlphabetPrefix(t) - 8 * n, 8);
  }

  lemma {:induction false} DecodeStopsAt(t: seq<char>, u: seq<char>, out: seq<byte>, val: nat, valb: int)
    requires -8 <= valb < 0
    requires |u| == 0 || !InAlphabet(u[0])
    ensures DecodeChars(t + u, out, val, valb) == DecodeChars(t, out, val, valb)
    decreases |t|
  {
    if |t| > 0 && InAlphabet(t[0]) {
      assert (t + u)[1..] == t[1..] + u;
      var v := val * 64 + Sextet(t[0]);
      var b := valb + 6;
      if b >= 0 {
        DecodeStopsAt(t[1..], u, out + [((v / Pow2(b)) % 256) as byte], v, b - 8);
      } else {
        DecodeStopsAt(t[1..], u, out, v, b);
      }
    } else if |t| == 0 {
      assert t + u == u;
    }
  }

  /** Everything from the first character outside the alphabet on is ignored. */
  lemma DecodeIgnoresTail(t: seq<char>)
    ensures Decode(t) == Decode(t[..AlphabetPrefix(t)])
  {
    var k := AlphabetPrefix(t);
    assert t == t[..k] + t[k..];
    DecodeStopsAt(t[..k], t[k..], [], 0, -8);
  }
}
