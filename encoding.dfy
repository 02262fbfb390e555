/**
 * The byte encodings behind the upload's Basic credentials: UTF-8 (Python's
 * `str.encode()` default) and the base 64 encoding of section 4 of RFC 4648
 * (`base64.b64encode`), with the decoder that inverts it.
 */
module Encoding {
  import opened Wrappers

  /** An octet, as Python's `bytes` holds them. */
  newtype Byte = x: int | 0 <= x < 256

  function ToByte(i: int): (b: Byte)
    requires 0 <= i < 256
    ensures b as int == i
  {
    i as Byte
  }

  /** The UTF-8 encoding of one Unicode scalar value (RFC 3629, section 3). */
  function Utf8Char(c: char): (r: seq<Byte>)
    ensures 1 <= |r| <= 4
    ensures (c as int) < 0x80 <==> |r| == 1
    ensures (c as int) < 0x80 ==> r[0] as int == c as int
    ensures (c as int) >= 0x80 ==> r[0] as int >= 0xC0
  {
    var n := c as int;
    if n < 0x80 then [ToByte(n)]
    else if n < 0x800 then [ToByte(0xC0 + n / 64), ToByte(0x80 + n % 64)]
    else if n < 0x10000 then
      [ToByte(0xE0 + n / 4096), ToByte(0x80 + n / 64 % 64), ToByte(0x80 + n % 64)]
    else
      [ToByte(0xF0 + n / 262144), ToByte(0x80 + n / 4096 % 64),
       ToByte(0x80 + n / 64 % 64), ToByte(0x80 + n % 64)]
  }

  function Utf8(s: string): (r: seq<Byte>)
    ensures |s| <= |r| <= 4 * |s|
  {
    if s == [] then [] else Utf8Char(s[0]) + Utf8(s[1..])
  }

  /** The 64-character alphabet of RFC 4648, section 4, Table 1. */
  function Digit(i: int): (c: char)
    requires 0 <= i < 64
  {
    if i < 26 then ('A' as int + i) as char
    else if i < 52 then ('a' as int + (i - 26)) as char
    else if i < 62 then ('0' as int + (i - 52)) as char
    else if i == 62 then '+'
    else '/'
  }

  /** The alphabet index of a character, if it is one of the 64. */
  function DigitValue(c: char): (r: Option<int>)
    ensures r.Some? ==> 0 <= r.value < 64 && Digit(r.value) == c
  {
    if 'A' <= c <= 'Z' then Some(c as int - 'A' as int)
    else if 'a' <= c <= 'z' then Some(c as int - 'a' as int + 26)
    else if '0' <= c <= '9' then Some(c as int - '0' as int + 52)
    else if c == '+' then Some(62)
    else if c == '/' then Some(63)
    else None
  }

  lemma DigitRoundTrip(i: int)
    requires 0 <= i < 64
    ensures DigitValue(Digit(i)) == Some(i)
  {
  }

  const Pad: char := '='

  /** A full 24-bit group of octets x, y, z as four alphabet characters. */
  function Quad(x: int, y: int, z: int): (s: string)
    requires 0 <= x < 256 && 0 <= y < 256 && 0 <= z < 256
    ensures |s| == 4 && Pad !in s
  {
    [Digit(x / 4), Digit(x % 4 * 16 + y / 16), Digit(y % 16 * 4 + z / 64), Digit(z % 64)]
  }

  /** A final group of two octets: three characters and one pad. */
  function Pair(x: int, y: int): (s: string)
    requires 0 <= x < 256 && 0 <= y < 256
    ensures |s| == 4
  {
    [Digit(x / 4), Digit(x % 4 * 16 + y / 16), Digit(y % 16 * 4), Pad]
  }

  /** A final group of one octet: two characters and two pads. */
  function Single(x: int): (s: string)
    requires 0 <= x < 256
    ensures |s| == 4
  {
    [Digit(x / 4), Digit(x % 4 * 16), Pad, Pad]
  }

  /**
   * RFC 4648 section 4: each 24-bit group becomes four characters; a final
   * group of one or two octets is padded with `=` to four characters.
   */
  function Encode(b: seq<Byte>): (s: string)
    ensures |s| == (|b| + 2) / 3 * 4
    decreases |b|
  {
    if |b| == 0 then ""
    else if |b| == 1 then Single(b[0] as int)
    else if |b| == 2 then Pair(b[0] as int, b[1] as int)
    else Quad(b[0] as int, b[1] as int, b[2] as int) + Encode(b[3..])
  }

  /** Four alphabet characters as the three octets of a full group. */
  function Group(a: char, b: char, c: char, d: char): Option<seq<Byte>> {
    match (DigitValue(a), DigitValue(b), DigitValue(c), DigitValue(d))
    case (Some(i), Some(j), Some(k), Some(l)) =>
      Some([ToByte(i * 4 + j / 16), ToByte(j % 16 * 16 + k / 4), ToByte(k % 4 * 64 + l)])
    case _ => None
  }

  /**
   * A final group ending in padding: one octet before `==`, two before `=`;
   * the bits the padding drops must be zero.
   */
  function Padded(a: char, b: char, c: char): Option<seq<Byte>> {
    match (DigitValue(a), DigitValue(b))
    case (Some(i), Some(j)) =>
      if c == Pad then
        if j % 16 == 0 then Some([ToByte(i * 4 + j / 16)]) else None
      else
        (match DigitValue(c)
         case Some(k) =>
           if k % 4 == 0 then Some([ToByte(i * 4 + j / 16), ToByte(j % 16 * 16 + k / 4)]) else None
         case None => None)
    case _ => None
  }

  /** Decoding of a canonical RFC 4648 base 64 text; anything else is rejected. */
  function Decode(s: string): (r: Option<seq<Byte>>)
    decreases |s|
  {
    if |s| == 0 then Some([])
    else if |s| < 4 then None
    else if |s| == 4 && s[3] == Pad then Padded(s[0], s[1], s[2])
    else
      match (Group(s[0], s[1], s[2], s[3]), Decode(s[4..]))
      case (Some(g), Some(rest)) => Some(g + rest)
      case _ => None
  }

  lemma ByteRoundTrip(v: Byte)
    ensures ToByte(v as int) == v
  {
  }

  lemma SplitOne(x: int)
    requires 0 <= x < 256
    ensures x / 4 * 4 + x % 4 * 16 / 16 == x
  {
  }

  lemma SplitTwo(x: int, y: int)
    requires 0 <= x < 256 && 0 <= y < 256
    ensures x / 4 * 4 + (x % 4 * 16 + y / 16) / 16 == x
    ensures (x % 4 * 16 + y / 16) % 16 * 16 + y % 16 * 4 / 4 == y
  {
  }

  lemma SplitThree(x: int, y: int, z: int)
    requires 0 <= x < 256 && 0 <= y < 256 && 0 <= z < 256
    ensures x / 4 * 4 + (x % 4 * 16 + y / 16) / 16 == x
    ensures (x % 4 * 16 + y / 16) % 16 * 16 + (y % 16 * 4 + z / 64) / 4 == y
    ensures (y % 16 * 4 + z / 64) % 4 * 64 + z % 64 == z
  {
    SplitTwo(x, y);
  }

  lemma DecodeSingle(x: int)
    requires 0 <= x < 256
    ensures Decode(Single(x)) == Some([ToByte(x)])
  {
    DigitRoundTrip(x / 4);
    DigitRoundTrip(x % 4 * 16);
    SplitOne(x);
  }

  lemma DecodePair(x: int, y: int)
    requires 0 <= x < 256 && 0 <= y < 256
    ensures Decode(Pair(x, y)) == Some([ToByte(x), ToByte(y)])
  {
    var c0, c1, c2 := x / 4, x % 4 * 16 + y / 16, y % 16 * 4;
    DigitRoundTrip(c0);
    DigitRoundTrip(c1);
    DigitRoundTrip(c2);
    SplitTwo(x, y);
    assert Padded(Digit(c0), Digit(c1), Digit(c2)) == Some([ToByte(x), ToByte(y)]);
  }

  lemma DecodeQuad(x: int, y: int, z: int, t: string)
    requires 0 <= x < 256 && 0 <= y < 256 && 0 <= z < 256
    ensures Decode(Quad(x, y, z) + t) ==
      match Decode(t)
      case None => None
      case Some(rest) => Some([ToByte(x), ToByte(y), ToByte(z)] + rest)
  {
    var q := Quad(x, y, z);
    var s := q + t;
    var c0, c1, c2, c3 := x / 4, x % 4 * 16 + y / 16, y % 16 * 4 + z / 64, z % 64;
    DigitRoundTrip(c0);
    DigitRoundTrip(c1);
    DigitRoundTrip(c2);
    DigitRoundTrip(c3);
    assert s[..4] == q && s[4..] == t;
    SplitThree(x, y, z);
    assert Group(s[0], s[1], s[2], s[3]) == Some([ToByte(x), ToByte(y), ToByte(z)]);
    assert s[3] != Pad;
  }

  /** Decoding undoes encoding for every octet sequence. */
  lemma {:induction false} DecodeEncode(b: seq<Byte>)
    ensures Decode(Encode(b)) == Some(b)
    decreases |b|
  {
    if |b| == 0 {
    } else if |b| == 1 {
      DecodeSingle(b[0] as int);
      ByteRoundTrip(b[0]);
      assert b == [b[0]];
    } else if |b| == 2 {
      DecodePair(b[0] as int, b[1] as int);
      ByteRoundTrip(b[0]);
      ByteRoundTrip(b[1]);
      assert b == [b[0], b[1]];
    } else {
      assert b == [b[0], b[1], b[2]] + b[3..];
      DecodeEncode(b[3..]);
      DecodeQuad(b[0] as int, b[1] as int, b[2] as int, Encode(b[3..]));
      ByteRoundTrip(b[0]);
      ByteRoundTrip(b[1]);
      ByteRoundTrip(b[2]);
    }
  }
}
