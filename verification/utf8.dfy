/** Bytes and the UTF-8 encoding Go applies when a string is converted to a
    byte slice (`[]byte(s)`), which is what a text unmarshaller receives. */
module Utf8 {
  import opened Wrappers

  newtype uint8 = x: int | 0 <= x < 256

  predicate IsScalar(n: int) {
    0 <= n < 0xD800 || 0xE000 <= n < 0x11_0000
  }

  /** The one to four bytes that encode a character: its scalar value cut
      into 6-bit groups below a length-marking lead byte. */
  function EncodeChar(c: char): (r: seq<uint8>)
    ensures 1 <= |r| <= 4
    ensures |r| == 1 <==> (c as int) < 0x80
  {
    var n := c as int;
    if n < 0x80 then [n as uint8]
    else if n < 0x800 then [(0xC0 + n / 0x40) as uint8, (0x80 + n % 0x40) as uint8]
    else if n < 0x1_0000 then
      var lo := n % 0x1000;
      [(0xE0 + n / 0x1000) as uint8, (0x80 + lo / 0x40) as uint8, (0x80 + lo % 0x40) as uint8]
    else
      var lo := n % 0x4_0000;
      var lo2 := lo % 0x1000;
      [(0xF0 + n / 0x4_0000) as uint8, (0x80 + lo / 0x1000) as uint8,
       (0x80 + lo2 / 0x40) as uint8, (0x80 + lo2 % 0x40) as uint8]
  }

  /** `[]byte(s)`: the characters' encodings, in order. */
  function Encode(s: string): (r: seq<uint8>)
    ensures |s| <= |r| <= 4 * |s|
  {
    if |s| == 0 then [] else EncodeChar(s[0]) + Encode(s[1..])
  }

  predicate IsContinuation(b: uint8) {
    0x80 <= b < 0xC0
  }

  /** The character at the front of a byte sequence and how many bytes it
      takes, or None for bytes that are not well-formed UTF-8 there
      (overlong forms and surrogates included). */
  function DecodeFirst(bs: seq<uint8>): (r: Option<(char, nat)>)
    requires |bs| > 0
    ensures r.Some? ==> 1 <= r.value.1 <= |bs|
  {
    var b0 := bs[0] as int;
    if b0 < 0x80 then Some((b0 as char, 1))
    else if 0xC0 <= b0 < 0xE0 && |bs| >= 2 && IsContinuation(bs[1]) then
      var n := (b0 - 0xC0) * 0x40 + (bs[1] as int - 0x80);
      if n >= 0x80 then Some((n as char, 2)) else None
    else if 0xE0 <= b0 < 0xF0 && |bs| >= 3 && IsContinuation(bs[1]) && IsContinuation(bs[2]) then
      var n := (b0 - 0xE0) * 0x1000 + (bs[1] as int - 0x80) * 0x40 + (bs[2] as int - 0x80);
      if n >= 0x800 && IsScalar(n) then Some((n as char, 3)) else None
    else if 0xF0 <= b0 < 0xF8 && |bs| >= 4 && IsContinuation(bs[1]) && IsContinuation(bs[2]) && IsContinuation(bs[3]) then
      var n := (b0 - 0xF0) * 0x4_0000 + (bs[1] as int - 0x80) * 0x1000 + (bs[2] as int - 0x80) * 0x40 + (bs[3] as int - 0x80);
      if 0x1_0000 <= n < 0x11_0000 then Some((n as char, 4)) else None
    else None
  }

  /** The string a byte sequence encodes, if it is well-formed UTF-8. */
  function Decode(bs: seq<uint8>): Option<string>
    decreases |bs|
  {
    if |bs| == 0 then Some("")
    else
      match DecodeFirst(bs)
      case None => None
      case Some((c, k)) =>
        match Decode(bs[k..])
        case None => None
        case Some(rest) => Some([c] + rest)
  }

  lemma DecodeTwo(n: int, rest: seq<uint8>)
    requires 0x80 <= n < 0x800
    ensures DecodeFirst([(0xC0 + n / 0x40) as uint8, (0x80 + n % 0x40) as uint8] + rest) == Some((n as char, 2))
  {
    var hi, lo := n / 0x40, n % 0x40;
    assert n == hi * 0x40 + lo && 2 <= hi < 0x20 && 0 <= lo < 0x40;
  }

  lemma DecodeThree(n: int, rest: seq<uint8>)
    requires 0x800 <= n < 0x1_0000 && IsScalar(n)
    ensures var lo := n % 0x1000;
      DecodeFirst([(0xE0 + n / 0x1000) as uint8, (0x80 + lo / 0x40) as uint8, (0x80 + lo % 0x40) as uint8] + rest)
        == Some((n as char, 3))
  {
    var hi, lo := n / 0x1000, n % 0x1000;
    assert n == hi * 0x1000 + lo && 0 <= hi < 0x10 && 0 <= lo < 0x1000;
    var mid, low := lo / 0x40, lo % 0x40;
    assert lo == mid * 0x40 + low && 0 <= mid < 0x40 && 0 <= low < 0x40;
  }

  lemma DecodeFour(n: int, rest: seq<uint8>)
    requires 0x1_0000 <= n < 0x11_0000
    ensures var lo := n % 0x4_0000; var lo2 := lo % 0x1000;
      DecodeFirst([(0xF0 + n / 0x4_0000) as uint8, (0x80 + lo / 0x1000) as uint8,
                   (0x80 + lo2 / 0x40) as uint8, (0x80 + lo2 % 0x40) as uint8] + rest)
        == Some((n as char, 4))
  {
    var hi, lo := n / 0x4_0000, n % 0x4_0000;
    assert n == hi * 0x4_0000 + lo && 0 <= hi < 5 && 0 <= lo < 0x4_0000;
    var mid, lo2 := lo / 0x1000, lo % 0x1000;
    assert lo == mid * 0x1000 + lo2 && 0 <= mid < 0x40 && 0 <= lo2 < 0x1000;
    var m2, low := lo2 / 0x40, lo2 % 0x40;
    assert lo2 == m2 * 0x40 + low && 0 <= m2 < 0x40 && 0 <= low < 0x40;
  }

  lemma DecodeEncodeChar(c: char, rest: seq<uint8>)
    ensures DecodeFirst(EncodeChar(c) + rest) == Some((c, |EncodeChar(c)|))
  {
    var n := c as int;
    if n < 0x80 {
    } else if n < 0x800 {
      DecodeTwo(n, rest);
    } else if n < 0x1_0000 {
      DecodeThree(n, rest);
    } else {
      DecodeFour(n, rest);
    }
  }

  /** Decoding what Encode produced gives the string back. */
  lemma {:induction false} DecodeEncode(s: string)
    ensures Decode(Encode(s)) == Some(s)
    decreases |s|
  {
    if |s| > 0 {
      var e := EncodeChar(s[0]);
      var tail := Encode(s[1..]);
      DecodeEncodeChar(s[0], tail);
      assert (e + tail)[|e|..] == tail;
      DecodeEncode(s[1..]);
      assert [s[0]] + s[1..] == s;
    }
  }
}
