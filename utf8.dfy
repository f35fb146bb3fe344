/** UTF-8, the encoding .NET's BinaryWriter and BinaryReader use for strings
    by default. Encoding is exact; decoding is total and replaces each byte
    that does not start a well-formed sequence by U+FFFD. */
module Utf8 {

  type byte = x: int | 0 <= x < 0x100

  const Replacement: char := 0xFFFD as char

  predicate IsContinuation(b: byte) { 0x80 <= b < 0xC0 }

  function EncodeChar(c: char): (bs: seq<byte>)
    ensures 1 <= |bs| <= 4
  {
    var v := c as int;
    var w := v / 0x40;
    var x := w / 0x40;
    if v < 0x80 then [v]
    else if v < 0x800 then [0xC0 + w, 0x80 + v % 0x40]
    else if v < 0x1_0000 then [0xE0 + x, 0x80 + w % 0x40, 0x80 + v % 0x40]
    else [0xF0 + x / 0x40, 0x80 + x % 0x40, 0x80 + w % 0x40, 0x80 + v % 0x40]
  }

  function Encode(s: string): (bs: seq<byte>)
    ensures |bs| >= |s|
  {
    if s == [] then [] else EncodeChar(s[0]) + Encode(s[1..])
  }

  predicate IsScalar(v: int) { 0 <= v < 0xD800 || 0xE000 <= v < 0x11_0000 }

  /** The first character of a non-empty byte sequence and how many bytes it takes. */
  function DecodeFirst(bs: seq<byte>): (r: (char, nat))
    requires |bs| > 0
    ensures 1 <= r.1 <= |bs|
  {
    var b0 := bs[0];
    if b0 < 0x80 then (b0 as char, 1)
    else if 0xC2 <= b0 < 0xE0 && |bs| >= 2 && IsContinuation(bs[1]) then
      (((b0 as int - 0xC0) * 0x40 + (bs[1] as int - 0x80)) as char, 2)
    else if 0xE0 <= b0 < 0xF0 && |bs| >= 3 && IsContinuation(bs[1]) && IsContinuation(bs[2])
      && 0x800 <= Three(b0, bs[1], bs[2]) && IsScalar(Three(b0, bs[1], bs[2])) then
      (Three(b0, bs[1], bs[2]) as char, 3)
    else if 0xF0 <= b0 < 0xF5 && |bs| >= 4
      && IsContinuation(bs[1]) && IsContinuation(bs[2]) && IsContinuation(bs[3])
      && 0x1_0000 <= Four(b0, bs[1], bs[2], bs[3]) < 0x11_0000 then
      (Four(b0, bs[1], bs[2], bs[3]) as char, 4)
    else (Replacement, 1)
  }

  function Three(b0: byte, b1: byte, b2: byte): int {
    (b0 as int - 0xE0) * 0x1000 + (b1 - 0x80) * 0x40 + (b2 - 0x80)
  }

  function Four(b0: byte, b1: byte, b2: byte, b3: byte): int {
    (b0 as int - 0xF0) * 0x4_0000 + (b1 - 0x80) * 0x1000 + (b2 - 0x80) * 0x40 + (b3 - 0x80)
  }

  function Decode(bs: seq<byte>): (s: string)
    ensures |s| <= |bs|
    decreases |bs|
  {
    if bs == [] then "" else
    var (c, n) := DecodeFirst(bs);
    [c] + Decode(bs[n..])
  }

  lemma DecodeFirstOfEncoded(c: char, rest: seq<byte>)
    ensures DecodeFirst(EncodeChar(c) + rest) == (c, |EncodeChar(c)|)
  {
    var v := c as int;
    if v < 0x80 {
      assert (EncodeChar(c) + rest)[0] == v;
    } else if v < 0x800 {
      DecodeOfTwo(c, rest);
    } else if v < 0x1_0000 {
      DecodeOfThree(c, rest);
    } else {
      DecodeOfFour(c, rest);
    }
  }

  lemma DecodeOfTwo(c: char, rest: seq<byte>)
    requires 0x80 <= c as int < 0x800
    ensures DecodeFirst(EncodeChar(c) + rest) == (c, 2)
  {
    var v := c as int;
    var w := v / 0x40;
    assert EncodeChar(c) == [0xC0 + w, 0x80 + v % 0x40];
    assert v == 0x40 * w + v % 0x40;
    DecodeTwo(0xC0 + w, 0x80 + v % 0x40, rest);
  }

  lemma DecodeOfThree(c: char, rest: seq<byte>)
    requires 0x800 <= c as int < 0x1_0000
    ensures DecodeFirst(EncodeChar(c) + rest) == (c, 3)
  {
    var v := c as int;
    var w := v / 0x40;
    var x := w / 0x40;
    assert EncodeChar(c) == [0xE0 + x, 0x80 + w % 0x40, 0x80 + v % 0x40];
    assert v == 0x40 * w + v % 0x40 && w == 0x40 * x + w % 0x40;
    DecodeThree(0xE0 + x, 0x80 + w % 0x40, 0x80 + v % 0x40, rest);
  }

  lemma DecodeOfFour(c: char, rest: seq<byte>)
    requires 0x1_0000 <= c as int
    ensures DecodeFirst(EncodeChar(c) + rest) == (c, 4)
  {
    var v := c as int;
    var w := v / 0x40;
    var x := w / 0x40;
    assert EncodeChar(c) == [0xF0 + x / 0x40, 0x80 + x % 0x40, 0x80 + w % 0x40, 0x80 + v % 0x40];
    assert v == 0x40 * w + v % 0x40 && w == 0x40 * x + w % 0x40 && x == 0x40 * (x / 0x40) + x % 0x40;
    DecodeFour(0xF0 + x / 0x40, 0x80 + x % 0x40, 0x80 + w % 0x40, 0x80 + v % 0x40, rest);
  }

  lemma DecodeTwo(b0: byte, b1: byte, rest: seq<byte>)
    requires 0xC2 <= b0 < 0xE0 && IsContinuation(b1)
    ensures DecodeFirst([b0, b1] + rest) == (((b0 as int - 0xC0) * 0x40 + (b1 - 0x80)) as char, 2)
  {
  }

  lemma DecodeThree(b0: byte, b1: byte, b2: byte, rest: seq<byte>)
    requires 0xE0 <= b0 < 0xF0 && IsContinuation(b1) && IsContinuation(b2)
    requires 0x800 <= Three(b0, b1, b2) && IsScalar(Three(b0, b1, b2))
    ensures DecodeFirst([b0, b1, b2] + rest) == (Three(b0, b1, b2) as char, 3)
  {
    var bs := [b0, b1, b2] + rest;
    assert bs[0] == b0 && bs[1] == b1 && bs[2] == b2;
  }

  lemma DecodeFour(b0: byte, b1: byte, b2: byte, b3: byte, rest: seq<byte>)
    requires 0xF0 <= b0 < 0xF5 && IsContinuation(b1) && IsContinuation(b2) && IsContinuation(b3)
    requires 0x1_0000 <= Four(b0, b1, b2, b3) < 0x11_0000
    ensures DecodeFirst([b0, b1, b2, b3] + rest) == (Four(b0, b1, b2, b3) as char, 4)
  {
    var bs := [b0, b1, b2, b3] + rest;
    assert bs[0] == b0 && bs[1] == b1 && bs[2] == b2 && bs[3] == b3;
  }

  /** Decoding undoes encoding, for every string. */
  lemma {:induction false} DecodeEncode(s: string)
    ensures Decode(Encode(s)) == s
  {
    if s != [] {
      var e := EncodeChar(s[0]);
      var bs := e + Encode(s[1..]);
      DecodeFirstOfEncoded(s[0], Encode(s[1..]));
      assert bs[|e|..] == Encode(s[1..]);
      DecodeEncode(s[1..]);
    }
  }
}
