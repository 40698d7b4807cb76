/**
  Well-formed UTF-8, as defined by RFC 3629: the byte syntax of its
  section 4 (`ValidUtf8`) and the encoding of a scalar value of its
  section 3 (`EncodeScalar`). Rust's `str::from_utf8` accepts a byte slice
  exactly when it is well-formed, and every Rust `String` holds such bytes.
 */
module Utf8 {
  import opened Bytes

  /** A continuation byte: UTF8-tail = %x80-BF. */
  predicate IsTail(b: Byte) {
    0x80 <= b <= 0xBF
  }

  /**
    The length of the well-formed character (one of UTF8-1 to UTF8-4) that
    `s` starts with, or 0 when `s` does not start with one.
   */
  function CharLength(s: seq<Byte>): (n: nat)
    ensures n <= 4 && n <= |s|
    ensures n != 0 ==> s[0] !in {0xC0, 0xC1} && s[0] <= 0xF4 && !IsTail(s[0])
  {
    if s == [] then 0
    else if s[0] <= 0x7F then 1
    else if 0xC2 <= s[0] <= 0xDF then
      if 2 <= |s| && IsTail(s[1]) then 2 else 0
    else if s[0] == 0xE0 then
      if 3 <= |s| && 0xA0 <= s[1] <= 0xBF && IsTail(s[2]) then 3 else 0
    else if 0xE1 <= s[0] <= 0xEC || 0xEE <= s[0] <= 0xEF then
      if 3 <= |s| && IsTail(s[1]) && IsTail(s[2]) then 3 else 0
    else if s[0] == 0xED then
      if 3 <= |s| && 0x80 <= s[1] <= 0x9F && IsTail(s[2]) then 3 else 0
    else if s[0] == 0xF0 then
      if 4 <= |s| && 0x90 <= s[1] <= 0xBF && IsTail(s[2]) && IsTail(s[3]) then 4 else 0
    else if 0xF1 <= s[0] <= 0xF3 then
      if 4 <= |s| && IsTail(s[1]) && IsTail(s[2]) && IsTail(s[3]) then 4 else 0
    else if s[0] == 0xF4 then
      if 4 <= |s| && 0x80 <= s[1] <= 0x8F && IsTail(s[2]) && IsTail(s[3]) then 4 else 0
    else 0
  }

  /**
    UTF8-octets = *( UTF8-char ): `s` is a sequence of well-formed characters.
    Such a sequence never starts with a continuation byte and never ends with
    a lead byte, that is, in the middle of a character.
   */
  predicate ValidUtf8(s: seq<Byte>)
    ensures ValidUtf8(s) && s != [] ==> !IsTail(s[0]) && s[|s| - 1] <= 0xBF
    decreases |s|
  {
    s == [] || (CharLength(s) != 0 && ValidUtf8(s[CharLength(s)..]))
  }

  /** A Unicode scalar value: a code point that is not a surrogate. */
  predicate IsScalar(c: int) {
    0 <= c <= 0x10FFFF && !(0xD800 <= c <= 0xDFFF)
  }

  /** The UTF-8 encoding of one scalar value, by the table of RFC 3629 section 3. */
  function EncodeScalar(c: int): (r: seq<Byte>)
    requires IsScalar(c)
    ensures 1 <= |r| <= 4
  {
    if c < 0x80 then [c]
    else if c < 0x800 then [0xC0 + c / 0x40, 0x80 + c % 0x40]
    else if c < 0x1_0000 then [0xE0 + c / 0x1000, 0x80 + (c / 0x40) % 0x40, 0x80 + c % 0x40]
    else [0xF0 + c / 0x4_0000, 0x80 + (c / 0x1000) % 0x40, 0x80 + (c / 0x40) % 0x40, 0x80 + c % 0x40]
  }

  /** The UTF-8 encoding of a sequence of scalar values: what a Rust `String` holds. */
  function EncodeScalars(cs: seq<int>): (r: seq<Byte>)
    requires forall i :: 0 <= i < |cs| ==> IsScalar(cs[i])
  {
    if cs == [] then [] else EncodeScalar(cs[0]) + EncodeScalars(cs[1..])
  }

  /** Whatever follows it, an encoded scalar is read back as one character of its own length. */
  lemma CharLengthOfEncodedScalar(c: int, rest: seq<Byte>)
    requires IsScalar(c)
    ensures CharLength(EncodeScalar(c) + rest) == |EncodeScalar(c)|
  {
  }

  /** Every encoding of scalar values is well-formed UTF-8. */
  lemma {:induction false} EncodedScalarsAreValid(cs: seq<int>)
    requires forall i :: 0 <= i < |cs| ==> IsScalar(cs[i])
    ensures ValidUtf8(EncodeScalars(cs))
  {
    if cs != [] {
      var head, tail := EncodeScalar(cs[0]), EncodeScalars(cs[1..]);
      CharLengthOfEncodedScalar(cs[0], tail);
      EncodedScalarsAreValid(cs[1..]);
      assert (head + tail)[|head|..] == tail;
    }
  }

  /** Every byte sequence in the ASCII range (%x00-7F) is well-formed UTF-8. */
  lemma {:induction false} AsciiIsValid(s: seq<Byte>)
    requires forall i :: 0 <= i < |s| ==> s[i] <= 0x7F
    ensures ValidUtf8(s)
  {
    if s != [] {
      AsciiIsValid(s[1..]);
    }
  }

  /** The scalar value of the character that `s` starts with: the bits its bytes carry. */
  function DecodeChar(s: seq<Byte>): int
    requires CharLength(s) != 0
  {
    var n := CharLength(s);
    var b0: int := s[0];
    if n == 1 then b0
    else if n == 2 then (b0 - 0xC0) * 0x40 + Bits(s[1])
    else if n == 3 then (b0 - 0xE0) * 0x1000 + Bits(s[1]) * 0x40 + Bits(s[2])
    else (b0 - 0xF0) * 0x4_0000 + Bits(s[1]) * 0x1000 + Bits(s[2]) * 0x40 + Bits(s[3])
  }

  /** The six payload bits of a continuation byte. */
  function Bits(b: Byte): int {
    b as int - 0x80
  }

  /** Splitting `hi * d + lo` by `d` gives back its two parts, for the powers of 64 used here. */
  lemma Split(hi: int, lo: int, d: int)
    requires d in {0x40, 0x1000, 0x4_0000}
    requires 0 <= lo < d
    ensures (hi * d + lo) / d == hi && (hi * d + lo) % d == lo
  {
  }

  /** UTF8-2: the two bytes carry a scalar in U+0080..U+07FF and are its encoding. */
  lemma TwoByteInverse(b0: Byte, b1: Byte)
    requires 0xC2 <= b0 <= 0xDF && IsTail(b1)
    ensures var c := (b0 - 0xC0) * 0x40 + Bits(b1);
      IsScalar(c) && EncodeScalar(c) == [b0, b1]
  {
  }

  /** UTF8-3: the three bytes carry a non-surrogate scalar in U+0800..U+FFFF and are its encoding. */
  lemma ThreeByteInverse(b0: Byte, b1: Byte, b2: Byte)
    requires 0xE0 <= b0 <= 0xEF && IsTail(b1) && IsTail(b2)
    requires b0 == 0xE0 ==> 0xA0 <= b1
    requires b0 == 0xED ==> b1 <= 0x9F
    ensures var c := (b0 - 0xE0) * 0x1000 + Bits(b1) * 0x40 + Bits(b2);
      IsScalar(c) && EncodeScalar(c) == [b0, b1, b2]
  {
  }

  /** UTF8-4: the four bytes carry a scalar in U+10000..U+10FFFF and are its encoding. */
  lemma FourByteInverse(b0: Byte, b1: Byte, b2: Byte, b3: Byte)
    requires 0xF0 <= b0 <= 0xF4 && IsTail(b1) && IsTail(b2) && IsTail(b3)
    requires b0 == 0xF0 ==> 0x90 <= b1
    requires b0 == 0xF4 ==> b1 <= 0x8F
    ensures var c := (b0 - 0xF0) * 0x4_0000 + Bits(b1) * 0x1000 + Bits(b2) * 0x40 + Bits(b3);
      IsScalar(c) && EncodeScalar(c) == [b0, b1, b2, b3]
  {
    var c := (b0 - 0xF0) * 0x4_0000 + Bits(b1) * 0x1000 + Bits(b2) * 0x40 + Bits(b3);
    var top := (b0 - 0xF0) * 0x40 + Bits(b1);
    var mid := top * 0x40 + Bits(b2);
    assert c == mid * 0x40 + Bits(b3);
    Split(mid, Bits(b3), 0x40);
    Split(top, Bits(b2), 0x40);
    assert c == top * 0x1000 + (Bits(b2) * 0x40 + Bits(b3));
    Split(top, Bits(b2) * 0x40 + Bits(b3), 0x1000);
    Split(b0 - 0xF0, Bits(b1) * 0x1000 + Bits(b2) * 0x40 + Bits(b3), 0x4_0000);
  }

  /** A well-formed character carries a scalar value, and is that value's encoding. */
  lemma DecodeCharIsInverse(s: seq<Byte>)
    requires CharLength(s) != 0
    ensures IsScalar(DecodeChar(s))
    ensures EncodeScalar(DecodeChar(s)) == s[..CharLength(s)]
  {
    var n := CharLength(s);
    if n == 2 {
      TwoByteInverse(s[0], s[1]);
      assert s[..n] == [s[0], s[1]];
    } else if n == 3 {
      ThreeByteInverse(s[0], s[1], s[2]);
      assert s[..n] == [s[0], s[1], s[2]];
    } else if n == 4 {
      FourByteInverse(s[0], s[1], s[2], s[3]);
      assert s[..n] == [s[0], s[1], s[2], s[3]];
    }
  }

  /** The scalar values of a well-formed byte sequence, in order. */
  function DecodeScalars(s: seq<Byte>): (cs: seq<int>)
    requires ValidUtf8(s)
    ensures forall i :: 0 <= i < |cs| ==> IsScalar(cs[i])
    ensures EncodeScalars(cs) == s
    decreases |s|
  {
    if s == [] then []
    else
      var n := CharLength(s);
      DecodeCharIsInverse(s);
      assert s == s[..n] + s[n..];
      [DecodeChar(s)] + DecodeScalars(s[n..])
  }

  /** Well-formed UTF-8 is exactly the encoding of some sequence of scalar values. */
  lemma ValidIffEncoding(s: seq<Byte>)
    ensures ValidUtf8(s)
        <==> exists cs :: (forall i :: 0 <= i < |cs| ==> IsScalar(cs[i])) && EncodeScalars(cs) == s
  {
    if ValidUtf8(s) {
      var cs := DecodeScalars(s);
      assert (forall i :: 0 <= i < |cs| ==> IsScalar(cs[i])) && EncodeScalars(cs) == s;
    }
    if exists cs :: (forall i :: 0 <= i < |cs| ==> IsScalar(cs[i])) && EncodeScalars(cs) == s {
      var cs :| (forall i :: 0 <= i < |cs| ==> IsScalar(cs[i])) && EncodeScalars(cs) == s;
      EncodedScalarsAreValid(cs);
    }
  }
}
