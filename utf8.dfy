/**
  Well-formed UTF-8, the syntax of section 4 of RFC 3629, which is what Go's
  `utf8.Valid` accepts: no overlong forms, no surrogates, nothing above
  U+10FFFF. The encoder of section 3 is here as its partner: the valid byte
  strings are exactly the encodings of sequences of Unicode scalar values.
*/
module Utf8 {
  import opened Text

  predicate IsTail(b: byte) {
    0x80 <= b <= 0xBF
  }

  /** The range the second byte must fall in after lead byte b0 (the special rows of the RFC 3629 grammar). */
  predicate SecondFits(b0: byte, b1: byte) {
    if b0 == 0xE0 then 0xA0 <= b1 <= 0xBF
    else if b0 == 0xED then 0x80 <= b1 <= 0x9F
    else if b0 == 0xF0 then 0x90 <= b1 <= 0xBF
    else if b0 == 0xF4 then 0x80 <= b1 <= 0x8F
    else IsTail(b1)
  }

  /** Length of the well-formed character `s` starts with; 0 when it starts with none. */
  function CharLength(s: Bytes): (n: nat)
    ensures n <= |s| && n <= 4
    ensures s != [] && s[0] <= 0x7F ==> n == 1
  {
    if |s| == 0 then 0
    else if s[0] <= 0x7F then 1
    else if 0xC2 <= s[0] <= 0xDF then (if |s| >= 2 && IsTail(s[1]) then 2 else 0)
    else if 0xE0 <= s[0] <= 0xEF then (if |s| >= 3 && SecondFits(s[0], s[1]) && IsTail(s[2]) then 3 else 0)
    else if 0xF0 <= s[0] <= 0xF4 then
      (if |s| >= 4 && SecondFits(s[0], s[1]) && IsTail(s[2]) && IsTail(s[3]) then 4 else 0)
    else 0
  }

  /** utf8.Valid: the bytes split into well-formed characters. */
  predicate Valid(s: Bytes)
    decreases |s|
  {
    s == [] || (CharLength(s) > 0 && Valid(s[CharLength(s)..]))
  }

  /** ASCII text is valid UTF-8. */
  lemma {:induction false} AsciiIsValid(s: Bytes)
    requires forall i :: 0 <= i < |s| ==> s[i] < 128
    ensures Valid(s)
    decreases |s|
  {
    if s != [] {
      AsciiIsValid(s[1..]);
    }
  }

  /** A Unicode scalar value: a code point that is not a surrogate. */
  predicate IsScalar(c: int) {
    0 <= c < 0xD800 || 0xE000 <= c <= 0x10FFFF
  }

  /** The UTF-8 encoding of one scalar value (section 3 of RFC 3629). */
  function EncodeRune(c: int): (r: Bytes)
    requires IsScalar(c)
    ensures 1 <= |r| <= 4
  {
    if c < 0x80 then [c]
    else if c < 0x800 then [0xC0 + c / 64, 0x80 + c % 64]
    else if c < 0x10000 then [0xE0 + c / 4096, 0x80 + c / 64 % 64, 0x80 + c % 64]
    else [0xF0 + c / 262144, 0x80 + c / 4096 % 64, 0x80 + c / 64 % 64, 0x80 + c % 64]
  }

  /** The encoding of a sequence of scalar values. */
  function EncodeRunes(cs: seq<int>): Bytes
    requires forall i :: 0 <= i < |cs| ==> IsScalar(cs[i])
  {
    if cs == [] then [] else EncodeRune(cs[0]) + EncodeRunes(cs[1..])
  }

  /** The scalar value of the character `s` starts with. */
  function DecodeRune(s: Bytes): int
    requires CharLength(s) > 0
  {
    var n := CharLength(s);
    var b0, b1, b2, b3 := s[0] as int, if n > 1 then s[1] as int else 0, if n > 2 then s[2] as int else 0, if n > 3 then s[3] as int else 0;
    if n == 1 then b0
    else if n == 2 then (b0 - 0xC0) * 64 + (b1 - 0x80)
    else if n == 3 then (b0 - 0xE0) * 4096 + (b1 - 0x80) * 64 + (b2 - 0x80)
    else (b0 - 0xF0) * 262144 + (b1 - 0x80) * 4096 + (b2 - 0x80) * 64 + (b3 - 0x80)
  }

  /** The scalar values of a valid byte string, in order. */
  function DecodeRunes(s: Bytes): (cs: seq<int>)
    requires Valid(s)
    decreases |s|
  {
    if s == [] then [] else [DecodeRune(s)] + DecodeRunes(s[CharLength(s)..])
  }

  /** The encoding of a scalar value is one well-formed character, whatever follows it. */
  lemma EncodeRuneWellFormed(c: int, rest: Bytes)
    requires IsScalar(c)
    ensures CharLength(EncodeRune(c) + rest) == |EncodeRune(c)|
  {
    var e := EncodeRune(c);
    var s := e + rest;
    assert s[..|e|] == e;
    if 0x800 <= c < 0x10000 {
      assert c / 4096 <= 15;
      if c < 0x1000 {
        assert c / 64 >= 32;
      }
      if 0xD000 <= c < 0xE000 {
        assert c / 4096 == 13 && c / 64 % 64 == c / 64 - 13 * 64;
      }
    } else if c >= 0x10000 {
      assert c / 262144 <= 4;
      if c < 0x40000 {
        assert c / 4096 >= 16 && c / 4096 % 64 == c / 4096;
      }
      if c >= 0x100000 {
        assert c / 262144 == 4 && c / 4096 % 64 == c / 4096 - 256;
      }
    }
  }

  /** Decoding the encoding of a scalar value gives it back. */
  lemma DecodeEncodeRune(c: int, rest: Bytes)
    requires IsScalar(c)
    ensures CharLength(EncodeRune(c) + rest) > 0 && DecodeRune(EncodeRune(c) + rest) == c
  {
    EncodeRuneWellFormed(c, rest);
    var e := EncodeRune(c);
    var s := e + rest;
    assert s[..|e|] == e;
    if 0x80 <= c < 0x800 {
      Radix64(c / 64, c % 64);
    } else if 0x800 <= c < 0x10000 {
      Digits3(c);
    } else if c >= 0x10000 {
      Digits4(c);
    }
  }

  lemma Digits3(c: int)
    requires c >= 0
    ensures c / 4096 * 4096 + c / 64 % 64 * 64 + c % 64 == c
  {
    assert c == c / 64 * 64 + c % 64;
    assert c / 64 == c / 64 / 64 * 64 + c / 64 % 64;
    assert c / 64 / 64 == c / 4096;
  }

  lemma Digits4(c: int)
    requires c >= 0
    ensures c / 262144 * 262144 + c / 4096 % 64 * 4096 + c / 64 % 64 * 64 + c % 64 == c
  {
    Digits3(c);
    assert c / 4096 == c / 4096 / 64 * 64 + c / 4096 % 64;
    assert c / 4096 / 64 == c / 262144;
  }

  /** The character a well-formed string starts with is the encoding of a scalar value. */
  lemma EncodeDecodeRune(s: Bytes)
    requires CharLength(s) > 0
    ensures IsScalar(DecodeRune(s)) && EncodeRune(DecodeRune(s)) == s[..CharLength(s)]
  {
    var n := CharLength(s);
    if n == 2 {
      EncodeDecodeTwo(s);
    } else if n == 3 {
      EncodeDecodeThree(s);
    } else if n == 4 {
      EncodeDecodeFour(s);
    }
  }

  lemma EncodeDecodeTwo(s: Bytes)
    requires CharLength(s) == 2
    ensures IsScalar(DecodeRune(s)) && EncodeRune(DecodeRune(s)) == s[..2]
  {
    Radix64(s[0] - 0xC0, s[1] - 0x80);
  }

  lemma EncodeDecodeThree(s: Bytes)
    requires CharLength(s) == 3
    ensures IsScalar(DecodeRune(s)) && EncodeRune(DecodeRune(s)) == s[..3]
  {
    Radix4096(s[0] - 0xE0, s[1] - 0x80, s[2] - 0x80);
  }

  lemma EncodeDecodeFour(s: Bytes)
    requires CharLength(s) == 4
    ensures IsScalar(DecodeRune(s)) && EncodeRune(DecodeRune(s)) == s[..4]
  {
    Radix262144(s[0] - 0xF0, s[1] - 0x80, s[2] - 0x80, s[3] - 0x80);
  }

  lemma Radix64(a: int, b: int)
    requires 0 <= b < 64
    ensures (a * 64 + b) / 64 == a && (a * 64 + b) % 64 == b
  {
  }

  lemma Radix4096(a: int, b: int, d: int)
    requires 0 <= b < 64 && 0 <= d < 64
    ensures var c := a * 4096 + b * 64 + d; c / 4096 == a && c / 64 % 64 == b && c % 64 == d
  {
    var c := a * 4096 + b * 64 + d;
    Radix64(a * 64 + b, d);
    assert c == (a * 64 + b) * 64 + d;
    Radix64(a, b);
    assert c / 4096 == (a * 64 + b) / 64;
  }

  lemma Radix262144(a: int, b: int, d: int, e: int)
    requires 0 <= b < 64 && 0 <= d < 64 && 0 <= e < 64
    ensures var c := a * 262144 + b * 4096 + d * 64 + e;
      c / 262144 == a && c / 4096 % 64 == b && c / 64 % 64 == d && c % 64 == e
  {
    var c := a * 262144 + b * 4096 + d * 64 + e;
    var hi := a * 64 + b;
    Radix4096(hi, d, e);
    assert c == hi * 4096 + d * 64 + e;
    Radix64(a, b);
    assert c / 262144 == hi / 64;
  }

  /** Every sequence of scalar values encodes to valid UTF-8. */
  lemma {:induction false} EncodedIsValid(cs: seq<int>)
    requires forall i :: 0 <= i < |cs| ==> IsScalar(cs[i])
    ensures Valid(EncodeRunes(cs))
    decreases |cs|
  {
    if cs != [] {
      var e, rest := EncodeRune(cs[0]), EncodeRunes(cs[1..]);
      EncodedIsValid(cs[1..]);
      EncodeRuneWellFormed(cs[0], rest);
      assert (e + rest)[|e|..] == rest;
    }
  }

  /** Every valid byte string is the encoding of the scalar values it decodes to. */
  lemma {:induction false} ValidIsEncoded(s: Bytes)
    requires Valid(s)
    ensures forall i :: 0 <= i < |DecodeRunes(s)| ==> IsScalar(DecodeRunes(s)[i])
    ensures EncodeRunes(DecodeRunes(s)) == s
    decreases |s|
  {
    if s != [] {
      var n := CharLength(s);
      ValidIsEncoded(s[n..]);
      EncodeDecodeRune(s);
      var cs, rest := DecodeRunes(s), DecodeRunes(s[n..]);
      assert cs == [DecodeRune(s)] + rest;
      assert cs[1..] == rest;
      forall i | 0 <= i < |cs|
        ensures IsScalar(cs[i])
      {
        if i > 0 {
          assert cs[i] == rest[i - 1];
        }
      }
      assert EncodeRunes(cs) == EncodeRune(cs[0]) + EncodeRunes(rest);
      assert s[..n] + s[n..] == s;
    }
  }
}
