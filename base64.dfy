/**
  The standard base64 encoding of section 4 of RFC 4648, with `=` padding,
  as Go's `base64.StdEncoding` implements it: `EncodeToString` and
  `DecodeString`. The decoder is Go's default, non-strict one: it skips
  carriage returns and line feeds wherever they occur, requires the padding,
  rejects padding anywhere but at the end, and ignores the unused low bits
  of a final, padded group.
*/
module Base64 {
  import opened Text
  import opened Wrappers

  const Pad: byte := 61
  const LineFeed: byte := 10
  const CarriageReturn: byte := 13

  /** The character for a six-bit value (table 1 of RFC 4648). */
  function CharOf(v: int): (c: byte)
    requires 0 <= v < 64
    ensures c != Pad && c != LineFeed && c != CarriageReturn && c < 128
  {
    if v < 26 then 65 + v
    else if v < 52 then 97 + (v - 26)
    else if v < 62 then 48 + (v - 52)
    else if v == 62 then 43
    else 47
  }

  /** The six-bit value of an alphabet character; None off the alphabet. */
  function ValueOf(c: byte): (r: Option<int>)
    ensures r.Some? ==> 0 <= r.value < 64 && CharOf(r.value) == c
  {
    if 65 <= c <= 90 then Some(c - 65)
    else if 97 <= c <= 122 then Some(c - 71)
    else if 48 <= c <= 57 then Some(c + 4)
    else if c == 43 then Some(62)
    else if c == 47 then Some(63)
    else None
  }

  /** ValueOf inverts CharOf. */
  lemma ValueOfCharOf(v: int)
    requires 0 <= v < 64
    ensures ValueOf(CharOf(v)) == Some(v)
  {
  }

  predicate InAlphabet(c: byte) {
    ValueOf(c).Some?
  }

  function Sextet(c: byte): int
    requires InAlphabet(c)
  {
    ValueOf(c).value
  }

  /** Three bytes as four characters. */
  function EncodeGroup(b0: byte, b1: byte, b2: byte): Bytes
  {
    [CharOf(b0 / 4), CharOf(b0 % 4 * 16 + b1 / 16), CharOf(b1 % 16 * 4 + b2 / 64), CharOf(b2 % 64)]
  }

  /** A final single byte: two characters and two `=`. */
  function EncodeOne(b0: byte): (r: Bytes)
    ensures |r| == 4
  {
    [CharOf(b0 / 4), CharOf(b0 % 4 * 16), Pad, Pad]
  }

  /** A final pair of bytes: three characters and one `=`. */
  function EncodeTwo(b0: byte, b1: byte): (r: Bytes)
    ensures |r| == 4
  {
    [CharOf(b0 / 4), CharOf(b0 % 4 * 16 + b1 / 16), CharOf(b1 % 16 * 4), Pad]
  }

  /** base64.StdEncoding.EncodeToString */
  function Encode(s: Bytes): (r: Bytes)
    ensures |r| == (|s| + 2) / 3 * 4
    decreases |s|
  {
    if |s| == 0 then []
    else if |s| == 1 then EncodeOne(s[0])
    else if |s| == 2 then EncodeTwo(s[0], s[1])
    else EncodeGroup(s[0], s[1], s[2]) + Encode(s[3..])
  }

  /** The encoding is ASCII text. */
  lemma {:induction false} EncodeIsAscii(s: Bytes)
    ensures forall i :: 0 <= i < |Encode(s)| ==> Encode(s)[i] < 128
    decreases |s|
  {
    if |s| >= 3 {
      EncodeIsAscii(s[3..]);
      var g, rest := EncodeGroup(s[0], s[1], s[2]), Encode(s[3..]);
      assert forall i :: 0 <= i < |rest| ==> (g + rest)[|g| + i] == rest[i];
    }
  }

  /** The input with every carriage return and line feed removed. */
  function StripNewlines(s: Bytes): (r: Bytes)
    decreases |s|
  {
    if s == [] then []
    else (if s[0] == LineFeed || s[0] == CarriageReturn then [] else [s[0]]) + StripNewlines(s[1..])
  }

  /** Four alphabet characters as three bytes. */
  function DecodeFull(c0: byte, c1: byte, c2: byte, c3: byte): Option<Bytes>
  {
    if InAlphabet(c0) && InAlphabet(c1) && InAlphabet(c2) && InAlphabet(c3) then
      var v0, v1, v2, v3 := Sextet(c0), Sextet(c1), Sextet(c2), Sextet(c3);
      Some([v0 * 4 + v1 / 16, v1 % 16 * 16 + v2 / 4, v2 % 4 * 64 + v3])
    else None
  }

  /** The last group: four characters, or two or three followed by padding. */
  function DecodeLast(c0: byte, c1: byte, c2: byte, c3: byte): Option<Bytes>
  {
    if c2 == Pad && c3 == Pad then
      if InAlphabet(c0) && InAlphabet(c1) then
        Some([Sextet(c0) * 4 + Sextet(c1) / 16])
      else None
    else if c3 == Pad then
      if InAlphabet(c0) && InAlphabet(c1) && InAlphabet(c2) then
        var v0, v1, v2 := Sextet(c0), Sextet(c1), Sextet(c2);
        Some([v0 * 4 + v1 / 16, v1 % 16 * 16 + v2 / 4])
      else None
    else DecodeFull(c0, c1, c2, c3)
  }

  /** Decodes groups of four characters; a group that is cut short is an error. */
  function DecodeGroups(t: Bytes): Option<Bytes>
    decreases |t|
  {
    if |t| == 0 then Some([])
    else if |t| < 4 then None
    else if |t| == 4 then DecodeLast(t[0], t[1], t[2], t[3])
    else
      var head, tail := DecodeFull(t[0], t[1], t[2], t[3]), DecodeGroups(t[4..]);
      if head.Some? && tail.Some? then Some(head.value + tail.value) else None
  }

  /**
    base64.StdEncoding.DecodeString; None is Go's CorruptInputError, which
    it returns exactly on input that is not well formed.
  */
  function Decode(s: Bytes): (r: Option<Bytes>)
    ensures r.Some? <==> IsBase64(s)
  {
    DecodeGroupsSucceedsIff(StripNewlines(s));
    DecodeGroups(StripNewlines(s))
  }

  /**
    Well-formed input, stated without reference to the decoder: once line
    breaks are dropped, whole groups of four, every character in the alphabet
    except one or two `=` that end the input.
  */
  predicate IsBase64(s: Bytes) {
    Wellformed(StripNewlines(s))
  }

  predicate Wellformed(t: Bytes) {
    && |t| % 4 == 0
    && forall i :: 0 <= i < |t| ==> InAlphabet(t[i]) || PaddingAt(t, i)
  }

  /** Position i may hold `=`: the last one, or the one before it when the last is `=` too. */
  predicate PaddingAt(t: Bytes, i: int)
    requires 0 <= i < |t|
  {
    t[i] == Pad && (i == |t| - 1 || (i == |t| - 2 && t[|t| - 1] == Pad))
  }

  /** Decoding succeeds exactly on well-formed input. */
  lemma DecodeSucceedsIff(s: Bytes)
    ensures Decode(s).Some? <==> IsBase64(s)
  {
    DecodeGroupsSucceedsIff(StripNewlines(s));
  }

  lemma {:induction false} DecodeGroupsSucceedsIff(t: Bytes)
    ensures DecodeGroups(t).Some? <==> Wellformed(t)
    decreases |t|
  {
    if |t| == 4 {
      LastGroupIff(t);
    } else if |t| > 4 {
      DecodeGroupsSucceedsIff(t[4..]);
      WellformedSplit(t);
    }
  }

  /** A single group is well formed exactly when the last-group decoder accepts it. */
  lemma LastGroupIff(t: Bytes)
    requires |t| == 4
    ensures DecodeLast(t[0], t[1], t[2], t[3]).Some? <==> Wellformed(t)
  {
    assert !InAlphabet(Pad);
    if Wellformed(t) {
      assert InAlphabet(t[0]);
      assert InAlphabet(t[1]);
      assert InAlphabet(t[2]) || PaddingAt(t, 2);
      assert InAlphabet(t[3]) || PaddingAt(t, 3);
    }
    if DecodeLast(t[0], t[1], t[2], t[3]).Some? {
      forall i | 0 <= i < 4 ensures InAlphabet(t[i]) || PaddingAt(t, i) {
      }
    }
  }

  /** Past the first group, well-formedness is that of the rest, the first group holding no padding. */
  lemma WellformedSplit(t: Bytes)
    requires |t| > 4
    ensures Wellformed(t) <==>
      InAlphabet(t[0]) && InAlphabet(t[1]) && InAlphabet(t[2]) && InAlphabet(t[3]) && Wellformed(t[4..])
  {
    var rest := t[4..];
    if Wellformed(t) {
      assert |t| >= 8;
      assert InAlphabet(t[0]);
      assert InAlphabet(t[1]);
      assert InAlphabet(t[2]);
      assert InAlphabet(t[3]);
      forall i | 0 <= i < |rest| ensures InAlphabet(rest[i]) || PaddingAt(rest, i) {
        assert InAlphabet(t[i + 4]) || PaddingAt(t, i + 4);
      }
    }
    if InAlphabet(t[0]) && InAlphabet(t[1]) && InAlphabet(t[2]) && InAlphabet(t[3]) && Wellformed(rest) {
      forall i | 0 <= i < |t| ensures InAlphabet(t[i]) || PaddingAt(t, i) {
        if i >= 4 {
          assert InAlphabet(rest[i - 4]) || PaddingAt(rest, i - 4);
        }
      }
    }
  }

  /** Encoded text holds no line breaks, so the decoder sees it unchanged. */
  lemma {:induction false} StripEncoded(s: Bytes)
    ensures StripNewlines(Encode(s)) == Encode(s)
    decreases |s|
  {
    var e := Encode(s);
    if 1 <= |s| <= 2 {
      StripNewlinesAppend(e, []);
      assert e + [] == e;
    } else if |s| >= 3 {
      StripEncoded(s[3..]);
      StripNewlinesAppend(EncodeGroup(s[0], s[1], s[2]), Encode(s[3..]));
    }
  }

  lemma {:induction false} StripNewlinesAppend(a: Bytes, b: Bytes)
    requires LineFeed !in a && CarriageReturn !in a
    ensures StripNewlines(a + b) == a + StripNewlines(b)
    decreases |a|
  {
    if a != [] {
      assert (a + b)[0] == a[0] && a[0] != LineFeed && a[0] != CarriageReturn;
      assert (a + b)[1..] == a[1..] + b;
      StripNewlinesAppend(a[1..], b);
      calc {
        StripNewlines(a + b);
        [a[0]] + StripNewlines(a[1..] + b);
        [a[0]] + (a[1..] + StripNewlines(b));
        { assert [a[0]] + a[1..] == a; }
        a + StripNewlines(b);
      }
    } else {
      assert a + b == b;
    }
  }

  lemma GroupRoundTrip(b0: byte, b1: byte, b2: byte)
    ensures DecodeFull(CharOf(b0 / 4), CharOf(b0 % 4 * 16 + b1 / 16), CharOf(b1 % 16 * 4 + b2 / 64), CharOf(b2 % 64))
         == Some([b0, b1, b2])
  {
    var v0, v1, v2, v3 := b0 / 4, b0 % 4 * 16 + b1 / 16, b1 % 16 * 4 + b2 / 64, b2 % 64;
    ValueOfCharOf(v0);
    ValueOfCharOf(v1);
    ValueOfCharOf(v2);
    ValueOfCharOf(v3);
    Digits(b0 % 4, b1 / 16, 16);
    Digits(b1 % 16, b2 / 64, 4);
  }

  /** q and r are recovered from q * n + r by division, for the divisors the codec uses. */
  lemma Digits(q: int, r: int, n: int)
    requires n == 4 || n == 16
    requires 0 <= r < n
    ensures (q * n + r) / n == q && (q * n + r) % n == r
  {
  }

  /** Decoding an encoding gives back the bytes: the round trip of section 4 of RFC 4648. */
  lemma DecodeEncode(s: Bytes)
    ensures Decode(Encode(s)) == Some(s)
  {
    StripEncoded(s);
    DecodeGroupsEncode(s);
  }

  lemma {:induction false} DecodeGroupsEncode(s: Bytes)
    ensures DecodeGroups(Encode(s)) == Some(s)
    decreases |s|
  {
    if |s| == 1 {
      OneByteRoundTrip(s);
    } else if |s| == 2 {
      TwoBytesRoundTrip(s);
    } else if |s| >= 3 {
      DecodeGroupsEncode(s[3..]);
      GroupThenRest(s[0], s[1], s[2], s[3..]);
      assert [s[0], s[1], s[2]] + s[3..] == s;
    }
  }

  /** One full group in front of an encoding that decodes. */
  lemma GroupThenRest(b0: byte, b1: byte, b2: byte, rest: Bytes)
    requires DecodeGroups(Encode(rest)) == Some(rest)
    ensures DecodeGroups(EncodeGroup(b0, b1, b2) + Encode(rest)) == Some([b0, b1, b2] + rest)
  {
    var g, e := EncodeGroup(b0, b1, b2), Encode(rest);
    GroupRoundTrip(b0, b1, b2);
    var t := g + e;
    if rest == [] {
      assert t == g;
      assert g[3] != Pad && g[2] != Pad;
      assert DecodeGroups(t) == DecodeFull(g[0], g[1], g[2], g[3]);
      assert [b0, b1, b2] + rest == [b0, b1, b2];
    } else {
      assert |t| > 4;
      assert t[..4] == g && t[4..] == e;
      assert DecodeGroups(t) == Some([b0, b1, b2] + rest);
    }
  }

  lemma OneByteRoundTrip(s: Bytes)
    requires |s| == 1
    ensures DecodeGroups(Encode(s)) == Some(s)
  {
    var v0, v1 := s[0] / 4, s[0] % 4 * 16;
    ValueOfCharOf(v0);
    ValueOfCharOf(v1);
    Digits(s[0] % 4, 0, 16);
    var e := EncodeOne(s[0]);
    assert DecodeGroups(e) == DecodeLast(e[0], e[1], e[2], e[3]);
    var c0, c1 := CharOf(v0), CharOf(v1);
    assert InAlphabet(c0) && Sextet(c0) == v0;
    assert InAlphabet(c1) && Sextet(c1) == v1;
    assert v1 / 16 == s[0] % 4;
    assert v0 * 4 + v1 / 16 == s[0];
    assert DecodeLast(c0, c1, Pad, Pad) == Some([s[0]]);
    assert [s[0]] == s;
  }

  lemma TwoBytesRoundTrip(s: Bytes)
    requires |s| == 2
    ensures DecodeGroups(Encode(s)) == Some(s)
  {
    PairRoundTrip(s[0], s[1]);
    assert [s[0], s[1]] == s;
  }

  lemma PairRoundTrip(b0: byte, b1: byte)
    ensures DecodeGroups(EncodeTwo(b0, b1)) == Some([b0, b1])
  {
    var v0, v1, v2 := b0 / 4, b0 % 4 * 16 + b1 / 16, b1 % 16 * 4;
    ValueOfCharOf(v0);
    ValueOfCharOf(v1);
    ValueOfCharOf(v2);
    assert v0 * 4 + v1 / 16 == b0;
    assert v1 % 16 * 16 + v2 / 4 == b1;
    var e := EncodeTwo(b0, b1);
    assert DecodeGroups(e) == DecodeLast(e[0], e[1], e[2], e[3]);
  }
}
