/**
  Go's `url.Values` and its `Encode`: the query string built from a map of
  parameters. Keys are sorted by byte order (Go's `slices.Sort` on strings),
  each value is written as `key=value` with both sides escaped by
  `url.QueryEscape`, and the pairs are joined by `&`. The parser here is the
  reference inverse the encoding is checked against.
*/
module FormValues {
  import opened Text
  import opened Wrappers

  type Values = map<Bytes, seq<Bytes>>

  const Plus: byte := 43
  const Percent: byte := 37
  const Ampersand: byte := 38
  const EqualsSign: byte := 61

  /** Byte-wise lexicographic order, Go's `<=` on strings. */
  predicate Below(a: Bytes, b: Bytes)
    decreases |a|
  {
    a == [] || (b != [] && (a[0] < b[0] || (a[0] == b[0] && Below(a[1..], b[1..]))))
  }

  lemma {:induction false} BelowReflexive(a: Bytes)
    ensures Below(a, a)
    decreases |a|
  {
    if a != [] {
      BelowReflexive(a[1..]);
    }
  }

  lemma {:induction false} BelowTotal(a: Bytes, b: Bytes)
    ensures Below(a, b) || Below(b, a)
    decreases |a|
  {
    if a != [] && b != [] && a[0] == b[0] {
      BelowTotal(a[1..], b[1..]);
    }
  }

  lemma {:induction false} BelowAntisymmetric(a: Bytes, b: Bytes)
    requires Below(a, b) && Below(b, a)
    ensures a == b
    decreases |a|
  {
    if a != [] {
      BelowAntisymmetric(a[1..], b[1..]);
      assert a == [a[0]] + a[1..] && b == [b[0]] + b[1..];
    }
  }

  lemma {:induction false} BelowTransitive(a: Bytes, b: Bytes, c: Bytes)
    requires Below(a, b) && Below(b, c)
    ensures Below(a, c)
    decreases |a|
  {
    if a != [] && a[0] == b[0] && b[0] == c[0] {
      BelowTransitive(a[1..], b[1..], c[1..]);
    }
  }

  predicate IsLeast(m: Bytes, ks: set<Bytes>) {
    m in ks && forall k :: k in ks ==> Below(m, k)
  }

  /** Every non-empty finite set of keys has a least element. */
  lemma {:induction false} LeastExists(ks: set<Bytes>)
    requires ks != {}
    ensures exists m :: IsLeast(m, ks)
    decreases |ks|
  {
    var x :| x in ks;
    if ks == {x} {
      BelowReflexive(x);
      assert IsLeast(x, ks);
    } else {
      var rest := ks - {x};
      LeastExists(rest);
      var m :| IsLeast(m, rest);
      BelowTotal(x, m);
      if Below(x, m) {
        forall k | k in ks
          ensures Below(x, k)
        {
          if k == x {
            BelowReflexive(x);
          } else {
            BelowTransitive(x, m, k);
          }
        }
        assert IsLeast(x, ks);
      } else {
        assert IsLeast(m, ks);
      }
    }
  }

  lemma LeastUnique(ks: set<Bytes>)
    ensures forall m, m' :: IsLeast(m, ks) && IsLeast(m', ks) ==> m == m'
  {
    forall m, m' | IsLeast(m, ks) && IsLeast(m', ks)
      ensures m == m'
    {
      BelowAntisymmetric(m, m');
    }
  }

  /**
    The keys in increasing order, as `Encode` lists them: each key of the set
    exactly once, strictly increasing.
  */
  function SortedKeys(ks: set<Bytes>): (r: seq<Bytes>)
    ensures |r| == |ks|
    ensures forall k :: k in ks <==> k in r
    decreases |ks|
  {
    if ks == {} then []
    else
      LeastExists(ks);
      LeastUnique(ks);
      var m :| IsLeast(m, ks);
      var rest := SortedKeys(ks - {m});
      [m] + rest
  }

  /** Strictly increasing, so no key is listed twice. */
  predicate Increasing(r: seq<Bytes>) {
    forall i, j :: 0 <= i < j < |r| ==> Below(r[i], r[j]) && r[i] != r[j]
  }

  /** SortedKeys lists the keys in strictly increasing order, so each key once. */
  lemma {:induction false} SortedKeysIncreasing(ks: set<Bytes>)
    ensures Increasing(SortedKeys(ks))
    decreases |ks|
  {
    if ks != {} {
      var r := SortedKeys(ks);
      var m := r[0];
      var rest := SortedKeys(ks - {m});
      assert IsLeast(m, ks) && r == [m] + rest;
      SortedKeysIncreasing(ks - {m});
      forall i, j | 0 <= i < j < |r|
        ensures Below(r[i], r[j]) && r[i] != r[j]
      {
        if i > 0 {
          assert r[i] == rest[i - 1] && r[j] == rest[j - 1];
        } else {
          assert r[j] in ks - {m} by {
            assert r[j] == rest[j - 1] && rest[j - 1] in rest;
          }
        }
      }
    }
  }

  /** Bytes that url.QueryEscape leaves alone: letters, digits, `-`, `_`, `.`, `~`. */
  predicate Unreserved(b: byte) {
    || 97 <= b <= 122
    || 65 <= b <= 90
    || 48 <= b <= 57
    || b == 45 || b == 95 || b == 46 || b == 126
  }

  /** Upper-case hexadecimal digit. */
  function HexDigit(v: int): byte
    requires 0 <= v < 16
  {
    if v < 10 then 48 + v else 55 + v
  }

  /** Value of a hexadecimal digit of either case. */
  function HexValue(c: byte): Option<int>
  {
    if 48 <= c <= 57 then Some(c - 48)
    else if 65 <= c <= 70 then Some(c - 55)
    else if 97 <= c <= 102 then Some(c - 87)
    else None
  }

  /** One byte as url.QueryEscape writes it: kept, `+` for a space, or `%XX`. */
  function EscapeByte(b: byte): (r: Bytes)
    ensures Ampersand !in r && EqualsSign !in r
  {
    if Unreserved(b) then [b]
    else if b == Space then [Plus]
    else [Percent, HexDigit(b / 16), HexDigit(b % 16)]
  }

  /** url.QueryEscape; its output never holds `&` or `=`. */
  function QueryEscape(s: Bytes): (r: Bytes)
    ensures Ampersand !in r && EqualsSign !in r
    decreases |s|
  {
    if s == [] then [] else EscapeByte(s[0]) + QueryEscape(s[1..])
  }

  /** url.QueryUnescape: `%XX` gives a byte, `+` a space; a bad `%` sequence is an error. */
  function QueryUnescape(s: Bytes): Option<Bytes>
    decreases |s|
  {
    if s == [] then Some([])
    else
      var n := if s[0] == Percent then 3 else 1;
      if |s| < n then None
      else
        var head := UnescapeHead(s[..n]);
        var tail := QueryUnescape(s[n..]);
        if head.Some? && tail.Some? then Some([head.value] + tail.value) else None
  }

  /** The byte one escape sequence stands for. */
  function UnescapeHead(t: Bytes): Option<byte>
    requires |t| == 1 || |t| == 3
  {
    if |t| == 3 then
      var hi, lo := HexValue(t[1]), HexValue(t[2]);
      if hi.Some? && lo.Some? then Some(hi.value * 16 + lo.value) else None
    else if t[0] == Plus then Some(Space)
    else Some(t[0])
  }

  /** Unescaping an escaped string gives it back. */
  lemma {:induction false} UnescapeEscape(s: Bytes)
    ensures QueryUnescape(QueryEscape(s)) == Some(s)
    decreases |s|
  {
    if s != [] {
      var b := s[0];
      var e, rest := EscapeByte(b), QueryEscape(s[1..]);
      UnescapeEscape(s[1..]);
      var t := e + rest;
      assert t[..|e|] == e && t[|e|..] == rest;
      if !Unreserved(b) && b != Space {
        assert HexValue(HexDigit(b / 16)) == Some(b / 16);
        assert HexValue(HexDigit(b % 16)) == Some(b % 16);
      }
      assert UnescapeHead(e) == Some(b);
      assert [b] + s[1..] == s;
    }
  }

  /** The (key, value) pairs of the map, keys in increasing order and each key's values in order. */
  function Entries(v: Values): seq<(Bytes, Bytes)>
  {
    EntriesOf(SortedKeys(v.Keys), v)
  }

  function EntriesOf(keys: seq<Bytes>, v: Values): seq<(Bytes, Bytes)>
    requires forall i :: 0 <= i < |keys| ==> keys[i] in v
  {
    if keys == [] then []
    else
      var k := keys[0];
      seq(|v[k]|, i requires 0 <= i < |v[k]| => (k, v[k][i])) + EntriesOf(keys[1..], v)
  }

  /** One pair as `key=value`, both sides escaped. */
  function Render(e: (Bytes, Bytes)): (r: Bytes)
    ensures |r| > 0 && Ampersand !in r
  {
    QueryEscape(e.0) + [EqualsSign] + QueryEscape(e.1)
  }

  /** Each pair rendered, in order. */
  function RenderAll(entries: seq<(Bytes, Bytes)>): (r: seq<Bytes>)
    ensures |r| == |entries|
    ensures forall i :: 0 <= i < |r| ==> |r[i]| > 0 && Ampersand !in r[i]
  {
    if entries == [] then [] else [Render(entries[0])] + RenderAll(entries[1..])
  }

  /** url.Values.Encode: the query string reads back as the map's pairs, keys sorted. */
  function Encode(v: Values): (r: Bytes)
    ensures ParsePairs(r) == Some(Entries(v))
  {
    ParseJoined(Entries(v));
    Join(RenderAll(Entries(v)), Ampersand)
  }

  /** Reads one `key=value` piece: cut at the first `=`, unescape both sides. */
  function ParsePair(p: Bytes): Option<(Bytes, Bytes)>
  {
    if EqualsSign !in p then None
    else
      var i := IndexOf(p, EqualsSign);
      var k, x := QueryUnescape(p[..i]), QueryUnescape(p[i + 1..]);
      if k.Some? && x.Some? then Some((k.value, x.value)) else None
  }

  function ParseAll(parts: seq<Bytes>): Option<seq<(Bytes, Bytes)>>
  {
    if parts == [] then Some([])
    else
      var head, tail := ParsePair(parts[0]), ParseAll(parts[1..]);
      if head.Some? && tail.Some? then Some([head.value] + tail.value) else None
  }

  /** Reads a query string back into its pairs, in order. */
  function ParsePairs(s: Bytes): Option<seq<(Bytes, Bytes)>>
  {
    if s == [] then Some([]) else ParseAll(Split(s, Ampersand))
  }

  lemma ParseRender(e: (Bytes, Bytes))
    ensures ParsePair(Render(e)) == Some(e)
  {
    var k, x := QueryEscape(e.0), QueryEscape(e.1);
    var p := Render(e);
    assert p[|k|] == EqualsSign;
    var i := IndexOf(p, EqualsSign);
    assert p[..i] == k;
    assert p[i + 1..] == x;
    UnescapeEscape(e.0);
    UnescapeEscape(e.1);
  }

  lemma {:induction false} ParseAllRendered(entries: seq<(Bytes, Bytes)>)
    ensures ParseAll(RenderAll(entries)) == Some(entries)
    decreases |entries|
  {
    if entries != [] {
      ParseRender(entries[0]);
      ParseAllRendered(entries[1..]);
      assert RenderAll(entries)[1..] == RenderAll(entries[1..]);
      assert [entries[0]] + entries[1..] == entries;
    }
  }

  /** Any sequence of pairs, rendered and joined with `&`, reads back as itself. */
  lemma ParseJoined(entries: seq<(Bytes, Bytes)>)
    ensures ParsePairs(Join(RenderAll(entries), Ampersand)) == Some(entries)
  {
    var parts := RenderAll(entries);
    ParseAllRendered(entries);
    if parts != [] {
      SplitJoin(parts, Ampersand);
      assert |Join(parts, Ampersand)| >= |parts[0]|;
    }
  }

  /** The encoded query reads back as the map's pairs, keys sorted: Encode loses nothing. */
  lemma ParseEncode(v: Values)
    ensures ParsePairs(Encode(v)) == Some(Entries(v))
  {
    ParseJoined(Entries(v));
  }
}
