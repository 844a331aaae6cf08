/**
  Byte strings, the way Go represents both `string` and `[]byte`, and the
  operations of Go's `strings` package that the proxy applies to them
  (`HasPrefix`, `ToUpper`, `Split`, `Trim`, `Join`).
*/
module Text {

  type byte = b: int | 0 <= b < 256

  type Bytes = seq<byte>

  /**
    The bytes of a literal, one per character. Every literal of this model
    is ASCII, where a character's code is its byte.
  */
  function Ascii(s: string): (r: Bytes)
    ensures |r| == |s|
  {
    seq(|s|, i requires 0 <= i < |s| => s[i] as int % 256)
  }

  const Space: byte := 32
  const Comma: byte := 44
  const Slash: byte := 47
  const Colon: byte := 58

  /** strings.HasPrefix */
  predicate HasPrefix(s: Bytes, prefix: Bytes) {
    |prefix| <= |s| && s[..|prefix|] == prefix
  }

  predicate IsLower(b: byte) {
    97 <= b <= 122
  }

  /**
    strings.ToUpper on ASCII text: every lower-case letter becomes its
    capital and every other byte is kept, so no lower-case letter remains.
  */
  function ToUpper(s: Bytes): (r: Bytes)
    ensures |r| == |s|
    ensures forall i :: 0 <= i < |r| ==> !IsLower(r[i])
    ensures forall i :: 0 <= i < |r| ==> r[i] == s[i] || (IsLower(s[i]) && r[i] == s[i] - 32)
  {
    seq(|s|, i requires 0 <= i < |s| => if IsLower(s[i]) then s[i] - 32 else s[i])
  }

  /** Position of the first occurrence of `b` in `s`. */
  function IndexOf(s: Bytes, b: byte): (i: nat)
    requires b in s
    ensures i < |s| && s[i] == b && b !in s[..i]
  {
    if s[0] == b then 0 else 1 + IndexOf(s[1..], b)
  }

  /** Position of the last occurrence of `b` in `s`. */
  function LastIndexOf(s: Bytes, b: byte): (i: nat)
    requires b in s
    ensures i < |s| && s[i] == b && b !in s[i + 1..]
  {
    if s[|s| - 1] == b then |s| - 1
    else
      assert s == s[..|s| - 1] + [s[|s| - 1]];
      var i := LastIndexOf(s[..|s| - 1], b);
      assert s[i + 1..] == s[..|s| - 1][i + 1..] + [s[|s| - 1]];
      i
  }

  /** strings.Join with a one-byte separator. */
  function Join(parts: seq<Bytes>, sep: byte): Bytes
  {
    if |parts| == 0 then []
    else if |parts| == 1 then parts[0]
    else parts[0] + [sep] + Join(parts[1..], sep)
  }

  /**
    strings.Split with a one-byte separator: the pieces between separators,
    always at least one (the empty string splits into one empty piece), none
    holding the separator, and joining them back gives the input.
  */
  function Split(s: Bytes, sep: byte): (parts: seq<Bytes>)
    ensures |parts| >= 1
    ensures forall i :: 0 <= i < |parts| ==> sep !in parts[i]
    ensures Join(parts, sep) == s
    decreases |s|
  {
    if sep !in s then [s]
    else
      var i := IndexOf(s, sep);
      var rest := Split(s[i + 1..], sep);
      assert ([s[..i]] + rest)[1..] == rest;
      [s[..i]] + rest
  }

  /** Splitting a join of separator-free pieces gives the pieces back. */
  lemma {:induction false} SplitJoin(parts: seq<Bytes>, sep: byte)
    requires |parts| >= 1
    requires forall i :: 0 <= i < |parts| ==> sep !in parts[i]
    ensures Split(Join(parts, sep), sep) == parts
    decreases |parts|
  {
    if |parts| > 1 {
      var s := Join(parts, sep);
      var tail := Join(parts[1..], sep);
      assert s == parts[0] + [sep] + tail;
      FirstSeparator(parts[0], sep, tail);
      assert s[..|parts[0]|] == parts[0];
      assert s[|parts[0]| + 1..] == tail;
      SplitJoin(parts[1..], sep);
      assert [parts[0]] + parts[1..] == parts;
    }
  }

  /** The first separator after a separator-free prefix is the one that ends it. */
  lemma FirstSeparator(a: Bytes, sep: byte, t: Bytes)
    requires sep !in a
    ensures sep in a + [sep] + t && IndexOf(a + [sep] + t, sep) == |a|
  {
    var s := a + [sep] + t;
    assert s[|a|] == sep;
  }

  /** How many copies of `c` `s` starts with. */
  function LeadCount(s: Bytes, c: byte): (n: nat)
    ensures n <= |s| && (n == |s| || s[n] != c)
    ensures forall k :: 0 <= k < n ==> s[k] == c
    decreases |s|
  {
    if s != [] && s[0] == c then 1 + LeadCount(s[1..], c) else 0
  }

  /** How many copies of `c` `s` ends with. */
  function TrailCount(s: Bytes, c: byte): (n: nat)
    ensures n <= |s| && (n == |s| || s[|s| - n - 1] != c)
    ensures forall k :: |s| - n <= k < |s| ==> s[k] == c
    decreases |s|
  {
    if s != [] && s[|s| - 1] == c then 1 + TrailCount(s[..|s| - 1], c) else 0
  }

  /**
    strings.Trim with a one-byte cutset: the infix of `s` left after removing
    every leading and trailing `c`; it neither starts nor ends with `c`, and
    everything removed was `c`.
  */
  function Trim(s: Bytes, c: byte): (r: Bytes)
    ensures r == [] || (r[0] != c && r[|r| - 1] != c)
    ensures var lo := LeadCount(s, c);
      lo + |r| <= |s| && r == s[lo..lo + |r|] && Outside(s, lo, lo + |r|, c)
    ensures forall b :: b in r ==> b in s
  {
    var lo := LeadCount(s, c);
    var hi := |s| - TrailCount(s[lo..], c);
    SliceMembers(s, lo, hi);
    s[lo..hi]
  }

  /** A slice holds no byte its sequence lacks. */
  lemma SliceMembers(s: Bytes, lo: int, hi: int)
    requires 0 <= lo <= hi <= |s|
    ensures forall b :: b in s[lo..hi] ==> b in s
  {
    forall b | b in s[lo..hi]
      ensures b in s
    {
      var k :| 0 <= k < hi - lo && s[lo..hi][k] == b;
      assert s[lo + k] == b;
    }
  }

  /** Trimming a string that neither starts nor ends with `c` leaves it as it is. */
  lemma TrimUnchanged(s: Bytes, c: byte)
    requires s == [] || (s[0] != c && s[|s| - 1] != c)
    ensures Trim(s, c) == s
  {
    assert LeadCount(s, c) == 0;
    assert TrailCount(s, c) == 0;
  }

  /** Every byte of `s` outside positions lo..hi is `c`. */
  predicate Outside(s: Bytes, lo: int, hi: int, c: byte)
    requires 0 <= lo <= hi <= |s|
  {
    (forall k :: 0 <= k < lo ==> s[k] == c) && (forall k :: hi <= k < |s| ==> s[k] == c)
  }
}
