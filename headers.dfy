/**
  Go's `http.Header`, a map from a header name to its list of values, with
  the operations the proxy and a wrapped handler use on it. Names are used
  as given: the canonicalisation `http.Header` applies to them is not part
  of this model.
*/
module Headers {
  import opened Text

  type Header = map<Bytes, seq<Bytes>>

  /** http.Header.Get: the first value under `key`, or the empty string when there is none. */
  function FirstValue(h: Header, key: Bytes): (v: Bytes)
    ensures key !in h || h[key] == [] ==> v == []
    ensures key in h && h[key] != [] ==> v == h[key][0]
  {
    if key in h && h[key] != [] then h[key][0] else []
  }

  /** http.Header.Add: `value` goes after the values already under `key`; nothing else changes. */
  function Added(h: Header, key: Bytes, value: Bytes): (r: Header)
    ensures r.Keys == h.Keys + {key}
    ensures r[key] == (if key in h then h[key] else []) + [value]
    ensures forall k :: k in h && k != key ==> r[k] == h[k]
  {
    h[key := (if key in h then h[key] else []) + [value]]
  }

  /** http.Header.Set: `value` becomes the only value under `key`; nothing else changes. */
  function Replaced(h: Header, key: Bytes, value: Bytes): (r: Header)
    ensures r.Keys == h.Keys + {key}
    ensures r[key] == [value]
    ensures forall k :: k in h && k != key ==> r[k] == h[k]
  {
    h[key := [value]]
  }

  /** http.Header.Del: `key` is gone; nothing else changes. */
  function Removed(h: Header, key: Bytes): (r: Header)
    ensures r.Keys == h.Keys - {key}
    ensures forall k :: k in r ==> r[k] == h[k]
  {
    h - {key}
  }

  /** Direct assignment `h[key] = values`: the list under `key` is replaced whole; nothing else changes. */
  function Assigned(h: Header, key: Bytes, values: seq<Bytes>): (r: Header)
    ensures r.Keys == h.Keys + {key}
    ensures r[key] == values
    ensures forall k :: k in h && k != key ==> r[k] == h[k]
  {
    h[key := values]
  }

  /**
    The header map of a response writer. Go maps are references: the map a
    writer hands out with Header() is the one it later emits, so a handler's
    edits through it reach the writer. An object models that sharing.
  */
  class HeaderMap {
    var entries: Header

    constructor ()
      ensures entries == map[]
    {
      entries := map[];
    }

    function Get(key: Bytes): Bytes
      reads this
    {
      FirstValue(entries, key)
    }

    method Add(key: Bytes, value: Bytes)
      modifies this
      ensures entries == Added(old(entries), key, value)
    {
      entries := entries[key := (if key in entries then entries[key] else []) + [value]];
    }

    method Set(key: Bytes, value: Bytes)
      modifies this
      ensures entries == Replaced(old(entries), key, value)
    {
      entries := entries[key := [value]];
    }

    method Put(key: Bytes, values: seq<Bytes>)
      modifies this
      ensures entries == Assigned(old(entries), key, values)
    {
      entries := entries[key := values];
    }

    method Del(key: Bytes)
      modifies this
      ensures entries == Removed(old(entries), key)
    {
      entries := entries - {key};
    }
  }
}
