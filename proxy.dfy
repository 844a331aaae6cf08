/**
  Handler: the whole round of the proxy for one event. The event becomes a
  request; the wrapped handler is given the request and a fresh writer; the
  writer's contents become the reply. The wrapped handler is modelled by
  the calls it makes on the writer, which may depend on the request in any
  way.
*/
module Proxy {
  import opened Text
  import opened Wrappers
  import opened Headers
  import opened ProxyErrors
  import opened Requests
  import opened Capture
  import Base64
  import Utf8

  /**
    One thing a handler does to the writer: Write, WriteHeader, or an edit
    through Header(): Add, Set, Del, or a direct assignment of a key's whole
    list of values (an empty list stands for both Go's empty slice and nil).
  */
  datatype Call =
    | Write(chunk: Bytes)
    | WriteHeader(code: int)
    | HeaderAdd(key: Bytes, value: Bytes)
    | HeaderSet(key: Bytes, value: Bytes)
    | HeaderDel(key: Bytes)
    | HeaderPut(key: Bytes, values: seq<Bytes>)

  predicate SetsStatus(c: Call) {
    c.Write? || c.WriteHeader?
  }

  /**
    The writer's state after one call: only Write touches the body, only
    Write and WriteHeader the status, and WriteHeader nothing but the status.
  */
  function Apply(st: WriterState, c: Call, detect: Bytes -> Bytes): (r: WriterState)
    ensures !c.Write? ==> r.body == st.body
    ensures !SetsStatus(c) ==> r.status == st.status
    ensures c.WriteHeader? ==> r == st.(status := c.code)
    ensures c.Write? ==> r == AfterWrite(st, c.chunk, detect)
  {
    match c
    case Write(b) => AfterWrite(st, b, detect)
    case WriteHeader(code) => st.(status := code)
    case HeaderAdd(k, v) => st.(headers := Added(st.headers, k, v))
    case HeaderSet(k, v) => st.(headers := Replaced(st.headers, k, v))
    case HeaderDel(k) => st.(headers := Removed(st.headers, k))
    case HeaderPut(k, vs) => st.(headers := Assigned(st.headers, k, vs))
  }

  /** The state of a fresh writer after the calls, in order. */
  function Replay(calls: seq<Call>, detect: Bytes -> Bytes): WriterState
    decreases |calls|
  {
    if calls == [] then Fresh()
    else Apply(Replay(calls[..|calls| - 1], detect), calls[|calls| - 1], detect)
  }

  /** The reply for an event, given the handler and the content sniffer. */
  function Serve(e: Event, handler: Request -> seq<Call>, detect: Bytes -> Bytes): (reply: Reply)
    ensures Reconstruct(e).Failure? ==> reply == Reply(InternalServerErrorResponse(), Some(Reconstruct(e).error))
    ensures Reconstruct(e).Success? ==>
      (reply.err.Some? <==> Replay(handler(Reconstruct(e).value), detect).status == DefaultStatusCode)
    ensures reply.err.Some? ==> reply.payload == InternalServerErrorResponse()
    ensures Utf8.Valid(reply.payload.body)
  {
    var r := Reconstruct(e);
    if r.Failure? then Reply(InternalServerErrorResponse(), Some(r.error))
    else ResponseOf(Replay(handler(r.value), detect))
  }

  /** Handler, with the handler's calls run one by one on a fresh writer. */
  method Handle(e: Event, handler: Request -> seq<Call>, detect: Bytes -> Bytes) returns (reply: Reply)
    ensures reply == Serve(e, handler, detect)
  {
    var r := RequestForEvent(e);
    if r.Failure? {
      return Reply(InternalServerErrorResponse(), Some(r.error));
    }
    var w := new Writer(detect);
    var calls := handler(r.value);
    for i := 0 to |calls|
      invariant fresh(w.headers) && w.detect == detect
      invariant w.State() == Replay(calls[..i], detect)
    {
      assert calls[..i + 1][..i] == calls[..i];
      Perform(w, calls[i]);
    }
    assert calls[..|calls|] == calls;
    reply := w.Response();
  }

  /** One call of the handler on the writer. */
  method Perform(w: Writer, c: Call)
    modifies w, w.headers
    ensures w.State() == Apply(old(w.State()), c, w.detect)
  {
    match c
    case Write(b) =>
      var n := w.Write(b);
    case WriteHeader(code) =>
      w.WriteHeader(code);
    case HeaderAdd(k, v) =>
      var h := w.Header();
      h.Add(k, v);
    case HeaderSet(k, v) =>
      var h := w.Header();
      h.Set(k, v);
    case HeaderDel(k) =>
      var h := w.Header();
      h.Del(k);
    case HeaderPut(k, vs) =>
      var h := w.Header();
      h.Put(k, vs);
  }

  /** A handler that only touches headers leaves the status unset. */
  lemma {:induction false} StatusStaysUnset(calls: seq<Call>, detect: Bytes -> Bytes)
    requires forall i :: 0 <= i < |calls| ==> !SetsStatus(calls[i])
    ensures Replay(calls, detect).status == DefaultStatusCode
    decreases |calls|
  {
    if calls != [] {
      StatusStaysUnset(calls[..|calls| - 1], detect);
    }
  }

  /** An event whose base64 body is corrupt gets the 500 payload and the decoding error; the handler never runs. */
  lemma CorruptBodyFails(e: Event, handler: Request -> seq<Call>, detect: Bytes -> Bytes)
    requires e.isBase64Encoded && !Base64.IsBase64(e.body)
    ensures Serve(e, handler, detect) == Reply(InternalServerErrorResponse(), Some(CorruptBody))
  {
  }

  /** A handler that neither writes nor sets a status gets the 500 payload and an error. */
  lemma SilentHandlerFails(e: Event, handler: Request -> seq<Call>, detect: Bytes -> Bytes)
    requires Reconstruct(e).Success?
    requires var calls := handler(Reconstruct(e).value); forall i :: 0 <= i < |calls| ==> !SetsStatus(calls[i])
    ensures Serve(e, handler, detect) == Reply(InternalServerErrorResponse(), Some(StatusNotSet))
  {
    StatusStaysUnset(handler(Reconstruct(e).value), detect);
  }

  /** Writing without ever calling WriteHeader gives status 200. */
  lemma {:induction false} WriteImpliesOK(calls: seq<Call>, detect: Bytes -> Bytes)
    requires forall i :: 0 <= i < |calls| ==> !calls[i].WriteHeader?
    requires exists i :: 0 <= i < |calls| && calls[i].Write?
    ensures Replay(calls, detect).status == StatusOK
    decreases |calls|
  {
    var prefix := calls[..|calls| - 1];
    if calls[|calls| - 1].Write? {
      if exists i :: 0 <= i < |prefix| && prefix[i].Write? {
        WriteImpliesOK(prefix, detect);
      } else {
        StatusStaysUnset(prefix, detect);
      }
    } else {
      var i :| 0 <= i < |calls| && calls[i].Write?;
      assert prefix[i].Write?;
      WriteImpliesOK(prefix, detect);
    }
  }

  /** The last WriteHeader decides the status, unless it set the sentinel back. */
  lemma {:induction false} LastWriteHeaderWins(calls: seq<Call>, i: nat, detect: Bytes -> Bytes)
    requires i < |calls| && calls[i].WriteHeader? && calls[i].code != DefaultStatusCode
    requires forall j :: i < j < |calls| ==> !calls[j].WriteHeader?
    ensures Replay(calls, detect).status == calls[i].code
    decreases |calls|
  {
    if i < |calls| - 1 {
      LastWriteHeaderWins(calls[..|calls| - 1], i, detect);
    }
  }

  /** The bytes the calls write, in order. */
  function Written(calls: seq<Call>): Bytes
    decreases |calls|
  {
    if calls == [] then []
    else (if calls[0].Write? then calls[0].chunk else []) + Written(calls[1..])
  }

  lemma {:induction false} WrittenSnoc(calls: seq<Call>, c: Call)
    ensures Written(calls + [c]) == Written(calls) + (if c.Write? then c.chunk else [])
    decreases |calls|
  {
    if calls != [] {
      assert (calls + [c])[1..] == calls[1..] + [c];
      WrittenSnoc(calls[1..], c);
    }
  }

  /** The buffered body is everything written, in order. */
  lemma {:induction false} BodyIsWritten(calls: seq<Call>, detect: Bytes -> Bytes)
    ensures Replay(calls, detect).body == Written(calls)
    decreases |calls|
  {
    if calls != [] {
      var prefix := calls[..|calls| - 1];
      BodyIsWritten(prefix, detect);
      WrittenSnoc(prefix, calls[|calls| - 1]);
      assert prefix + [calls[|calls| - 1]] == calls;
    }
  }

  /**
    A successful reply carries what the handler wrote: as text when it is
    valid UTF-8, and otherwise as base64 that decodes back to it.
  */
  lemma ReplyCarriesWrittenBody(e: Event, handler: Request -> seq<Call>, detect: Bytes -> Bytes)
    requires Serve(e, handler, detect).err.None?
    ensures var p := Serve(e, handler, detect).payload;
      var written := Written(handler(Reconstruct(e).value));
      && (!p.isBase64Encoded ==> p.body == written)
      && (p.isBase64Encoded ==> Base64.Decode(p.body) == Some(written))
  {
    BodyIsWritten(handler(Reconstruct(e).value), detect);
  }

  predicate TouchesContentType(c: Call) {
    !SetsStatus(c) && c.key == ContentTypeKey
  }

  /**
    When the sniffer always names a type and the handler leaves Content-Type
    alone, the header gets exactly one value, sniffed from the first write.
  */
  lemma {:induction false} SniffedOnce(calls: seq<Call>, first: nat, detect: Bytes -> Bytes)
    requires forall b :: detect(b) != []
    requires forall i :: 0 <= i < |calls| ==> !TouchesContentType(calls[i])
    requires first < |calls| && calls[first].Write?
    requires forall i :: 0 <= i < first ==> !calls[i].Write?
    ensures var h := Replay(calls, detect).headers;
      ContentTypeKey in h && h[ContentTypeKey] == [detect(calls[first].chunk)]
    decreases |calls|
  {
    var prefix := calls[..|calls| - 1];
    if first < |calls| - 1 {
      SniffedOnce(prefix, first, detect);
    } else {
      NoContentTypeBeforeWrite(prefix, detect);
    }
  }

  /** Before the first write, a handler that leaves Content-Type alone has none. */
  lemma {:induction false} NoContentTypeBeforeWrite(calls: seq<Call>, detect: Bytes -> Bytes)
    requires forall i :: 0 <= i < |calls| ==> !TouchesContentType(calls[i]) && !calls[i].Write?
    ensures ContentTypeKey !in Replay(calls, detect).headers
    decreases |calls|
  {
    if calls != [] {
      NoContentTypeBeforeWrite(calls[..|calls| - 1], detect);
    }
  }

  /**
    Write checks for an empty first value, not for a missing key: a
    Content-Type the handler set to the empty string gets a sniffed value
    appended after it.
  */
  lemma EmptyContentTypeIsSniffed(b: Bytes, detect: Bytes -> Bytes)
    ensures Replay([HeaderSet(ContentTypeKey, []), Write(b)], detect).headers == map[ContentTypeKey := [[], detect(b)]]
  {
    var setEmpty := [HeaderSet(ContentTypeKey, [])];
    var calls := setEmpty + [Write(b)];
    assert calls[..1] == setEmpty && setEmpty[..0] == [];
    var preset := Replay(setEmpty, detect);
    assert Replay(setEmpty[..0], detect) == Fresh();
    assert preset == Apply(Fresh(), HeaderSet(ContentTypeKey, []), detect);
    assert preset == Fresh().(headers := Replaced(map[], ContentTypeKey, []));
    assert preset.headers == map[ContentTypeKey := [[]]];
    assert FirstValue(preset.headers, ContentTypeKey) == [];
    assert [[]] + [detect(b)] == [[], detect(b)];
  }

  /**
    Write checks the header on every call, not only the first: a handler
    that deletes Content-Type after a write gets a type sniffed from the
    next write.
  */
  lemma DeletedContentTypeIsSniffedAgain(b1: Bytes, b2: Bytes, detect: Bytes -> Bytes)
    ensures Replay([Write(b1), HeaderDel(ContentTypeKey), Write(b2)], detect).headers == map[ContentTypeKey := [detect(b2)]]
  {
    var one := [Write(b1)];
    var two := one + [HeaderDel(ContentTypeKey)];
    var calls := two + [Write(b2)];
    assert calls[..2] == two && two[..1] == one && one[..0] == [];
    assert Replay(one[..0], detect) == Fresh();
    var first := Replay(one, detect);
    assert first == AfterWrite(Fresh(), b1, detect);
    assert first.headers.Keys == {ContentTypeKey};
    var deleted := Replay(two, detect);
    assert deleted == Apply(first, HeaderDel(ContentTypeKey), detect);
    assert deleted.headers.Keys == {};
    assert deleted.headers == map[];
    assert FirstValue(deleted.headers, ContentTypeKey) == [];
    assert Replay(calls, detect) == AfterWrite(deleted, b2, detect);
    assert [] + [detect(b2)] == [detect(b2)];
    assert calls == [Write(b1), HeaderDel(ContentTypeKey), Write(b2)];
  }
}
