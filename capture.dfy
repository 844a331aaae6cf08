/**
  The response writer the wrapped handler writes into, and the API Gateway
  response it is turned into afterwards. The writer holds a status (the
  sentinel -1 until something sets it), a header map and the body written
  so far.
*/
module Capture {
  import opened Text
  import opened Wrappers
  import opened Headers
  import opened ProxyErrors
  import Base64
  import Utf8

  const DefaultStatusCode: int := -1
  const StatusOK: int := 200
  const StatusInternalServerError: int := 500
  const ContentTypeKey: Bytes := Ascii("Content-Type")
  const ApplicationJson: Bytes := Ascii("application/json")
  const ErrorBody: Bytes := Ascii("{\"errorCode\":\"500\"}")

  /** The fields of an APIGatewayV2HTTPResponse the proxy fills in. */
  datatype Payload = Payload(statusCode: int, multiValueHeaders: Header, body: Bytes, isBase64Encoded: bool)

  /** What the proxy returns: the payload and the error beside it, if any. */
  datatype Reply = Reply(payload: Payload, err: Option<ProxyError>)

  /**
    InternalServerErrorResponse: status 500, a JSON content type and a JSON
    body, sent as text; the body is valid UTF-8, so the flag saying it is
    not base64 is the one the writer's own rule would give it.
  */
  function InternalServerErrorResponse(): (p: Payload)
    ensures p.statusCode == StatusInternalServerError
    ensures p.multiValueHeaders == map[ContentTypeKey := [ApplicationJson]]
    ensures p.body == ErrorBody && Utf8.Valid(p.body) && !p.isBase64Encoded
  {
    assert forall i :: 0 <= i < |ErrorBody| ==> ErrorBody[i] < 128;
    Utf8.AsciiIsValid(ErrorBody);
    Payload(StatusInternalServerError, map[ContentTypeKey := [ApplicationJson]], ErrorBody, false)
  }

  /** The writer's fields as a value. */
  datatype WriterState = WriterState(status: int, headers: Header, body: Bytes)

  /** NewResponseWriter: status unset, no headers, empty body. */
  function Fresh(): WriterState {
    WriterState(DefaultStatusCode, map[], [])
  }

  /**
    The state after Write(b): the status becomes 200 only when it was unset;
    a sniffed Content-Type is added only when the header has no non-empty
    first value under that key; the body grows by exactly b.
  */
  function AfterWrite(st: WriterState, b: Bytes, detect: Bytes -> Bytes): (r: WriterState)
    ensures st.status == DefaultStatusCode ==> r.status == StatusOK
    ensures st.status != DefaultStatusCode ==> r.status == st.status
    ensures FirstValue(st.headers, ContentTypeKey) != [] ==> r.headers == st.headers
    ensures FirstValue(st.headers, ContentTypeKey) == [] ==> r.headers == Added(st.headers, ContentTypeKey, detect(b))
    ensures r.body == st.body + b
  {
    WriterState(
      if st.status == DefaultStatusCode then StatusOK else st.status,
      if FirstValue(st.headers, ContentTypeKey) == [] then Added(st.headers, ContentTypeKey, detect(b)) else st.headers,
      st.body + b)
  }

  /**
    writer.response: an unset status gives the 500 payload and an error.
    Otherwise status and headers are carried through, and the body is sent
    as text when it is valid UTF-8 and as base64 when it is not; either way
    the payload body is valid UTF-8 and gives back the written bytes.
  */
  function ResponseOf(st: WriterState): (reply: Reply)
    ensures st.status == DefaultStatusCode <==> reply.err.Some?
    ensures st.status == DefaultStatusCode ==> reply == Reply(InternalServerErrorResponse(), Some(StatusNotSet))
    ensures st.status != DefaultStatusCode ==>
      && reply.payload.statusCode == st.status
      && reply.payload.multiValueHeaders == st.headers
      && (reply.payload.isBase64Encoded <==> !Utf8.Valid(st.body))
      && (!reply.payload.isBase64Encoded ==> reply.payload.body == st.body)
      && (reply.payload.isBase64Encoded ==> reply.payload.body == Base64.Encode(st.body))
      && (reply.payload.isBase64Encoded ==> Base64.Decode(reply.payload.body) == Some(st.body))
      && Utf8.Valid(reply.payload.body)
  {
    if st.status == DefaultStatusCode then Reply(InternalServerErrorResponse(), Some(StatusNotSet))
    else if Utf8.Valid(st.body) then Reply(Payload(st.status, st.headers, st.body, false), None)
    else
      var encoded := Base64.Encode(st.body);
      Base64.DecodeEncode(st.body);
      Base64.EncodeIsAscii(st.body);
      Utf8.AsciiIsValid(encoded);
      Reply(Payload(st.status, st.headers, encoded, true), None)
  }

  /**
    The writer. Its header map is an object of its own, shared with whoever
    asked for it through Header(), as a Go map would be. `detect` stands for
    http.DetectContentType.
  */
  class Writer {
    var status: int
    const headers: HeaderMap
    var body: Bytes
    const detect: Bytes -> Bytes

    function State(): WriterState
      reads this, headers
    {
      WriterState(status, headers.entries, body)
    }

    /** NewResponseWriter */
    constructor (detect: Bytes -> Bytes)
      ensures State() == Fresh() && this.detect == detect && fresh(headers)
    {
      status := DefaultStatusCode;
      headers := new HeaderMap();
      body := [];
      this.detect := detect;
    }

    /** The live header map. */
    method Header() returns (h: HeaderMap)
      ensures h == headers
    {
      h := headers;
    }

    method Write(b: Bytes) returns (n: int)
      modifies this, headers
      ensures State() == AfterWrite(old(State()), b, detect)
      ensures n == |b|
    {
      if status == DefaultStatusCode {
        status := StatusOK;
      }
      var h := Header();
      if h.Get(ContentTypeKey) == [] {
        h.Add(ContentTypeKey, detect(b));
      }
      body := body + b;
      n := |b|;
    }

    method WriteHeader(statusCode: int)
      modifies this
      ensures State() == old(State()).(status := statusCode)
    {
      status := statusCode;
    }

    method Response() returns (reply: Reply)
      ensures reply == ResponseOf(State())
    {
      if status == DefaultStatusCode {
        return Reply(InternalServerErrorResponse(), Some(StatusNotSet));
      }
      var bodyBytes := body;
      if Utf8.Valid(bodyBytes) {
        reply := Reply(Payload(status, headers.entries, bodyBytes, false), None);
      } else {
        reply := Reply(Payload(status, headers.entries, Base64.Encode(bodyBytes), true), None);
      }
    }
  }
}
