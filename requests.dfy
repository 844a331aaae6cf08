/**
  RequestForEvent: the translation of an API Gateway version 2 HTTP event
  into a Go `http.Request`. The event and the request are records holding the
  fields the translation reads and writes; the URL is kept as its parts
  rather than serialised.
*/
module Requests {
  import opened Text
  import opened Wrappers
  import opened Headers
  import opened ProxyErrors
  import Base64
  import FormValues

  /** The `requestContext.http` part of the event. */
  datatype HTTPDescription = HTTPDescription(httpMethod: Bytes, path: Bytes, sourceIp: Bytes)

  datatype RequestContext = RequestContext(domainName: Bytes, http: HTTPDescription)

  /** The fields of an APIGatewayV2HTTPRequest the translation reads. */
  datatype Event = Event(
    rawPath: Bytes,
    rawQueryString: Bytes,
    headers: map<Bytes, Bytes>,
    queryStringParameters: map<Bytes, Bytes>,
    body: Bytes,
    isBase64Encoded: bool,
    requestContext: RequestContext)

  datatype Url = Url(scheme: Bytes, path: Bytes, host: Bytes, rawQuery: Bytes)

  /** The request handed to the wrapped handler. */
  datatype Request = Request(httpMethod: Bytes, url: Url, header: Header, body: Bytes, remoteAddr: Bytes)

  const Https: Bytes := Ascii("https")
  const Localhost: Bytes := Ascii("localhost")
  const MethodGet: Bytes := Ascii("GET")
  const UserAgent: Bytes := Ascii("User-Agent")
  const ForwardedPort: Bytes := Ascii("X-Forwarded-Port")
  const LeftBracket: byte := 91
  const RightBracket: byte := 93

  /**
    The request path: the raw path, or the context's path when the raw path
    is empty, with a `/` put in front when it does not already start with one.
  */
  function ResolvePath(rawPath: Bytes, contextPath: Bytes): (p: Bytes)
    ensures |p| > 0 && p[0] == Slash
    ensures var source := if |rawPath| > 0 then rawPath else contextPath;
      (HasPrefix(source, [Slash]) ==> p == source) && (!HasPrefix(source, [Slash]) ==> p == [Slash] + source)
  {
    var source := if |rawPath| > 0 then rawPath else contextPath;
    if HasPrefix(source, [Slash]) then source else [Slash] + source
  }

  /** net.JoinHostPort: `host:port`, with the host in brackets when it holds a colon (an IPv6 literal). */
  function JoinHostPort(host: Bytes, port: Bytes): Bytes
  {
    if Colon in host then [LeftBracket] + host + [RightBracket, Colon] + port
    else host + [Colon] + port
  }

  predicate Bracketed(h: Bytes) {
    |h| >= 2 && h[0] == LeftBracket && h[|h| - 1] == RightBracket
  }

  /**
    The inverse JoinHostPort is checked against, after net.SplitHostPort:
    cut at the last colon; a host in brackets loses them, and a host that
    still holds a colon without brackets is an error (too many colons).
  */
  function SplitHostPort(hostport: Bytes): Option<(Bytes, Bytes)>
  {
    if Colon !in hostport then None
    else
      var i := LastIndexOf(hostport, Colon);
      var h := hostport[..i];
      if Bracketed(h) then Some((h[1..|h| - 1], hostport[i + 1..]))
      else if Colon in h then None
      else Some((h, hostport[i + 1..]))
  }

  /**
    Joining and splitting again gives host and port back, for any port
    without a colon and any host that is not a colon-free bracketed name.
  */
  lemma SplitJoinHostPort(host: Bytes, port: Bytes)
    requires Colon !in port
    requires Colon in host || !Bracketed(host)
    ensures SplitHostPort(JoinHostPort(host, port)) == Some((host, port))
  {
    var hp := JoinHostPort(host, port);
    if Colon in host {
      var n := |host| + 2;
      assert hp[n] == Colon;
      assert hp[n + 1..] == port;
      var i := LastIndexOf(hp, Colon);
      assert i == n;
      assert hp[..i] == [LeftBracket] + host + [RightBracket];
      assert hp[..i][1..|hp[..i]| - 1] == host;
    } else {
      var n := |host|;
      assert hp[n] == Colon;
      assert hp[n + 1..] == port;
      var i := LastIndexOf(hp, Colon);
      assert i == n;
      assert hp[..i] == host;
    }
  }

  /**
    The URL host: the domain name, or `localhost` when it is empty, joined
    with the X-Forwarded-Port header's value when the event carries one.
  */
  function ResolveHost(domainName: Bytes, headers: map<Bytes, Bytes>): (h: Bytes)
    ensures var base := if |domainName| > 0 then domainName else Localhost;
      && (ForwardedPort !in headers ==> h == base)
      && (ForwardedPort in headers ==> h == JoinHostPort(base, headers[ForwardedPort]))
      && (ForwardedPort in headers && Colon !in headers[ForwardedPort] && (Colon in base || !Bracketed(base))
          ==> SplitHostPort(h) == Some((base, headers[ForwardedPort])))
  {
    var base := if |domainName| > 0 then domainName else Localhost;
    if ForwardedPort !in headers then base
    else if Colon !in headers[ForwardedPort] && (Colon in base || !Bracketed(base)) then
      SplitJoinHostPort(base, headers[ForwardedPort]);
      JoinHostPort(base, headers[ForwardedPort])
    else JoinHostPort(base, headers[ForwardedPort])
  }

  /** The url.Values built from the parameter map: one value per key. */
  function QueryValues(params: map<Bytes, Bytes>): FormValues.Values
  {
    map k | k in params :: [params[k]]
  }

  /** The parameters as (key, value) pairs, keys in increasing order. */
  function SortedParameters(params: map<Bytes, Bytes>): seq<(Bytes, Bytes)>
  {
    PairsFor(FormValues.SortedKeys(params.Keys), params)
  }

  /** The (key, value) pair of each listed key, in the order listed. */
  function PairsFor(keys: seq<Bytes>, params: map<Bytes, Bytes>): seq<(Bytes, Bytes)>
    requires forall i :: 0 <= i < |keys| ==> keys[i] in params
  {
    if keys == [] then [] else [(keys[0], params[keys[0]])] + PairsFor(keys[1..], params)
  }

  /** A one-value-per-key map lists its pairs in key order. */
  lemma {:induction false} SingleValuedEntries(params: map<Bytes, Bytes>, keys: seq<Bytes>)
    requires forall i :: 0 <= i < |keys| ==> keys[i] in params
    ensures FormValues.EntriesOf(keys, QueryValues(params)) == PairsFor(keys, params)
    decreases |keys|
  {
    if keys != [] {
      var k := keys[0];
      var values := QueryValues(params);
      assert values[k] == [params[k]];
      assert seq(|values[k]|, i requires 0 <= i < |values[k]| => (k, values[k][i])) == [(k, params[k])];
      SingleValuedEntries(params, keys[1..]);
    }
  }

  /**
    The raw query: the event's raw query string when it is non-empty;
    otherwise the encoding of the parameter map, which reads back as its
    pairs in key order; otherwise empty.
  */
  function ResolveQuery(rawQueryString: Bytes, params: map<Bytes, Bytes>): (q: Bytes)
    ensures |rawQueryString| > 0 ==> q == rawQueryString
    ensures |rawQueryString| == 0 && |params| > 0 ==> FormValues.ParsePairs(q) == Some(SortedParameters(params))
    ensures |rawQueryString| == 0 && |params| == 0 ==> q == []
  {
    if |rawQueryString| > 0 then rawQueryString
    else if |params| > 0 then
      EncodedParameters(params);
      FormValues.Encode(QueryValues(params))
    else []
  }

  /** The encoded parameter map reads back as its pairs in key order. */
  lemma EncodedParameters(params: map<Bytes, Bytes>)
    ensures FormValues.ParsePairs(FormValues.Encode(QueryValues(params))) == Some(SortedParameters(params))
  {
    FormValues.ParseEncode(QueryValues(params));
    ParameterEntries(params);
  }

  /** The pairs url.Values.Encode lists for the parameter map. */
  lemma ParameterEntries(params: map<Bytes, Bytes>)
    ensures FormValues.Entries(QueryValues(params)) == SortedParameters(params)
  {
    var values := QueryValues(params);
    assert values.Keys == params.Keys;
    SingleValuedEntries(params, FormValues.SortedKeys(params.Keys));
  }

  /** A `tchar` of section 3.2.6 of RFC 7230, the bytes a method name may hold. */
  predicate IsTokenByte(b: byte) {
    || 48 <= b <= 57
    || 65 <= b <= 90
    || 97 <= b <= 122
    || b in {33, 35, 36, 37, 38, 39, 42, 43, 45, 46, 94, 95, 96, 124, 126}
  }

  predicate ValidMethod(m: Bytes) {
    |m| > 0 && forall i :: 0 <= i < |m| ==> IsTokenByte(m[i])
  }

  /**
    The method: the event's method upper-cased, `GET` when it is empty, and
    rejected exactly when it holds a byte that is not a token byte.
  */
  function RequestMethod(name: Bytes): (r: Result<Bytes, ProxyError>)
    ensures r.Success? <==> forall i :: 0 <= i < |name| ==> IsTokenByte(name[i])
    ensures r.Success? ==> ValidMethod(r.value) && forall i :: 0 <= i < |r.value| ==> !IsLower(r.value[i])
    ensures r.Success? && name == [] ==> r.value == MethodGet
    ensures name != [] ==> r == Success(ToUpper(name)) || r == Failure(InvalidMethod(ToUpper(name)))
  {
    var upper := ToUpper(name);
    var m := if upper == [] then MethodGet else upper;
    assert forall i :: 0 <= i < |name| ==> (IsTokenByte(name[i]) <==> IsTokenByte(upper[i]));
    if ValidMethod(m) then Success(m) else Failure(InvalidMethod(m))
  }

  /** Each comma-separated piece with the spaces around it trimmed. */
  function TrimEach(pieces: seq<Bytes>): (r: seq<Bytes>)
    ensures |r| == |pieces|
    ensures forall i :: 0 <= i < |r| ==> r[i] == Trim(pieces[i], Space)
  {
    seq(|pieces|, i requires 0 <= i < |pieces| => Trim(pieces[i], Space))
  }

  /**
    The values a header of the event becomes: User-Agent keeps its value
    whole; any other header gets one value per comma-separated piece, in
    order, none holding a comma or starting or ending with a space.
  */
  function HeaderValues(key: Bytes, value: Bytes): (vs: seq<Bytes>)
    ensures key == UserAgent ==> vs == [value]
    ensures key != UserAgent ==> |vs| == |Split(value, Comma)| >= 1
    ensures key != UserAgent ==> forall i :: 0 <= i < |vs| ==> vs[i] == Trim(Split(value, Comma)[i], Space)
    ensures key != UserAgent ==> forall i :: 0 <= i < |vs| ==>
      Comma !in vs[i] && (vs[i] == [] || (vs[i][0] != Space && vs[i][|vs[i]| - 1] != Space))
  {
    if key == UserAgent then [value]
    else
      var pieces := Split(value, Comma);
      TrimEach(pieces)
  }

  /** Values written with single commas and no padding come back one by one. */
  lemma HeaderValuesJoin(key: Bytes, values: seq<Bytes>)
    requires key != UserAgent && |values| >= 1
    requires forall i :: 0 <= i < |values| ==>
      Comma !in values[i] && (values[i] == [] || (values[i][0] != Space && values[i][|values[i]| - 1] != Space))
    ensures HeaderValues(key, Join(values, Comma)) == values
  {
    SplitJoin(values, Comma);
    TrimEachUnchanged(values);
  }

  lemma TrimEachUnchanged(values: seq<Bytes>)
    requires forall i :: 0 <= i < |values| ==>
      values[i] == [] || (values[i][0] != Space && values[i][|values[i]| - 1] != Space)
    ensures TrimEach(values) == values
  {
    var trimmed := TrimEach(values);
    forall i | 0 <= i < |values|
      ensures trimmed[i] == values[i]
    {
      TrimUnchanged(values[i], Space);
    }
  }

  /** The request header built from the event's headers, key by key. */
  function TranslateHeaders(headers: map<Bytes, Bytes>): (r: Header)
    ensures r.Keys == headers.Keys
    ensures forall k :: k in headers ==> r[k] == HeaderValues(k, headers[k])
  {
    map k | k in headers :: HeaderValues(k, headers[k])
  }

  /** The request the event reconstructs to, or the error that stops it. */
  function Reconstruct(e: Event): (r: Result<Request, ProxyError>)
    ensures r.Failure? <==>
      (e.isBase64Encoded && !Base64.IsBase64(e.body))
      || exists i :: 0 <= i < |e.requestContext.http.httpMethod| && !IsTokenByte(e.requestContext.http.httpMethod[i])
    ensures e.isBase64Encoded && !Base64.IsBase64(e.body) ==> r == Failure(CorruptBody)
    ensures r.Success? && e.isBase64Encoded ==> Base64.Decode(e.body) == Some(r.value.body)
    ensures r.Success? && !e.isBase64Encoded ==> r.value.body == e.body
    ensures r.Success? ==> r.value.url.scheme == Https && r.value.remoteAddr == e.requestContext.http.sourceIp
    ensures r.Success? ==>
      && RequestMethod(e.requestContext.http.httpMethod) == Success(r.value.httpMethod)
      && r.value.url.path == ResolvePath(e.rawPath, e.requestContext.http.path)
      && r.value.url.host == ResolveHost(e.requestContext.domainName, e.headers)
      && r.value.url.rawQuery == ResolveQuery(e.rawQueryString, e.queryStringParameters)
      && r.value.header == TranslateHeaders(e.headers)
  {
    Base64.DecodeSucceedsIff(e.body);
    var body := if e.isBase64Encoded then Base64.Decode(e.body) else Some(e.body);
    if body.None? then Failure(CorruptBody)
    else
      var verb := RequestMethod(e.requestContext.http.httpMethod);
      if verb.Failure? then Failure(verb.error)
      else
        var url := Url(
          Https,
          ResolvePath(e.rawPath, e.requestContext.http.path),
          ResolveHost(e.requestContext.domainName, e.headers),
          ResolveQuery(e.rawQueryString, e.queryStringParameters));
        Success(Request(verb.value, url, TranslateHeaders(e.headers), body.value, e.requestContext.http.sourceIp))
  }

  /** RequestForEvent, step by step as the Go function takes them. */
  method RequestForEvent(e: Event) returns (r: Result<Request, ProxyError>)
    ensures r == Reconstruct(e)
  {
    var body := e.body;
    if e.isBase64Encoded {
      var decoded := Base64.Decode(e.body);
      if decoded.None? {
        return Failure(CorruptBody);
      }
      body := decoded.value;
    }

    var path := e.rawPath;
    if |path| == 0 {
      path := e.requestContext.http.path;
    }
    if !HasPrefix(path, [Slash]) {
      path := [Slash] + path;
    }

    var host := e.requestContext.domainName;
    if |host| == 0 {
      host := Localhost;
    }
    if ForwardedPort in e.headers {
      host := JoinHostPort(host, e.headers[ForwardedPort]);
    }

    var rawQuery := [];
    if |e.rawQueryString| > 0 {
      rawQuery := e.rawQueryString;
    } else if |e.queryStringParameters| > 0 {
      var query := CollectParameters(e.queryStringParameters);
      rawQuery := FormValues.Encode(query);
    }

    var verb := RequestMethod(e.requestContext.http.httpMethod);
    if verb.Failure? {
      return Failure(verb.error);
    }

    var header := CopyHeaders(e.headers);
    r := Success(Request(verb.value, Url(Https, path, host, rawQuery), header, body, e.requestContext.http.sourceIp));
  }

  /** The loop adding every query parameter to a fresh url.Values. */
  method CollectParameters(params: map<Bytes, Bytes>) returns (query: FormValues.Values)
    ensures query == QueryValues(params)
  {
    query := map[];
    var todo := params.Keys;
    ghost var done: set<Bytes> := {};
    while todo != {}
      invariant done == params.Keys - todo && todo <= params.Keys
      invariant query == CollectedSome(params, done)
      decreases |todo|
    {
      var k :| k in todo;
      query := AddParameter(query, k, params[k]);
      CollectedStep(params, done, k);
      todo := todo - {k};
      done := done + {k};
    }
  }

  /** query.Add(k, v) on a key the values do not hold yet. */
  method AddParameter(query: FormValues.Values, k: Bytes, v: Bytes) returns (r: FormValues.Values)
    requires k !in query
    ensures r == query[k := [v]]
  {
    assert [] + [v] == [v];
    r := Added(query, k, v);
  }

  /** The url.Values built once the keys in `done` have been added. */
  function CollectedSome(params: map<Bytes, Bytes>, done: set<Bytes>): FormValues.Values
    requires done <= params.Keys
  {
    map k | k in done :: [params[k]]
  }

  lemma CollectedStep(params: map<Bytes, Bytes>, done: set<Bytes>, k: Bytes)
    requires done <= params.Keys && k in params && k !in done
    ensures CollectedSome(params, done)[k := [params[k]]] == CollectedSome(params, done + {k})
  {
  }

  /** The headers already translated once the keys in `done` have been handled. */
  function TranslatedSome(headers: map<Bytes, Bytes>, done: set<Bytes>): Header
    requires done <= headers.Keys
  {
    map k | k in done :: HeaderValues(k, headers[k])
  }

  /**
    The outer loop over the event's headers. The result does not depend on
    the order the keys are visited in.
  */
  method CopyHeaders(headers: map<Bytes, Bytes>) returns (header: Header)
    ensures header == TranslateHeaders(headers)
  {
    header := map[];
    var todo := headers.Keys;
    ghost var done: set<Bytes> := {};
    while todo != {}
      invariant done == headers.Keys - todo && todo <= headers.Keys
      invariant header == TranslatedSome(headers, done)
      decreases |todo|
    {
      var k :| k in todo;
      header := CopyHeader(header, k, headers[k]);
      TranslatedStep(headers, done, k);
      todo := todo - {k};
      done := done + {k};
    }
  }

  lemma TranslatedStep(headers: map<Bytes, Bytes>, done: set<Bytes>, k: Bytes)
    requires done <= headers.Keys && k in headers && k !in done
    ensures TranslatedSome(headers, done)[k := HeaderValues(k, headers[k])] == TranslatedSome(headers, done + {k})
  {
  }

  /** What the inner loop has put under `key` after its first j pieces. */
  function PartialValues(key: Bytes, value: Bytes, j: nat): seq<Bytes>
    requires j <= |Split(value, Comma)|
  {
    if key == UserAgent then [value] else TrimEach(Split(value, Comma)[..j])
  }

  /**
    The inner loop over one header's comma-separated pieces: Set of the
    whole value for User-Agent, Add of the trimmed piece for any other key.
  */
  method CopyHeader(header: Header, key: Bytes, value: Bytes) returns (r: Header)
    requires key !in header
    ensures r == header[key := HeaderValues(key, value)]
  {
    r := header;
    var pieces := Split(value, Comma);
    for j := 0 to |pieces|
      invariant r == if j == 0 then header else header[key := PartialValues(key, value, j)]
    {
      if key == UserAgent {
        r := Replaced(r, key, value);
      } else {
        var sofar := if j == 0 then [] else PartialValues(key, value, j);
        PartialStep(value, j);
        AddedAfter(header, key, sofar, Trim(pieces[j], Space), j == 0);
        r := Added(r, key, Trim(pieces[j], Space));
      }
    }
    assert pieces[..|pieces|] == pieces;
  }

  /** One Add onto the map the inner loop holds. */
  lemma AddedAfter(before: Header, k: Bytes, sofar: seq<Bytes>, t: Bytes, first: bool)
    requires k !in before && (first ==> sofar == [])
    ensures Added(if first then before else before[k := sofar], k, t) == before[k := sofar + [t]]
  {
    var m := if first then before else before[k := sofar];
    assert (if k in m then m[k] else []) == sofar;
    assert Added(m, k, t) == m[k := sofar + [t]];
  }

  lemma PartialStep(value: Bytes, j: nat)
    requires j < |Split(value, Comma)|
    ensures var pieces := Split(value, Comma);
      TrimEach(pieces[..j + 1]) == TrimEach(pieces[..j]) + [Trim(pieces[j], Space)]
  {
    TrimEachSnoc(Split(value, Comma), j);
  }

  lemma TrimEachSnoc(pieces: seq<Bytes>, j: nat)
    requires j < |pieces|
    ensures TrimEach(pieces[..j + 1]) == TrimEach(pieces[..j]) + [Trim(pieces[j], Space)]
  {
    var a, b := TrimEach(pieces[..j + 1]), TrimEach(pieces[..j]) + [Trim(pieces[j], Space)];
    assert |a| == |b|;
    forall i | 0 <= i < |a|
      ensures a[i] == b[i]
    {
      if i < j {
        assert a[i] == Trim(pieces[i], Space) == b[i];
      }
    }
  }
}

/** The sample event of the repository's test, and what it reconstructs to. */
module Fixture {
  import opened Text
  import opened Wrappers
  import opened Requests

  const SampleAgent: Bytes := Ascii("Paw/3.2 (Macintosh; ") + Ascii("OS X/10.16.0) ") + Ascii("GCDHTTPRequest")

  const Sample: Event := Event(
    Ascii("/foo/bar"),
    Ascii("baz=1"),
    map[
      Ascii("Host") := Ascii("127.0.0.1:3000"),
      Ascii("X-Forwarded-Proto") := Ascii("http"),
      ForwardedPort := Ascii("3000"),
      Ascii("Connection") := Ascii("close"),
      UserAgent := SampleAgent],
    map[Ascii("baz") := Ascii("1")],
    [],
    false,
    RequestContext([], HTTPDescription(Ascii("GET"), Ascii("/foo/bar"), Ascii("127.0.0.1"))))

  lemma SamplePath()
    ensures ResolvePath(Sample.rawPath, Sample.requestContext.http.path) == Ascii("/foo/bar")
  {
    assert Ascii("/foo/bar")[..1] == [Slash];
  }

  lemma SampleHost()
    ensures ResolveHost(Sample.requestContext.domainName, Sample.headers) == Ascii("localhost:3000")
  {
    assert |ForwardedPort| != |UserAgent| && |ForwardedPort| != |Ascii("Connection")|;
    assert Sample.headers[ForwardedPort] == Ascii("3000");
    assert Colon !in Localhost;
    assert Localhost + [Colon] + Ascii("3000") == Ascii("localhost:3000");
  }

  lemma SampleMethod()
    ensures RequestMethod(Sample.requestContext.http.httpMethod) == Success(Ascii("GET"))
  {
    var get := Ascii("GET");
    assert get == [71, 69, 84];
    assert Sample.requestContext.http.httpMethod == get;
    assert ToUpper(get) == get;
  }

  lemma SampleHeaders()
    ensures var h := TranslateHeaders(Sample.headers);
      h[UserAgent] == [SampleAgent] && h[Ascii("Connection")] == [Ascii("close")]
  {
    assert Ascii("Connection")[0] != UserAgent[0];
    assert Sample.headers[Ascii("Connection")] == Ascii("close");
    var close := Ascii("close");
    assert Comma !in close;
    assert Split(close, Comma) == [close];
    TrimUnchanged(close, Space);
    assert TrimEach([close]) == [close];
    assert HeaderValues(Ascii("Connection"), close) == [close];
  }

  /** A header value `a , b` becomes the two values `a` and `b`: split at the comma, spaces trimmed. */
  lemma PaddedPiecesTrimmed()
    ensures HeaderValues(Ascii("Accept"), Ascii("a , b")) == [Ascii("a"), Ascii("b")]
  {
    assert Ascii("a , b") == [97, 32, 44, 32, 98];
    assert Ascii("a") == [97] && Ascii("b") == [98];
    assert Ascii("Accept")[0] != UserAgent[0];
    PiecesOfPadded();
  }

  lemma PiecesOfPadded()
    ensures TrimEach(Split([97, 32, 44, 32, 98], Comma)) == [[97], [98]]
  {
    var pieces := Split([97, 32, 44, 32, 98], Comma);
    SplitPadded();
    TrimPadded(pieces[0], pieces[1]);
    var t := TrimEach(pieces);
    assert t == [[97], [98]];
  }

  lemma SplitPadded()
    ensures Split([97, 32, 44, 32, 98], Comma) == [[97, 32], [32, 98]]
  {
    var v: Bytes := [97, 32, 44, 32, 98];
    var left: Bytes, right: Bytes := [97, 32], [32, 98];
    assert v == left + [Comma] + right;
    FirstSeparator(left, Comma, right);
    assert v[..2] == left && v[3..] == right;
    assert Split(right, Comma) == [right];
  }

  lemma TrimPadded(left: Bytes, right: Bytes)
    requires left == [97, 32] && right == [32, 98]
    ensures Trim(left, Space) == [97] && Trim(right, Space) == [98]
  {
    assert LeadCount(left, Space) == 0;
    assert left[..1] == [97] && TrailCount([97], Space) == 0;
    assert right[1..] == [98] && LeadCount([98], Space) == 0;
    assert TrailCount([98], Space) == 0;
  }

  /** The sample reconstructs without error to a GET of https://localhost:3000/foo/bar?baz=1 from 127.0.0.1. */
  lemma SampleRequest()
    ensures var r := Reconstruct(Sample);
      && r.Success?
      && r.value.httpMethod == Ascii("GET")
      && r.value.url == Url(Https, Ascii("/foo/bar"), Ascii("localhost:3000"), Ascii("baz=1"))
      && r.value.remoteAddr == Ascii("127.0.0.1")
      && r.value.header[UserAgent] == [SampleAgent]
      && r.value.header[Ascii("Connection")] == [Ascii("close")]
  {
    var r := Reconstruct(Sample);
    SamplePath();
    SampleHost();
    SampleMethod();
    assert |Sample.rawQueryString| > 0;
    assert r == Success(Request(
      Ascii("GET"),
      Url(Https, Ascii("/foo/bar"), Ascii("localhost:3000"), Ascii("baz=1")),
      TranslateHeaders(Sample.headers),
      [],
      Ascii("127.0.0.1")));
    SampleHeaders();
  }
}
