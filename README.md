# api-gateway-proxy in Dafny

A model of `proxy.go`, the adapter that lets a standard Go `http.Handler`
serve AWS API Gateway (HTTP API, payload version 2.0) events. The proxy has
three parts, and the model has them in the same order:

- **Request reconstruction** (`Requests`, in `requests.dfy`):
  - `RequestForEvent` turns an event into a request. It decodes a base64
    body, chooses the path and gives it a leading `/`, and builds the
    `https` URL. The host is the domain name or `localhost`, plus the
    `X-Forwarded-Port` port.
  - The query is the raw query string, or the form encoding of the
    parameter map.
  - The method is upper-cased and checked the way `http.NewRequest`
    checks it.
  - Every header value is split on commas and trimmed, except
    `User-Agent`, which is kept whole.
  - `RequestForEvent` is a method with the source's loops. It is proved
    equal to the specification function `Reconstruct`, whose contract and
    lemmas state the properties.
- **Response capture** (`Capture`, in `capture.dfy`):
  - The `writer` is a class whose fields are updated in place. Its header
    map is a separate object, because Go's `Header()` hands out the live
    map.
  - Each writer method is proved against a function on a `WriterState`
    value.
  - `ResponseOf` (Go's `writer.response`) turns the state into the
    gateway payload.
  - `InternalServerErrorResponse` is the fixed fallback payload.
- **The handler round** (`Proxy`, in `proxy.dfy`):
  - `Handle` reconstructs the request, runs the wrapped handler's calls
    on a fresh writer, and finalises the result.
  - The wrapped handler is modelled as a function from the request to the
    calls it makes on the writer: `Write`, `WriteHeader`, and, through
    `Header()`, `Add`, `Set`, `Del` or a direct assignment of a key's whole
    list of values (`h[k] = vs`, including an empty or nil list).
  - The writer's state after any prefix of calls is determined by those
    calls. So a handler that reads state back is covered too.

Supporting modules:

- `Text`: Go's `strings` functions on byte strings.
- `Base64`: section 4 of RFC 4648, as Go's `StdEncoding` implements it.
- `Utf8`: the grammar of section 4 of RFC 3629, as `utf8.Valid` accepts it.
- `Headers`: `http.Header`.
- `FormValues`: `url.Values.Encode` and `url.QueryEscape`.
- `Fixture`: the sample event of `proxy_test.go`.

Go strings and byte slices are both `Bytes`, a sequence of values 0..255.

`Write` sniffs a content type whenever the first `Content-Type` value is
empty, not only on the first write (proxy.go:140-142). Sniffing happens more
than once when a handler presets an empty `Content-Type`, or deletes or
empties it after a write:

- `Proxy.EmptyContentTypeIsSniffed`: a preset empty value gets a sniffed one appended.
- `Proxy.DeletedContentTypeIsSniffedAgain`: a deleted type is sniffed again from the next write.
- `Proxy.SniffedOnce`: with no handler edits of `Content-Type`, there is exactly one value, sniffed from the first write.

## Model

| member | source | states |
|---|---|---|
| Text.ToUpper | proxy.go:93 | same length, no lower-case letter left, each byte kept or its lower-case letter capitalised |
| Text.IndexOf | proxy.go:99 | the position of the first occurrence: it holds the byte and nothing before it does |
| Text.Split | proxy.go:99 | at least one piece, no piece holds the separator, joining the pieces gives the input back |
| Text.SplitJoin | proxy.go:99 | splitting a join of separator-free pieces gives the pieces back |
| Text.FirstSeparator | proxy.go:99 | after a separator-free prefix, the first separator is the one ending that prefix |
| Text.LeadCount | proxy.go:103 | the length of the leading run of the cut byte: all of it is that byte, and the byte after it is not |
| Text.TrailCount | proxy.go:103 | the length of the trailing run of the cut byte: all of it is that byte, and the byte before it is not |
| Text.Trim | proxy.go:103 | the result is an infix of the input, does not start or end with the cut byte, everything removed is the cut byte, and it holds no byte the input lacks |
| Text.TrimUnchanged | proxy.go:103 | a string that neither starts nor ends with the cut byte is left as it is |
| Base64.Encode | proxy.go:166 | output length is four characters per started group of three bytes |
| Base64.EncodeIsAscii | proxy.go:166 | every byte of the encoding is ASCII |
| Base64.Decode | proxy.go:52-55 | decoding fails exactly on input that is not well formed; the round trip with Encode is DecodeEncode |
| Base64.DecodeSucceedsIff | proxy.go:52-55 | decoding succeeds exactly when the input, without CR and LF, is whole padded groups of alphabet characters with padding only at the end |
| Base64.DecodeEncode | proxy.go:166 | decoding the encoding of any bytes gives them back |
| Base64.StripEncoded | proxy.go:52 | an encoding holds no CR or LF, so the decoder's newline stripping leaves it as it is |
| Base64.DecodeGroupsSucceedsIff | proxy.go:52-55 | the newline-free input decodes exactly when it is whole groups of alphabet characters with padding only at the end |
| Utf8.Valid | proxy.go:162 | utf8.Valid; EncodedIsValid and ValidIsEncoded prove it accepts exactly the encodings of scalar values |
| Utf8.AsciiIsValid | proxy.go:162 | ASCII text is valid UTF-8 |
| Utf8.EncodedIsValid | proxy.go:162 | the encoding of any sequence of scalar values is valid |
| Utf8.ValidIsEncoded | proxy.go:162 | every valid byte string decodes to scalar values whose encoding is that string |
| Utf8.DecodeEncodeRune | proxy.go:162 | whatever follows it, the encoding of a scalar value starts a well-formed character that decodes back to that value |
| Utf8.EncodeDecodeRune | proxy.go:162 | the character a byte string starts with decodes to a scalar value whose encoding is that character |
| Headers.Added | proxy.go:103 | Add appends the value under the key and changes no other key |
| Headers.Replaced | proxy.go:101 | Set makes the value the only one under the key and changes no other key |
| Headers.Removed | proxy.go:131-133 | Del removes the key and changes no other key |
| Headers.Assigned | proxy.go:131-133 | a direct assignment makes the given list the key's whole list and changes no other key |
| Headers.HeaderMap.constructor | proxy.go:118 | a new header map is empty |
| Headers.HeaderMap.Add | proxy.go:141 | the map becomes Added of the old map |
| Headers.HeaderMap.Set | proxy.go:101 | the map becomes Replaced of the old map |
| Headers.HeaderMap.Del | proxy.go:131-133 | the map becomes Removed of the old map |
| Headers.HeaderMap.Put | proxy.go:131-133 | the map becomes Assigned of the old map |
| FormValues.SortedKeys | proxy.go:90 | as many keys as the set holds, each key of the set and no other |
| FormValues.SortedKeysIncreasing | proxy.go:90 | the keys are listed in strictly increasing byte order, so none twice |
| FormValues.LeastExists | proxy.go:90 | a non-empty key set has a least key, so the order is total on it |
| FormValues.QueryEscape | proxy.go:90 | the escaped text holds no `&` and no `=` |
| FormValues.UnescapeEscape | proxy.go:90 | unescaping escaped text gives it back |
| FormValues.Render | proxy.go:90 | a rendered pair is non-empty and holds no `&` |
| FormValues.RenderAll | proxy.go:90 | one rendered piece per pair, each non-empty and without `&` |
| FormValues.ParseAllRendered | proxy.go:90 | the rendered pieces read back one by one as the pairs |
| FormValues.ParseJoined | proxy.go:90 | any sequence of pairs, rendered and joined with `&`, reads back as itself |
| FormValues.Encode | proxy.go:90 | the encoded query reads back as the map's (key, value) pairs, keys in sorted order |
| FormValues.ParseEncode | proxy.go:90 | the encoded query reads back as the map's (key, value) pairs, keys in sorted order |
| Requests.ResolvePath | proxy.go:61-68 | raw path, else context path; the result starts with `/`, is unchanged when the source already does, and otherwise gets exactly one `/` in front |
| Requests.JoinHostPort | proxy.go:78 | net.JoinHostPort; SplitJoinHostPort proves it splits back into host and port, which forces brackets around a host holding a colon |
| Requests.SplitJoinHostPort | proxy.go:78 | for a port without a colon, splitting the join at the last colon gives host and port back; since a split rejects an unbracketed host that still holds a colon, such a host must have been bracketed |
| Requests.ResolveHost | proxy.go:72-79 | domain name, else `localhost`; with an X-Forwarded-Port header, exactly JoinHostPort of that host and the header value, which splits back into them when the value holds no colon |
| Requests.SingleValuedEntries | proxy.go:84-88 | for a map with one value per key, the entries listed for any keys are those keys' (key, value) pairs, in the same order |
| Requests.ParameterEntries | proxy.go:84-90 | the pairs url.Values.Encode lists for the parameter map are its own (key, value) pairs in key order |
| Requests.EncodedParameters | proxy.go:84-90 | the encoded parameter map reads back as its pairs in key order |
| Requests.ResolveQuery | proxy.go:81-91 | a non-empty raw query verbatim; else the parameters, encoded so that they read back in key order; else empty |
| Requests.RequestMethod | proxy.go:93 | upper-cased, `GET` when empty, rejected exactly when the method holds a non-token byte; an accepted method is a non-empty token without lower-case letters |
| Requests.HeaderValues | proxy.go:98-106 | User-Agent keeps its value whole; any other header gets value i = piece i of the comma split with the spaces around it trimmed, so none holds a comma or is padded with spaces |
| Requests.HeaderValuesJoin | proxy.go:98-106 | unpadded values joined with commas come back one by one |
| Fixture.PaddedPiecesTrimmed | proxy.go:99-103 | the header value `a , b` becomes the two values `a` and `b` |
| Requests.TrimEachUnchanged | proxy.go:103 | trimming values that are not padded with spaces leaves them as they are |
| Requests.TranslateHeaders | proxy.go:98-106 | the request header has exactly the event's header keys, each with HeaderValues of the event value |
| Requests.Reconstruct | proxy.go:49-112 | fails exactly on a corrupt base64 body or a non-token method, with the decoding error first; on success the body is the decoded bytes or the literal body, scheme `https`, remote address the source IP, and method, path, host, query and header are RequestMethod, ResolvePath, ResolveHost, ResolveQuery and TranslateHeaders of the event |
| Requests.RequestForEvent | proxy.go:49-112 | the step-by-step translation returns what Reconstruct specifies |
| Requests.CollectParameters | proxy.go:84-88 | the loop builds the one-value-per-key url.Values of the parameters, whatever order it visits them in |
| Requests.AddParameter | proxy.go:87 | adding a parameter under a new key gives it that one value and changes nothing else |
| Requests.CopyHeaders | proxy.go:98-106 | the loop builds TranslateHeaders of the event headers, whatever order it visits them in |
| Requests.CopyHeader | proxy.go:99-105 | the inner loop leaves exactly HeaderValues under the key and nothing else changed |
| Fixture.SamplePath | proxy_test.go:17 | the sample's path is `/foo/bar` |
| Fixture.SampleHost | proxy_test.go:23 | the sample's host is `localhost:3000` |
| Fixture.SampleMethod | proxy_test.go:43 | the sample's method is `GET` |
| Fixture.SampleHeaders | proxy_test.go:19-25 | the sample's User-Agent is kept whole and Connection is `close` |
| Fixture.SampleRequest | proxy_test.go:13-52 | the sample reconstructs without error to GET https://localhost:3000/foo/bar?baz=1 from 127.0.0.1 |
| Capture.InternalServerErrorResponse | proxy.go:37-46 | status 500, one JSON Content-Type, body `{"errorCode":"500"}` as text, and that body is valid UTF-8 |
| Capture.AfterWrite | proxy.go:135-145 | status 200 only if it was unset, otherwise unchanged; a sniffed Content-Type added only when its first value is empty; body extended by exactly the bytes |
| Capture.ResponseOf | proxy.go:151-171 | unset status gives the 500 payload and an error, and only then is there an error; otherwise status and headers carried through, text exactly when the body is valid UTF-8, and otherwise the standard base64 encoding of the body, which decodes back to it; the payload body is always valid UTF-8 |
| Capture.Writer.constructor | proxy.go:115-120 | a new writer has status -1, no headers and an empty body |
| Capture.Writer.Header | proxy.go:131-133 | Header returns the writer's own map object |
| Capture.Writer.Write | proxy.go:135-145 | the new state is AfterWrite of the old one, and the count returned is the length written |
| Capture.Writer.WriteHeader | proxy.go:147-149 | the status is overwritten unconditionally and nothing else changes |
| Capture.Writer.Response | proxy.go:151-171 | the reply is ResponseOf the writer's state |
| Proxy.Apply | proxy.go:131-149 | one call: only Write changes the body, only Write and WriteHeader the status; WriteHeader sets the status and nothing else; Write is AfterWrite |
| Proxy.Serve | proxy.go:21-34 | a failed reconstruction gives the 500 payload with its error; otherwise an error exactly when the handler left the status unset; an error always comes with the 500 payload; the reply body is always valid UTF-8 |
| Proxy.Perform | proxy.go:30 | one handler call moves the writer's state as Apply says |
| Proxy.Handle | proxy.go:21-34 | the handler round returns Serve: the 500 payload with the reconstruction error, or the response of the writer after the handler's calls |
| Proxy.StatusStaysUnset | proxy.go:136-138 | calls that neither write nor set a status leave the status at -1 |
| Proxy.CorruptBodyFails | proxy.go:23-26 | a corrupt base64 body gives the 500 payload and the decoding error |
| Proxy.SilentHandlerFails | proxy.go:152-154 | a handler that neither writes nor sets a status gets the 500 payload and an error |
| Proxy.WriteImpliesOK | proxy.go:136-138 | writing without ever calling WriteHeader gives status 200 |
| Proxy.LastWriteHeaderWins | proxy.go:147-149 | the last WriteHeader decides the status, unless it set -1 |
| Proxy.WrittenSnoc | proxy.go:144 | the written bytes of calls plus one more call are extended by that call's chunk |
| Proxy.BodyIsWritten | proxy.go:144 | the buffered body is every written chunk, in order |
| Proxy.ReplyCarriesWrittenBody | proxy.go:161-168 | a successful reply's body is what the handler wrote, as text or as base64 that decodes to it |
| Proxy.SniffedOnce | proxy.go:140-142 | with a sniffer that always names a type and no handler edits of Content-Type, the header holds exactly one value, sniffed from the first write |
| Proxy.NoContentTypeBeforeWrite | proxy.go:140-142 | before the first write there is no Content-Type unless the handler set one |
| Proxy.EmptyContentTypeIsSniffed | proxy.go:140-142 | a Content-Type preset to the empty string gets a sniffed value appended after it |
| Proxy.DeletedContentTypeIsSniffedAgain | proxy.go:140-142 | a Content-Type deleted after a write is sniffed again from the next write |

## Left out

- The context, `req.WithContext` and the call to `handler.ServeHTTP` (proxy.go:30) are not modelled as code. The handler is a function from the request to the calls it makes; panics and concurrency inside it are outside the model.
- `http.DetectContentType` (proxy.go:141) is the parameter `detect`. The model says when it is called and what is done with its result, not what it returns.
- Header-name canonicalisation by `http.Header` is not modelled; keys are used as given. The `User-Agent` and `X-Forwarded-Port` comparisons in proxy.go are on the raw event keys, and so are the model's.
- Requests.Reconstruct: the URL is kept as its parts, not serialised and parsed again as `http.NewRequest` does (proxy.go:93). So the model never fails on the URL where Go can, for example on a host with a space. Nor does it make the changes that re-parse makes to a successful result: an empty X-Forwarded-Port gives host `localhost:` in the model and `localhost` in Go (which removes an empty port), and a `#` in the raw query string ends Go's query there, moving the rest into the URL fragment.
- `RequestURI` (proxy.go:109) is not modelled, because it is the serialised URL.
- The request's context, body reader and content length set by `http.NewRequest` are not modelled; the body is the byte string.
- Text.ToUpper: maps ASCII letters only. Go's `strings.ToUpper` also maps the non-ASCII letters U+0131 and U+017F to `I` and `S`. Every other non-ASCII byte stays non-ASCII in Go's result, so it is rejected either way. Only methods holding those two letters are accepted differently, and the method text inside the error can differ.
- The error values carry no message text or byte offset: a corrupt body is `CorruptBody`, a bad method `InvalidMethod` with the upper-cased method, and an unset status `StatusNotSet`.
- Go's random map iteration order is an arbitrary choice of the next key; CopyHeaders and CollectParameters are proved to give the same result for every order.
- The `bytes.Buffer` growth limit (a panic on a body too large for memory) and `Write`'s error result, which is always nil here, are not modelled.
- FormValues.ParsePairs is a reference reader for the encoding, not Go's `url.ParseQuery`. That function also skips empty pieces and rejects `;`, neither of which occurs in an encoded query.
