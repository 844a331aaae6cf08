/** The errors the proxy can return alongside its payload. */
module ProxyErrors {
  import opened Text

  datatype ProxyError =
    | CorruptBody                      // base64.StdEncoding rejected an encoded event body
    | InvalidMethod(httpMethod: Bytes)     // http.NewRequest rejected the method
    | StatusNotSet                     // the handler neither wrote nor set a status
}
