/**
 * The error values the request parsers return. `RequestError` follows the
 * variants the parsing code constructs, which include `UrlEncodedNul` for a
 * query string whose decoding holds a NUL byte (src/http/error.rs lists
 * only the other three); `ParseError` is the older parser's error type
 * (src/error.rs).
 */
module Errors {
  datatype RequestError = InvalidRequestLine | InvalidHeader | InvalidEncoding | UrlEncodedNul

  datatype ParseError = ParseInvalidRequestLine | ParseInvalidHeader
}
