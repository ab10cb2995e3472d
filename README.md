# wwwee in Dafny

wwwee is a small HTTP server for Linux. It runs a single-threaded, edge-triggered epoll loop and serves static files
with Linux asynchronous I/O (`io_submit` on files opened with `O_DIRECT`). The server keeps a fixed table
of 100 connection slots. Each connection reads a request into a buffer borrowed from a pool. The header
block is split from the body on the first empty line and parsed in place: the request line, the
headers and the URL-encoded query. The response is then written by a small state machine, first the
headers and then a file streamed block by block.

This project models that core and proves properties of the model. It has one Dafny module per source
file, or per group of closely related files:

- **Bytes, HttpStr, Split, HeaderBodySplitter** cover the byte utilities. They model ASCII case
  changes, trimming, searching and the zero-copy `split` iterators over `&mut [u8]`, and the search for
  `\r\n\r\n` that separates headers from body. The splitter proves that incremental searching finds the
  same position as searching once.
- **UrlDecode, UrlParamsDecode, UrlParamsParse, UrlParamsIterator** cover URL handling. They model the
  in-place percent-decoding of `url_decode.rs` on an `array` and the in-place rewriting of the query
  into NUL-marked name/value components. They also model the iterator that reads those components back.
  The main theorem is that the iterator yields exactly the decoded `name=value` pairs of the query.
- **Headers, RawHeaders, HttpRequestLine, HttpHeaders, ETagMatches, HttpRequests, MimeTypes** cover
  request parsing. They model the parsers of the request line (method, path, query, version), of header
  lines (title-cased names, trimmed values) and of whole requests. They also model recognising the
  well-known headers, `If-None-Match`, and the MIME type chosen from a file extension.
- **Base64** covers the in-place decoder of `encoding/base64.rs`. It is proved against a reference
  encoder with a round trip.
- **HttpResponses, OldHttpResponses** cover the two response builders. They prove that the bytes written
  read back, through the header/body splitter, as the status line, the headers and the body.
- **Buffers, PageBuffers** cover the fixed-size buffers, the pool that lends each buffer to one borrower
  at a time, and the page-rounded buffer.
- **Tokens** covers the packing of a connection id and an async id into one epoll token.
- **SocketIo, Handlers, ResponseWriters, QueryConnections, Servers** cover the event-driven part. They
  model the send and receive loops over a socket that follows a script of outcomes, and the
  buffer/file responders. They also model the response writer's state machine, the per-connection
  request/response stages, and the server's connection table and event dispatch.
- **DirectIo, ReadRanges, FileSource, FileHandlerReader** cover the aligned block arithmetic of
  `O_DIRECT` reads, the sliding read window over a byte range, and the two asynchronous file readers.
  For a complete read, the bytes `FileSource.Reader` delivers are exactly the requested range of the
  file. `FileHandlerReader.Reader` does not keep to the range as written; see "Findings".
- **Paths, Routing, StaticDirectories** cover the validation of relative paths and file names, which
  keeps every opened file inside its directory. They also cover the URL router and the mapping from a
  directory URL to a file.

Errors are values: `Wrappers` holds `Option` and `Result`, and `Errors` holds the error kinds of the
request parsers. Each I/O module declares its own: `SocketIo.ErrorKind`, `Buffers.IoError`,
`FileSource.IoError` and `FileHandlerReader.IoError`. Where the Rust code panics (an `unwrap`, an `assert!`, or a slice out of range), the model
states the condition as a precondition, and the section "Left out" lists it by member. Sockets, the
poller, the kernel's AIO completions and the file system are modelled as parameters: scripts of
outcomes and values handed in by the caller.

## Model

| member | source | states |
|---|---|---|
| UrlDecode.HexDecodeDigit | src/http/url_decode.rs:5-12 | a value, when there is one, is below 16 and the byte is its hex digit |
| UrlDecode.HexToByte | src/http/url_decode.rs:14-23 | `None` exactly when either byte is not a hex digit; otherwise the byte whose high and low nibbles are the two digits' values |
| UrlDecode.HexDecodeDigitTable | src/http/url_decode.rs:5-12 | `HexDecodeDigit(c)` is `Some(v)` exactly when `c` is the digit of `v` in `0`-`9`, `a`-`f` or `A`-`F`, and `None` for every other byte |
| UrlDecode.HexToByteTable | src/http/url_decode.rs:14-23 | `HexToByte(hi, lo)` is `Some(b)` exactly when both bytes are hex digits with `b == 16·hi + lo`, and `None` when either is not a digit |
| UrlDecode.DecodedWithoutEscape | src/http/url_decode.rs:54-76 | on input with no `%` followed by two hex digits, decoding only turns every `+` into a space |
| UrlDecode.DecodedIdentity | src/http/url_decode.rs:205-210 | input without `%` and `+` decodes to itself |
| UrlDecode.DecodedLength | src/http/url_decode.rs:78-91 | the decoding is as long as the input without an escape and at least two bytes shorter with one, so it never outgrows the input |
| UrlDecode.UrlDecodeWithOffsetFlag | src/http/url_decode.rs:44-92 | the in-place pass returns `a[start..end]`: empty input is returned as is, `start` is the slice start plus one with the offset flag, the written bytes are the decoding of the original slice (cut to the room left after the offset), and no byte outside them changes |
| UrlDecode.Decode | src/http/url_decode.rs:39-41 | `url_decode` leaves exactly the decoding of the old slice at its start and changes nothing else, so decoding in place equals decoding a copy |
| UrlDecode.DecodeAndMove1 | src/http/url_decode.rs:25-37 | `url_decode_and_move_1` never writes the first byte; with a valid escape it returns the full decoding from the second byte, without one the `+`-to-space text minus its last byte |
| UrlDecode.ContainsPercentValues | src/http/url_decode.rs:94-118 | the loop answers true exactly when some `%` is immediately followed by two hex digits |
| UrlDecode.DecodedEncoded | src/http/url_decode.rs:54-90 | writing every byte as `%XX` and decoding gives the bytes back |
| UrlDecode.DecodeExamplePercentPercent | src/http/url_decode.rs:197-202 | `%%31` decodes to `%1`: the first `%` is copied and decoding resumes at the next byte |
| UrlDecode.DecodeExampleEscapes | src/http/url_decode.rs:213-231 | `%20h` decodes to ` h`; `h%5`, a `%` without two digits at the end, stays unchanged |
| UrlParamsDecode.ValidateComponent | src/http/url_params/decode.rs:47-57 | a decoded component is accepted exactly when it has no NUL and is UTF-8; a NUL gives `UrlEncodedNul`, otherwise bad UTF-8 gives `InvalidEncoding` |
| UrlParamsDecode.MarkComponent | src/http/url_params/decode.rs:22-45 | marking fails only with `UrlEncodedNul` or `InvalidEncoding`, and a marked component keeps its length |
| UrlParamsDecode.MarkComponentSpec | src/http/url_params/decode.rs:22-45 | marking fails exactly when the decoding holds a NUL or is not UTF-8; on success it keeps the length, a component without escape becomes its `+`-to-space text, and one with an escape becomes NUL, the decoding, then NUL padding |
| UrlParamsDecode.MarkPair | src/http/url_params/decode.rs:14-17 | marking a `name=value` piece fails only with `UrlEncodedNul` or `InvalidEncoding`, and a marked piece keeps its length |
| UrlParamsDecode.MarkPairKeepsShape | src/http/url_params/decode.rs:11-20 | a marked pair keeps its length and its first `=` in place |
| UrlParamsDecode.MarkParamsKeepsShape | src/http/url_params/decode.rs:11-20 | a marked query string keeps its length and every `&` in place |
| UrlParamsDecode.MarkParams | src/http/url_params/decode.rs:11-20 | marking a query string fails only with `UrlEncodedNul` or `InvalidEncoding` |
| UrlParamsDecode.MarkParamsRefusesNul | src/http/url_params/decode.rs:86-92 | a single component holding a NUL byte is refused with `UrlEncodedNul` |
| UrlParamsDecode.NulSurvivesDecoding | src/http/url_params/decode.rs:47-57 | a NUL in the input is still in its decoding, so a literal NUL never slips past validation |
| UrlParamsDecode.DecodeAndMarkComponent | src/http/url_params/decode.rs:22-45 | the method leaves exactly the marked form of the old component in place, or returns its error, and touches nothing outside the component |
| UrlParamsDecode.DecodeAndMarkPair | src/http/url_params/decode.rs:14-17 | a piece is split at its first `=`; the name and (if present) the value are marked separately in place, and the first error is returned |
| UrlParamsDecode.DecodeAndMarkParams | src/http/url_params/decode.rs:11-20 | `decode_and_mark_params` marks every `&`-separated piece in place, stops at the first error and returns it, and leaves exactly `MarkParams` of the old query string |
| UrlParamsDecode.MarkNextPiece | src/http/url_params/decode.rs:12-17 | one iteration of the loop over the pieces keeps the state invariant and shrinks what remains, and at the end the whole result is known |
| UrlParamsParse.FindNextStart | src/http/url_params/parse_decoded.rs:53-68 | the bytes skipped are NUL padding, except that the last may be one `=` after a name or one `&` after a value |
| UrlParamsParse.ParsedComponent | src/http/url_params/parse_decoded.rs:15-51 | start, end and next start are in order within the buffer; the start is 1 exactly when the buffer begins with NUL; between end and next start lie only NUL padding and at most one closing `=` or `&` |
| UrlParamsParse.EndFrom | src/http/url_params/parse_decoded.rs:24-42 | the end found is the first index at or after the start where the component ends (NUL for a marked component; `&`, or `=` for a name, otherwise), or the length |
| UrlParamsParse.SkipNul | src/http/url_params/parse_decoded.rs:56-60 | skips exactly the leading run of NUL bytes |
| UrlParamsParse.ParsedMarkedComponent | src/http/url_params/parse_decoded.rs:24-33 | a component with a leading NUL starts at 1 and ends at the next NUL, with `&` and `=` inside it literal |
| UrlParamsParse.ParsedPlainComponent | src/http/url_params/parse_decoded.rs:34-40 | any other component starts at 0 and ends at the first `&`, or for a name at the first `&` or `=`, or at the end |
| UrlParamsParse.ParsedComponentGap | src/http/url_params/parse_decoded.rs:48-68 | between the end and the next start lie only the NUL padding and at most one `=` (name) or `&` (value) |
| UrlParamsParse.ParseDecodedComponent | src/http/url_params/parse_decoded.rs:15-51 | the scanning loop returns the same (start, end, next start) as the specification `ParsedComponent`, with `start <= end <= next <= len` |
| UrlParamsIterator.NextParam | src/http/url_params/iterator.rs:36-57 | `None` exactly on an empty remainder; otherwise a name/value and a count no larger than the remainder |
| UrlParamsIterator.NextParamAdvances | src/http/url_params/iterator.rs:41-54 | on a non-empty remainder at least one byte is consumed, so iteration ends |
| UrlParamsIterator.ParamsOf | src/http/url_params/iterator.rs:36-57 | the parameters read from a buffer are never more than its bytes |
| UrlParamsIterator.ComponentReadBack | src/http/url_params/parse_decoded.rs:15-51 | a component marked by the decoder reads back as its decoding, whatever follows it |
| UrlParamsIterator.PairReadBack | src/http/url_params/iterator.rs:36-57 | a marked pair reads back as its decoded name and value and consumes exactly its own bytes and its `&` |
| UrlParamsIterator.MarkedParamsReadBack | src/http/url_params/iterator.rs:13-57 | reading the parameters of a successfully marked query string gives exactly the decoded `&`-pieces, each split at its first `=` |
| UrlParamsIterator.UrlEncodedParams.Iter | src/http/url_params/iterator.rs:24-26 | `iter` starts a fresh iterator on the whole decoded buffer, so iterating twice gives the same parameters |
| UrlParamsIterator.UrlEncodedParamsIterator.constructor | src/http/url_params/iterator.rs:25-31 | an iterator's remainder starts as the whole marked buffer it is given |
| UrlParamsIterator.DecodeAndCreate | src/http/url_params/iterator.rs:13-22 | fails exactly when marking fails, with the same error; on success the buffer holds the marked query string, the parameters are its decoded pieces, and nothing outside the slice changes |
| UrlParamsIterator.UrlEncodedParamsIterator.Next | src/http/url_params/iterator.rs:36-57 | `None` exactly when the remainder is empty; otherwise the next parameter, with the remainder dropping the bytes it consumed, so the parameters still to come are the rest of `ParamsOf` |
| UrlParamsExamples.PlainComponent | src/http/url_params/decode.rs:64-69 | an ASCII component without escape is marked as its `+`-to-space text |
| UrlParamsExamples.EscapedComponent | src/http/url_params/decode.rs:70-76 | a component with an escape becomes NUL, its decoding and NUL padding to its length |
| UrlParamsExamples.MarkPairExample | src/http/url_params/decode.rs:70-76 | `+=%3d` is marked as ` =\0=\0` |
| UrlParamsExamples.TwoPairs | src/http/url_params/decode.rs:78-84 | two pairs joined by `&` are marked each on its own, with the `&` kept |
| UrlParamsExamples.MarkParamsExample | src/http/url_params/decode.rs:78-84 | `+=%3d&+=%3d` is marked as ` =\0=\0& =\0=\0` |
| UrlParamsExamples.NulParamsExample | src/http/url_params/iterator.rs:153-163 | a literal NUL in the query string is refused with `UrlEncodedNul` |
| UrlParamsExamples.EscapedNulParamsExample | src/http/url_params/iterator.rs:153-163 | `%00` is refused with `UrlEncodedNul` |
| UrlParamsExamples.TwoPairsDecoded | src/http/url_params/iterator.rs:85-101 | two `&`-joined pairs give two parameters in order |
| UrlParamsExamples.ReadBackExample | src/http/url_params/iterator.rs:116-132 | reading `+=%3d&+=%3d` back after marking yields two parameters (` `, `=`), the `=` in each value kept as text |
| HttpStr.IsWhitespace | src/http/str.rs:5-7 | every whitespace byte is ASCII, so trimming it off never cuts into a UTF-8 character |
| HttpStr.Trim | src/http/str.rs:23-25 | never longer than the input; all of it when every byte matches the predicate; otherwise a non-empty slice that starts and ends with a byte that does not match |
| HttpStr.PositionNot | src/http/str.rs:9-14 | the first index whose byte fails the predicate (everything before it satisfies it), or `None` when every byte satisfies it |
| HttpStr.RPositionNot | src/http/str.rs:16-21 | the last index whose byte fails the predicate (everything after it satisfies it), or `None` when every byte satisfies it |
| HttpStr.TrimLeft | src/http/str.rs:9-14 | drops the longest prefix satisfying the predicate, but returns the input unchanged when every byte satisfies it |
| HttpStr.TrimRight | src/http/str.rs:16-21 | drops the longest suffix satisfying the predicate, likewise unchanged when every byte satisfies it |
| HttpStr.TrimIsContiguous | src/http/str.rs:23-25 | `trim` returns one contiguous sub-slice `s[a..b]`; all of it when every byte matches, otherwise from the first to the last non-matching byte |
| HttpStr.TrimSpan | src/http/str.rs:23-25 | the bounds of the trimmed sub-slice within the input |
| HttpStr.TrimKeepsMiddle | src/http/str.rs:23-25 | trimming `pre + mid + post` gives `mid` when `pre` and `post` match the predicate and `mid` starts and ends with a byte that does not |
| HttpStr.TrimKeepsUtf8 | src/http/str.rs:23-25 | trimming ASCII bytes off valid UTF-8 leaves valid UTF-8 |
| HttpStr.TrimExample | src/http/str.rs:58-61 | `" \t hello \t "` trims to `"hello"` |
| HttpStr.SliceToStr | src/http/str.rs:27-29 | `Ok` with the same bytes exactly when they are UTF-8 (RFC 3629), otherwise `InvalidEncoding` |
| HttpStr.TrySplitTwo | src/http/str.rs:31-40 | with a match, the bytes before the first one and the index just after its first byte (one byte skipped); with none, the whole input and `None` |
| Split.PiecesRejoin | src/split.rs:59-76 | joining the pieces with the pattern gives back the input, or the input minus one trailing pattern (a trailing delimiter yields no empty piece) |
| Split.PiecesStep | src/split.rs:64-75 | with a match, the first piece is the text before it and the rest are the pieces after the pattern; with none, one piece for a non-empty remainder and none for an empty one |
| Split.PiecesHaveNoPattern | src/split.rs:59-76 | no piece contains the pattern |
| Split.PiecesExample | src/split.rs:85-97 | `"hi ho ha"` split on a space gives `"hi"`, `"ho"`, `"ha"` |
| Split.SplitMutIterator.constructor | src/split.rs:45-52 | `buffer_split_mut` starts with the whole slice, so the pieces to come are those of the input |
| Split.SplitMutIterator.Next | src/split.rs:59-76 | `next` returns `None` exactly when no piece is left and then stays `None`; otherwise the next piece, a pattern-free sub-slice starting where the last one left off, with the remainder resuming right after the pattern |
| Split.StrSplitMut.constructor | src/str.rs:6-11 | `str_split_mut` starts with the whole text |
| Split.StrSplitMut.Next | src/str.rs:16-32 | the same contract for the text splitter: ordered, disjoint, pattern-free pieces, then `None` for good |
| HeaderBodySplitter.SplitFrom | src/http/header_body_splitter.rs:18-27 | the headers' length is where the first CR LF CR LF at or after the search start begins; `None` when there is none there |
| HeaderBodySplitter.IncrementalSearch | src/http/header_body_splitter.rs:14 | when the previous buffer had no CR LF CR LF and the current one extends it, searching from three bytes before the old end finds the first CR LF CR LF of the whole buffer, even one split across reads |
| HeaderBodySplitter.SearchSuffix | src/http/header_body_splitter.rs:18-21 | searching the sub-slice from the offset finds the same match as `SplitFrom` |
| HeaderBodySplitter.HeaderBodySplitter.constructor | src/http/header_body_splitter.rs:8-10 | a new splitter has `find_offset` 1, so its first search starts at index 0 |
| HeaderBodySplitter.HeaderBodySplitter.TrySplit | src/http/header_body_splitter.rs:12-28 | `find_offset` becomes the buffer length on every call; the result is the split found from `max(previous length + 1, 4) - 4`, with headers and four-byte separator inside the buffer; a buffer shorter than the offset gives `None` |
| Headers.NonEmpty | src/headers.rs:14 | the empty-word filter of the word iterator: keeps only non-empty pieces, in order |
| Headers.WordsAreSpaceFree | src/headers.rs:14 | every word of a line is non-empty and holds no space |
| Headers.WordsAfter | src/headers.rs:14 | the words of `w + " " + rest` are `w` (if non-empty) followed by the words of `rest`, so runs of spaces are skipped |
| Headers.NextStrWord | src/headers.rs:14-17 | one `words.next()` of the filtered iterator: `None` exactly when no non-empty word is left, otherwise the first word still to come |
| Headers.FirstWords | src/headers.rs:14-19 | the three `next()` calls give three spans in order exactly when the line has at least three words, and they hold the first three words |
| Headers.ParseRequestLine | src/headers.rs:13-31 | accepted exactly when the line has three words and the third has a fifth byte at a character boundary; then the method is ASCII-uppercased in place, the URI is the second word, the version is the third word from byte 5 (no `HTTP/` check), and nothing else changes; otherwise `InvalidRequestLine` with the line unchanged |
| Headers.StrTrim | src/headers.rs:47-49 | never longer than the input; empty exactly when the input is all whitespace; otherwise it starts and ends with a byte that is not whitespace |
| Headers.TrimBounds | src/headers.rs:47-49 | the bounds of `str::trim`: only whitespace before and after them, and non-whitespace at both ends of what is kept |
| Headers.StrTrimKeepsMiddle | src/headers.rs:47-49 | trimming `pre + mid + post` gives `mid` when `pre`/`post` are whitespace and `mid` does not start or end with it |
| Headers.TitleCasedFrom | src/headers.rs:42-46 | Title-Casing keeps the length, uppercases the first byte and each byte after a `-`, and lowercases every other byte |
| Headers.TitleCasedWord | src/headers.rs:44-45 | a single word becomes its first byte uppercased followed by the rest lowercased |
| Headers.TitleCasedWords | src/headers.rs:43-46 | Title-Casing works word by word across `-` |
| Headers.TitleCasedIdempotent | src/headers.rs:42-46 | Title-Casing keeps every `-` in place and doing it twice changes nothing more |
| Headers.TitleCaseStrWords | src/headers.rs:42-46 | the in-place loop over the `-`-separated words leaves the Title-Cased name and changes nothing after it |
| Headers.TitleNextWord | src/headers.rs:43-46 | one iteration of that loop keeps the loop invariant and moves to the next word |
| Headers.ParseHeader | src/headers.rs:39-56 | `InvalidHeader`, with the line unchanged, exactly when it has no `:`; otherwise the name before the first `:` is Title-Cased in place and trimmed, and the value is everything after that `:` (further `:` included), trimmed |
| Headers.TrimParts | src/headers.rs:47-49 | the name and the value after the `:` are the trimmed parts, as spans of the line |
| Headers.Splitter.constructor | src/headers.rs:67-69 | the first `update` searches from index 0 |
| Headers.Splitter.Update | src/headers.rs:71-87 | the same search as `try_split`: `find_offset` becomes the buffer length, and on a match the headers are the bytes before the CR LF CR LF and the body everything after it |
| HeadersExamples.ThreeWords | src/headers.rs:92-99 | three words separated by runs of spaces are exactly those three words |
| HeadersExamples.RequestLineExample | src/headers.rs:92-99 | `GET  /foo   HTTP/1.1` is accepted, with words `GET`, `/foo`, `HTTP/1.1` and version `1.1` |
| HeadersExamples.LowercaseMethodExample | src/headers.rs:100-107 | `get /foo HTTP/1.1` is accepted and its method uppercases to `GET` |
| HeadersExamples.AcceptLineExample | src/headers.rs:108-114 | the `:` of `aCCEPT : text/plain` is found at index 7 and the name is safe to Title-Case |
| HeadersExamples.AcceptNameExample | src/headers.rs:108-114 | the name `aCCEPT ` becomes `Accept` |
| HeadersExamples.TextPlainValueExample | src/headers.rs:108-114 | the value ` text/plain` trims to `text/plain` |
| HeadersExamples.ContentTypeExample | src/headers.rs:115-122 | `CONTENT-type` Title-Cases to `Content-Type` |
| HttpRequestLine.SplitQuery | src/http/headers/request_line.rs:34-44 | a URI with a `?` is the part before its first `?`, the `?`, and the rest; without one the whole URI is the path and the query string is empty |
| HttpRequestLine.ParseLine | src/http/headers/request_line.rs:24-57 | a parsed line has a UTF-8 method, URI and version; a failure is `InvalidRequestLine`, `InvalidEncoding` or `UrlEncodedNul` |
| HttpRequestLine.ParseWords | src/http/headers/request_line.rs:31-52 | on success the method is the first word uppercased and the version the third word from byte 5, all three UTF-8; a failure is `InvalidEncoding` or `UrlEncodedNul` |
| HttpRequestLine.ParseLineRejects | src/http/headers/request_line.rs:25-55 | `InvalidRequestLine` exactly for fewer than three non-empty words or a third word shorter than five bytes; every later failure is an encoding error |
| HttpRequestLine.ParseLineAccepts | src/http/headers/request_line.rs:30-52 | on success the method is the first word uppercased, the version the third word from byte 5, and the URI is split at its first raw `?` before decoding: the path is the decoding of the part before it and the parameters are the decoded pairs of the part after it (`[]` without `?`), all UTF-8 |
| HttpRequestLine.NextWord | src/http/headers/request_line.rs:25-28 | one `next()` of the filtered byte-word iterator yields the first non-empty word still to come, or `None` when there is none |
| HttpRequestLine.FirstWords | src/http/headers/request_line.rs:25-30 | the three calls give three ordered spans exactly when the line has three words, holding those words |
| HttpRequestLine.DecodePath | src/http/headers/request_line.rs:34-44 | splits the URI span at its first `?` and decodes the path part in place; the query string is the raw part after the `?`, and nothing outside the URI changes |
| HttpRequestLine.ParseRequestLine | src/http/headers/request_line.rs:24-57 | fails exactly when `ParseLine` of the old line fails, with the same error and, for `InvalidRequestLine`, the line unchanged; on success the spans hold the uppercased method, decoded path, marked query string and version that `ParseLine` describes |
| HttpRequestLine.ParseThreeWords | src/http/headers/request_line.rs:31-52 | once the three words are found, the outcome is `ParseWords` of them, and no error is `InvalidRequestLine` |
| HttpRequestLine.UppercaseAndSplit | src/http/headers/request_line.rs:32-44 | uppercases the method in place, decodes the path and leaves the query string and version bytes as they were |
| HttpRequestLine.ParseParts | src/http/headers/request_line.rs:45-52 | checks the path, the method, the query string and the version in the source's order, returning the first error |
| HttpRequestLineExamples.PlainWords | src/http/headers/request_line.rs:30-52 | ASCII words with a URI without `%`, `+` or `?` parse to the uppercased method, the URI as is, no parameters and the version after byte 5 |
| HttpRequestLineExamples.RequestLineExample | src/http/headers/request_line.rs:62-70 | `GET  /foo   HTTP/1.1` parses to `GET`, `/foo`, `1.1` |
| HttpRequestLineExamples.LowercaseMethodExample | src/http/headers/request_line.rs:71-79 | `get /foo HTTP/1.1` parses with method `GET` |
| HttpRequestLineExamples.EscapedQueryExample | src/http/headers/request_line.rs:80-89 | `GET /foo%3F?%3Fbar HTTP/1.1` gives URI `/foo?` and the single parameter `?bar` |
| RawHeaders.TitleCaseWords | src/http/headers/raw_header.rs:16-20 | the in-place name loop leaves the name Title-Cased (first byte of each `-`-separated word upper, the rest lower) and nothing after it changed |
| RawHeaders.TitleNextWord | src/http/headers/raw_header.rs:17-20 | one iteration of the word loop keeps the loop invariant and moves on |
| RawHeaders.ParseRawHeader | src/http/headers/raw_header.rs:13-31 | `InvalidHeader` with the line unchanged exactly when there is no `:`; otherwise the name before the first `:` is Title-Cased in place, `InvalidEncoding` exactly when the trimmed name is not UTF-8, else the trimmed name and the value after that `:` trimmed of spaces and tabs (further `:` kept) |
| RawHeaders.LeadingHyphenPanics | src/http/headers/raw_header.rs:17-18 | the line `-X: y` has a `:` and a name whose first `-`-separated word is empty, so the as-written loop reaches `name_word[0..1]` on an empty word |
| RawHeaders.ParseRawHeaderCorrected | src/http/headers/raw_header.rs:13-31 | the same outcome for every line, the name loop passing over empty words instead of slicing them |
| RawHeaders.TrimmedBounds | src/http/headers/raw_header.rs:21-24 | the bounds of `trim(.., is_whitespace)` of a sub-slice, within that sub-slice |
| HttpHeaders.ParseU64 | src/http/headers/header.rs:17-19 | `str::parse::<u64>`: `Ok` only for a value within `u64`, any failure is `InvalidHeader` |
| HttpHeaders.DecimalValue | src/http/headers/header.rs:17-19 | the decimal digits written for `n` have the value `n` |
| HttpHeaders.ParseDecimal | src/http/headers/header.rs:17-19 | the decimal text of `n`, with or without a leading `+`, parses to `n` when it fits in `u64`, and is `InvalidHeader` when it does not |
| HttpHeaders.LeadingZero | src/http/headers/header.rs:17-19 | a leading `0` does not change the value |
| HttpHeaders.SignsRefused | src/http/headers/header.rs:17-19 | a leading `-`, or a lone `+`, is refused |
| HttpHeaders.KnownNamesDistinct | src/http/headers/header.rs:23-30 | the seven known names are distinct, so each line dispatches to one branch |
| HttpHeaders.FromRaw | src/http/headers/header.rs:22-34 | any name other than the seven known ones (compared case-sensitively) gives `Other` with the raw name and value unchanged, and a successful parse is `Other` only for such a name |
| HttpHeaders.TextHeaders | src/http/headers/header.rs:24-29 | Host, Authorization, Referer, Content-Type and Range succeed exactly on a UTF-8 value, carrying it, and fail with `InvalidEncoding` otherwise |
| HttpHeaders.ContentLengthHeader | src/http/headers/header.rs:17-28 | Content-Length succeeds exactly on a UTF-8 value that parses as `u64`; bad UTF-8 is `InvalidEncoding`, a bad number `InvalidHeader` |
| HttpHeaders.IfNoneMatchHeader | src/http/headers/header.rs:30 | If-None-Match succeeds exactly when `ETagMatch::parse` does, carrying its result, and always on UTF-8 input |
| HttpHeaders.FromRawErrors | src/http/headers/header.rs:22-34 | `from_raw` fails only with `InvalidEncoding`, or with `InvalidHeader` for Content-Length; no partial header is produced |
| ETagMatches.ParseETagMatch | src/http/headers/etag_match.rs:10-18 | the value trimmed of spaces/tabs and then of `"` gives `Any` exactly when it is `*`, an error (`InvalidEncoding`) exactly when it is not UTF-8, and otherwise `ETag` of the trimmed text |
| ETagMatches.Utf8NeverFails | src/http/headers/etag_match.rs:10-18 | parsing never fails on UTF-8 input |
| ETagMatches.UnquotedOf | src/http/headers/etag_match.rs:11-12 | whitespace outside and quotes around a tag are stripped, leaving the tag |
| ETagMatches.StarExample | src/http/headers/etag_match.rs:13-14 | `*` is `Any` |
| ETagMatches.QuotedStarExample | src/http/headers/etag_match.rs:13-14 | `"*"` is also `Any` |
| ETagMatches.PaddedStarExample | src/http/headers/etag_match.rs:11-14 | ` "*"\t` is `Any` |
| ETagMatches.WeakTagExample | src/http/headers/etag_match.rs:15-17 | `W/"abc"` loses only its trailing quote and is kept as an `ETag` |
| HttpRequests.IgnoredHeaders | src/http/request.rs:32-33 | Range, If-None-Match and Other headers change no field |
| HttpRequests.SameKindOverwrites | src/http/request.rs:27-31 | a later header of the same kind overwrites the earlier value |
| HttpRequests.DifferentKindsCommute | src/http/request.rs:25-34 | headers of different kinds set independent fields |
| HttpRequests.CommonHeaders.constructor | src/http/request.rs:15-23 | `CommonHeaders::new` has every field `None` |
| HttpRequests.CommonHeaders.SetHeader | src/http/request.rs:25-34 | `set_header` writes only the field of the header's kind |
| HttpRequests.LastOfKind | src/http/request.rs:47-56 | the index of the last header of a kind, or -1 when there is none |
| HttpRequests.LastWins | src/http/request.rs:25-56 | after a sequence of headers, each field holds the value of the last header of its kind, or `None` |
| HttpRequests.HeaderLinesMeaning | src/http/request.rs:51-55 | the header lines give headers exactly when every line parses, one per line in order; otherwise the error of the first failing line |
| HttpRequests.FirstHeaderError | src/http/request.rs:52-53 | the first header line that fails decides the error |
| HttpRequests.RequestOfMeaning | src/http/request.rs:43-67 | parsing succeeds exactly when there is a first line, it is a request line, and every later line is a header; the request holds that line and the fields set by the headers in order; otherwise the error is `InvalidRequestLine` for no line, else the request line's error, else the first bad header's |
| HttpRequests.ParsedRequest | src/http/request.rs:43-67 | a parsed request has a first CRLF line, which parses as its request line, with a UTF-8 method, URI and version |
| HttpRequests.ParsedRequestMeaning | src/http/request.rs:43-67 | the same for the CRLF-separated lines of a header block; an empty block is `InvalidRequestLine` |
| HttpRequests.ParseRequest | src/http/request.rs:43-67 | the loop over the CRLF pieces returns exactly `ParsedRequest` of the block |
| HttpRequests.ParseLines | src/http/request.rs:47-56 | the loop over the lines still to come returns `RequestOf` of all of them |
| HttpRequests.ParseNextLine | src/http/request.rs:48-55 | one line: the first is parsed as the request line, every later one as a raw header, `from_raw` and `set_header`; an error ends the parse with that error |
| MimeTypes.FromPath | src/http/mime_type.rs:1-17 | a type other than `application/octet-stream` comes from a file name whose extension is in the table |
| MimeTypes.FileName | src/http/mime_type.rs:20-24 | without a `/` the default name; any other answer is the non-empty text after the last `/` |
| MimeTypes.ExtensionFromPath | src/http/mime_type.rs:19-32 | no extension exactly when there is no file name or it holds no `.`; an extension holds no `.` |
| MimeTypes.Extension | src/http/mime_type.rs:26-30 | `None` exactly when the name has no `.`; otherwise the text after its last `.` |
| MimeTypes.TypeOf | src/http/mime_type.rs:2-15 | `application/octet-stream` exactly for no extension or one outside the table |
| MimeTypes.CaseSensitive | src/http/mime_type.rs:2-15 | `JPG` is not in the table, so it maps to the default |
| MimeTypes.FileNameOf | src/http/mime_type.rs:20-24 | the file name is the text after the last `/` when it is non-empty, else the default name, which is also used when there is no `/` |
| MimeTypes.DirectoryDotsIgnored | src/http/mime_type.rs:19-31 | the extension comes from the file name only, so dots in directory names do not count |
| MimeTypes.ExtensionOf | src/http/mime_type.rs:26-30 | `stem.ext` has extension `ext` |
| MimeTypes.JpegExamples | src/http/mime_type.rs:42-43 | `/foo.jpg` and `/dir.lala/foo.jpg` are `image/jpeg` |
| MimeTypes.DefaultNameExamples | src/http/mime_type.rs:44-45 | `/` with `index.html` is `text/html`; `/foo` with `index.html` is the default |
| MimeTypes.UnknownExample | src/http/mime_type.rs:46 | `/foo.bar` is the default |
| Base64.Decoded | src/encoding/base64.rs:1-44 | a result needs a non-empty input of whole groups of alphabet characters, and is a prefix of its decoded groups |
| Base64.Sextet | src/encoding/base64.rs:9-20 | the 6-bit value of `A`-`Z`, `a`-`z`, `0`-`9`, `+`, `/`, 0 for `=`, and `None` for every other byte |
| Base64.GroupBytes | src/encoding/base64.rs:21-26 | a group of four characters yields three bytes |
| Base64.Groups | src/encoding/base64.rs:7-32 | the decoded groups of the whole input are three bytes per four characters |
| Base64.ValidPrefix | src/encoding/base64.rs:19-20 | the length of the longest prefix of alphabet characters, where the `?` stops the loop |
| Base64.FirstPad | src/encoding/base64.rs:16-33 | the index of the first `=`, or the length |
| Base64.WriterOf | src/encoding/base64.rs:27-30 | the character at `i`, unless first in its group, writes the byte at `i - i/4 - 1`, which lies behind it |
| Base64.WriterAhead | src/encoding/base64.rs:27-30 | every output byte is written by a character after it, so the in-place write never overtakes the read position |
| Base64.Decode | src/encoding/base64.rs:1-44 | `None` exactly when the specification `Decoded` is `None`; otherwise a length whose prefix of the buffer is the decoded bytes |
| Base64.DecodeStep | src/encoding/base64.rs:8-31 | one loop iteration: stops at a character outside the alphabet with the buffer unchanged, or writes its output byte and records the first padding index |
| Base64.DecodedGroups | src/encoding/base64.rs:33-43 | the result is the first `3·(p/4) + max(p%4 - 1, 0)` bytes of the decoded groups, `p` the first `=` |
| Base64.Encode | src/encoding/base64.rs:21-43 | an encoder written as the partner of the decoder: four characters per three bytes, padded with `=` |
| Base64.DecodeEncode | src/encoding/base64.rs:1-44 | decoding the encoding of any bytes gives them back |
| Base64.LengthsRefused | src/encoding/base64.rs:2-4 | empty input, and any length not a multiple of 4, give `None` (the cases of the tests at lines 59-67) |
| Base64.ThreePadsRefused | src/encoding/base64.rs:34-36 | `a===` gives `None` (the case of the test at lines 69-74) |
| Base64.InvalidCharRefused | src/encoding/base64.rs:19-20 | a character outside the alphabet gives `None` |
| Base64.ShortExamples | src/encoding/base64.rs:76-85 | `YQ==`, `YWI=`, `YWJj` decode to `a`, `ab`, `abc` |
| Base64.MediumExamples | src/encoding/base64.rs:87-96 | `YWJjZA==`, `YWJjZGU=`, `YWJjZGVm` decode to `abcd`, `abcde`, `abcdef` |
| HttpResponses.BufferResponse.Contents | src/http/response.rs:13-17 | the written part is `write_offset` bytes long |
| HttpResponses.BufferResponse.constructor | src/http/response.rs:21-26 | a new response has a fresh 4096-byte buffer and nothing written |
| HttpResponses.BufferResponse.AsSlice | src/http/response.rs:13-17 | `as_slice` is exactly `buffer[0..write_offset]` |
| HttpResponses.BufferResponse.Append | src/http/response.rs:29-32 | a `write!` that fits appends the text at `write_offset`, advances it by the text's length, and leaves the bytes before and after unchanged |
| HttpResponses.BufferResponse.WriteHead | src/http/response.rs:28-33 | appends `HTTP/1.1 <status> <description>` |
| HttpResponses.BufferResponse.WriteHeader | src/http/response.rs:35-40 | appends `\r\n<name>:<value>` |
| HttpResponses.BufferResponse.WriteBodyStr | src/http/response.rs:42-46 | appends `\r\n\r\n<body>` |
| HttpResponses.HeaderLinesFollowed | src/http/response.rs:35-40 | the header lines written from CR-free names and values have every CR followed by LF and never form CR LF CR LF |
| HttpResponses.ResponseSplits | src/http/response.rs:28-46 | a response written by `write_head`, `write_header`s and `write_body_str` with no CR in its texts reads back through the header/body splitter as exactly its head and its body |
| HttpResponses.StatusLineExample | src/http/response.rs:28-33 | the status line of 200 `OK` is `HTTP/1.1 200 OK` |
| OldHttpResponses.ResponseBuffer.Contents | src/old/http/response.rs:27-29 | the written part is `write_offset` bytes long |
| OldHttpResponses.ResponseBuffer.Len | src/old/http/response.rs:21-23 | `len` is the remaining capacity `4096 - write_offset`, not the used length |
| OldHttpResponses.ResponseBuffer.constructor | src/old/http/response.rs:14-19 | a new buffer is empty with the whole 4096 bytes free |
| OldHttpResponses.ResponseBuffer.AsSlice | src/old/http/response.rs:27-29 | `as_slice` is `buffer[0..write_offset]` |
| OldHttpResponses.ResponseBuffer.Write | src/old/http/response.rs:33-39 | copies `min(src length, 4096 - write_offset)` bytes at `write_offset` and advances by that count, leaving the rest of the buffer unchanged |
| OldHttpResponses.ResponseBuffer.WriteAll | src/old/http/response.rs:32-39 | `write_all` over that `write`: succeeds exactly when the text fits, and in any case appends as much of it as fits |
| OldHttpResponses.ResponseBuffer.WriteText | src/old/http/response.rs:50-81 | a `write!(..).unwrap()` that fits appends the whole text |
| OldHttpResponses.BufferResponse.constructor | src/old/http/response.rs:50-60 | `new` writes `HTTP/1.1 <status> <description>` into a fresh buffer |
| OldHttpResponses.BufferResponse.SetHeader | src/old/http/response.rs:74-76 | appends `\r\n<name>:<value>` |
| OldHttpResponses.BufferResponse.IntoBody | src/old/http/response.rs:78-82 | appends `\r\n\r\n` and starts a body with nothing written after it |
| OldHttpResponses.OkResponse | src/old/http/response.rs:62-64 | `ok` is the status line `200 OK` |
| OldHttpResponses.BadRequest | src/old/http/response.rs:66-68 | `bad_request` is `400 Bad request` |
| OldHttpResponses.InternalServerError | src/old/http/response.rs:70-72 | `internal_server_error` is `500 Internal server error` |
| OldHttpResponses.Body.constructor | src/old/http/response.rs:90-93 | records the buffer's length before the body |
| OldHttpResponses.Body.Write | src/old/http/response.rs:102-104 | body writes go to the buffer, as much as fits, in order |
| OldHttpResponses.Body.Finish | src/old/http/response.rs:95-99 | `finish` computes the body's length as exactly the bytes written after `into_body`, and the finished buffer holds the head followed by them |
| OldHttpResponses.FinishedBufferResponse.constructor | src/old/http/response.rs:116-119 | the finished response keeps the buffer as written |
| OldHttpResponses.FinishedBufferResponse.AsSlice | src/old/http/response.rs:122-124 | `as_slice` is the whole written response |
| Buffers.Kept | src/buffer/buffer.rs:28-49 | when `keep` accepts a range, the bytes it keeps are `to` plus the length of the clamped range |
| Buffers.Buffer.Contents | src/buffer/buffer.rs:61-63 | the used part is `used_len` bytes long |
| Buffers.Buffer.constructor | src/buffer/buffer.rs:19-21 | a buffer made from a slice has nothing used |
| Buffers.Buffer.Remaining | src/buffer/buffer.rs:23-25 | remaining and used bytes add up to the slice's length |
| Buffers.Buffer.Len | src/buffer/buffer.rs:57-59 | `len` is the length of the used part |
| Buffers.Buffer.AsSlice | src/buffer/buffer.rs:61-63 | `as_slice` is exactly the used bytes |
| Buffers.Buffer.Write | src/buffer/buffer.rs:83-99 | when nothing fits (or `src` is empty) it fails with `WriteZero` and changes nothing; otherwise it appends `min(remaining, src length)` bytes of `src`, reports that count and leaves the free tail as it was |
| Buffers.Buffer.Shrink | src/buffer/buffer.rs:51-55 | the used length becomes `min(used_len, new_size)` and the kept bytes are the old prefix |
| Buffers.Buffer.Keep | src/buffer/buffer.rs:28-49 | a refused move returns 0 and changes nothing; an accepted one leaves the bytes before `to` followed by the clamped range as the new contents and returns their length |
| Buffers.Buffer.WriteInto | src/buffer/buffer.rs:69-79 | a failed read changes nothing and passes the error on; a successful one appends exactly the bytes read and reports their count |
| Buffers.KeepRangeNormalised | src/buffer/buffer.rs:28-49 | a reversed range means the same as the ordered one, and bounds past `used_len` mean `used_len`; kept at 0, an ordered range within the used bytes becomes exactly the contents, so keeping `k..used_len` drops the first `k` bytes and keeping everything changes nothing |
| Buffers.KeepRefusal | src/buffer/buffer.rs:35-37 | `keep` refuses exactly when the kept bytes would end past the used length |
| Buffers.FirstFree | src/buffer.rs:122-129 | the slot picked is the first one not lent out, and there is none exactly when all are lent out |
| Buffers.BufferPool.constructor | src/buffer.rs:113-115 | ten 4096-byte slots, none lent out |
| Buffers.BufferPool.BorrowBuffer | src/buffer.rs:122-129 | fails with `Full` exactly when every slot is lent out, and then changes nothing; otherwise lends an empty buffer over the first free slot and marks that slot, and only it, as lent |
| Buffers.BufferPool.Release | src/buffer.rs:122-129 | dropping a borrowed buffer frees its slot and no other |
| Buffers.NeverLentTwice | src/buffer.rs:122-129 | a slot that is lent out is never picked again until it is released, and once released it is picked if every slot before it is taken |
| PageBuffers.PagesForSize | src/buffer/page_buffer.rs:68-74 | the pages are `min_size / page_size` rounded up, and at least one |
| PageBuffers.PagesForSizeIsCeiling | src/buffer/page_buffer.rs:68-74 | `pages_for_size` is the least positive number of pages whose size is at least `min_size` |
| PageBuffers.PageBuffer.Size | src/buffer/page_buffer.rs:64-66 | the size is a positive whole number of pages |
| PageBuffers.PageBuffer.constructor | src/buffer/page_buffer.rs:13-33 | the mapping has `pages_for_size` pages, so it holds at least `min_size` bytes |
| PageBuffers.PageBuffer.Resize | src/buffer/page_buffer.rs:35-54 | after `resize` the page count is `pages_for_size` of the new minimum, so the buffer holds at least that many bytes |
| PageBuffers.ResizeMayShrink | src/buffer/page_buffer.rs:68-74 | sizes map to pages as ceilings: a request for three pages gets 3, for one page or none 1, for one byte more than a page 2 |
| Tokens.CreateToken64 | src/io/token.rs:20-23 | on a 64-bit target the async token is the low 32 bits of the token |
| Tokens.SplitToken64 | src/io/token.rs:7-12 | on a 64-bit target the connection id and the async token recombine to the token |
| Tokens.CreateToken32 | src/io/token.rs:24-27 | on a 32-bit target the token fits in 32 bits and its low 22 bits are the async token |
| Tokens.SplitToken32 | src/io/token.rs:13-18 | on a 32-bit target the async token is the low 10 bits and, with the connection id above them, recombines to the token |
| Tokens.SplitToken32Corrected | src/io/token.rs:13-27 | the split that matches `create_token`: the low 22 bits and what lies above them, which recombine to the token |
| Tokens.SplitCreate64 | src/io/token.rs:8-23 | on a 64-bit target, splitting a created token gives back its connection id and async token |
| Tokens.CreateSplit64 | src/io/token.rs:8-23 | on a 64-bit target, every token is the creation of its own split |
| Tokens.CreateInjective64 | src/io/token.rs:21-23 | on a 64-bit target, different pairs never share a token |
| Tokens.SplitCreate32Differs | src/io/token.rs:13-27 | on a 32-bit target, token (5, 2) splits into (20480, 2) and token (5, 1024) into (20481, 0) |
| Tokens.SplitCreate32Corrected | src/io/token.rs:13-27 | shifting by 22 and masking 22 bits on split round-trips every pair whose connection id fits in 10 bits |
| Tokens.TokenExamples64 | src/io/token.rs:33-47 | the tests' pairs (5, 2) and (5, 1024) round-trip on a 64-bit target |
| SocketIo.WriteResult | src/io/handlers/buffer_io.rs:8 | a socket `write` never reports more bytes than it was offered |
| SocketIo.ReadResult | src/io/handlers/buffer_io.rs:32 | a socket `read` never delivers more bytes than the room it was given |
| SocketIo.Socket.constructor | src/io/handlers/buffer_io.rs:3 | a socket with its scripted write and read outcomes and nothing sent yet |
| SocketIo.Socket.Write | src/io/handlers/buffer_io.rs:8 | each `write` takes the next scripted outcome and delivers the accepted prefix of the bytes offered |
| SocketIo.Socket.Read | src/io/handlers/buffer_io.rs:32 | each `read` takes the next scripted arrival and leaves the writes alone |
| SocketIo.Send | src/io/handlers/buffer_io.rs:3-26 | the send loop writes at most the bytes it has, and it ends `Done` exactly when it wrote all of them |
| SocketIo.SendLoop | src/io/handlers/buffer_io.rs:7-23 | the loop ends as the send loop does, with the same count and the same outcomes used, and the socket has received exactly the first `written` bytes of the buffer, in order |
| SocketIo.SendAccepted | src/io/handlers/buffer_io.rs:9-12 | an accepted write of `k` bytes advances the loop by `k` bytes and one outcome |
| SocketIo.SendInterrupted | src/io/handlers/buffer_io.rs:15 | an interrupted write retries the same bytes with the next outcome |
| SocketIo.SendStopped | src/io/handlers/buffer_io.rs:16-19 | a would-block or any other error ends the loop with what was written so far |
| SocketIo.SendFinished | src/io/handlers/buffer_io.rs:7-25 | once nothing remains the loop ends `Done` |
| SocketIo.SendBuffer | src/io/handlers/send_buffer.rs:3-26 | `Consumed` exactly when every byte went out, `WouldBlock` exactly when the socket blocked, carrying the count written, which is less than the buffer; the socket received that prefix of the buffer |
| SocketIo.SendEmpty | src/io/handlers/send_buffer.rs:7 | an empty buffer is consumed without any `write` |
| SocketIo.FromCount | src/io/handlers/buffer_io.rs:53-63 | the report keeps the count; it is `Empty` exactly for a count of 0, `Complete` exactly for a positive count with nothing remaining, and `Partial` exactly for a positive count with something remaining |
| SocketIo.SendBufferReport | src/io/handlers/buffer_io.rs:3-26 | an error exactly when the loop hit an error other than interruption or would-block; otherwise a report carrying the count written, `Complete` exactly when a non-empty buffer went out whole |
| SocketIo.Receive | src/io/handlers/buffer_io.rs:28-42 | the receive loop never reads more than the buffer holds nor uses more outcomes than it has |
| SocketIo.ReceiveAccepted | src/io/handlers/buffer_io.rs:34 | a non-empty read is appended and the loop reads on into the room left |
| SocketIo.ReceiveInterrupted | src/io/handlers/buffer_io.rs:36 | an interrupted read is retried |
| SocketIo.ReceiveStopped | src/io/handlers/buffer_io.rs:33-38 | a read of nothing, a would-block or another error ends the loop with what was read so far |
| SocketIo.ReceiveLoop | src/io/handlers/buffer_io.rs:29-41 | the loop ends as the receive loop does; the bytes read fill the front of the buffer in order and the rest of it is untouched |
| SocketIo.CopyInto | src/io/handlers/buffer_io.rs:32 | reading into `buffer[bytes_read..]` keeps the bytes before and after the ones written |
| SocketIo.ReceiveBuffer | src/io/handlers/buffer_io.rs:28-42 | an error exactly when the loop hit one; otherwise a report carrying the count read; as the whole buffer length is passed as the remaining count, a non-empty buffer is never reported `Complete` |
| SocketIo.SendAfterInterruption | src/io/handlers/buffer_io.rs:15 | an interruption followed by a large write sends all 3 bytes using two outcomes |
| SocketIo.SendProgress | src/io/handlers/buffer_io.rs:7-12 | when every write accepts at least one byte, the loop sends everything |
| SocketIo.SendBlockedExample | src/io/handlers/buffer_io.rs:16-17 | two bytes accepted, then would-block: the loop stops blocked after 2 of 5 bytes |
| Handlers.BufferResponder.constructor | src/io/handlers/buffer.rs:11-13 | a responder over its buffer with nothing written |
| Handlers.BufferResponder.HandleEvent | src/io/handlers/buffer.rs:18-39 | an event of another source changes nothing and goes on; otherwise the socket receives a prefix of the unsent bytes, a send error finishes with the count of earlier calls, a send of everything left (when something was left) finishes with the buffer's whole length, and anything else goes on with the bytes sent counted |
| Handlers.BufferWriter.constructor | src/io/handlers/buffer/writer.rs:13-15 | a writer over its buffer and its own writer with nothing written |
| Handlers.BufferWriter.Writable | src/io/handlers/buffer/writer.rs:20-36 | the writer receives a prefix of the unsent bytes; would-block goes on with those bytes counted, a complete send finishes with every byte counted, an error finishes with the count unchanged |
| Handlers.FileResponder.constructor | src/io/handlers/file.rs:20-26 | a responder with both counters 0 and the socket taken as writable |
| Handlers.FileResponder.Start | src/io/handlers/file.rs:18-27 | the first read is queued; its error is returned as is, otherwise a responder with both counters 0 and the socket writable |
| Handlers.FileResponder.SendAndRequestData | src/io/handlers/file.rs:29-60 | without reader bytes only the reader changes; otherwise the socket receives a prefix of the bytes after `buffer_bytes_sent`; would-block counts them and marks the socket unwritable, an error finishes, a whole send sets the count to the buffer's length and queues the next read, finishing unless that read is queued (`Ok(false)`); a finish reports the total, which never grows |
| Handlers.FileResponder.HandleEvent | src/io/handlers/file.rs:67-81 | a writable event of the socket marks it writable; an event of the socket or the reader sends and requests data as above; any other event changes nothing and goes on |
| Handlers.FinishesWhileMoreToRead | src/io/handlers/file.rs:51-56 | after a whole send the responder finishes exactly when the read range has a further window, and goes on with the reader at its end after the last one |
| ResponseWriters.FollowingGoesForward | src/http/response_writer.rs:23-47 | every transition goes forward one sub-writer at a time: headers with a file body go on to the file, everything else ends, and the end is kept |
| ResponseWriters.ResponseWriter.constructor | src/http/response_writer.rs:17-21 | a new writer writes the headers, knowing which body follows, with only the socket registered |
| ResponseWriters.ResponseWriter.NextState | src/http/response_writer.rs:23-47 | moves to the following state; going to the file body registers the reader and starts the file writer, and ending deregisters the socket and the reader |
| ResponseWriters.ResponseWriter.HandleEvent | src/http/response_writer.rs:51-67 | nothing changes while the active sub-writer goes on; when it finishes the writer moves to the following state; the result is `Some(())` exactly when no state is left |
| QueryConnections.QueryConnection.constructor | src/query_connection.rs:16-18 | a new connection reads the request |
| QueryConnections.QueryConnection.HandleEvent | src/query_connection.rs:20-48 | only the active stage's forwarder is used; a request handler going on or ending keeps the stage, one producing a response handler moves to the response stage; the response stage is never left; a finished connection has not changed stage |
| QueryConnections.QueryConnection.Readable | src/query_connection.rs:53-58 | `readable` is `handle_event` with both handlers' `readable` on the same token |
| QueryConnections.QueryConnection.Writable | src/query_connection.rs:60-65 | `writable` is `handle_event` with both handlers' `writable` on the same token |
| Servers.InitializeConnections | src/server.rs:29-37 | a table of 100 slots, all empty |
| Servers.Server.constructor | src/server.rs:48-64 | a new server starts with every connection slot empty |
| Servers.Server.RegisterConnection | src/server.rs:106-130 | the connection goes into the lowest empty slot `i`, and only if registering its socket under token `create_token(i + 1, 0)` succeeds; with no empty slot or a failed registration the table is unchanged |
| Servers.Server.HandleEvent | src/server.rs:86-104 | the event goes to slot `conn_id - 1`; the slot is reported finished exactly when it holds a handler that finishes on the readable part or, failing that, on the writable part |
| Servers.Server.Dispatch | src/server.rs:71-81 | the listener's token registers an accepted connection in the first empty slot when registration succeeds; any other token clears exactly the slot whose handler finished and leaves every other slot as it was |
| Servers.FirstEmptySlot | src/server.rs:107-109 | `position(is_none)`: every slot before it is taken and the one at it is empty, or it is the table's length when none is |
| Servers.FirstEmptyIs | src/server.rs:107-109 | the first empty slot is the unique one with every earlier slot taken |
| Servers.RegisteredTokenAddressesSlot | src/server.rs:111-112 | the token a connection in slot `i` is registered under is never the listener's token 0 and splits back into connection id `i + 1`, which addresses slot `i` (as `handle_event` at lines 87-88 reads it) |
| Paths.Components | src/io/sources/file/linux/path.rs:144 | splitting on '/' gives at least one component, and none contains '/' |
| Paths.JoinComponents | src/io/sources/file/linux/path.rs:144 | joining the components with '/' gives back the path |
| Paths.DotComponents | src/io/sources/file/linux/path.rs:144-146 | some component is "." or ".." exactly when the path has a "." or ".." run bounded by '/' or its ends |
| Paths.IsSafeRelativePath | src/io/sources/file/linux/path.rs:128-148 | safe exactly when not empty, not starting with '/', free of NUL, and without a "." or ".." component |
| Paths.IsSafeFilename | src/io/sources/file/linux/path.rs:114-126 | a file name is safe exactly when it is a safe relative path without any '/' |
| Paths.NewRelativePath | src/io/sources/file/linux/path.rs:64-79 | accepted exactly when the file name (if any) and the path are both safe, keeping them as given; an unsafe file name is reported before the path is looked at |
| Paths.JoinedIsSafe | src/io/sources/file/linux/path.rs:82-95 | the path followed by the file name, as handed to `openat`, is itself a safe relative path, so it stays inside the directory |
| Paths.NoDotComponentAcross | src/io/sources/file/linux/path.rs:89-91 | no "." or ".." component appears in a safe path followed by a safe file name, whether in either part or across the join |
| Paths.UnsafePathExamples | src/io/sources/file/linux/path.rs:154-167 | "", ".", "..", "some/..", "some/./path", a NUL inside, and "/absolute" are refused |
| Paths.UnsafeFilenameExamples | src/io/sources/file/linux/path.rs:179-190 | "some/", "/some", ".", ".." and "" are refused as file names |
| Paths.SafePathExamples | src/io/sources/file/linux/path.rs:169-177 | "..path" and "..." are safe paths and safe file names (and the file-name test at lines 192-198) |
| Paths.SafeSubPathExample | src/io/sources/file/linux/path.rs:173 | "some/..path" is a safe path |
| Routing.RouteOf | src/app/router.rs:27-44 | "/download/" goes to the big file, otherwise a URL starting "/hello/" to hello-world, otherwise "/" to the default handler, and every other URL is not found; each case exactly |
| Routing.ReadHeaders | src/app/router.rs:27-44 | a URL with a route is delegated to that route's handler; any other gets a `text/plain` not-found response with the reason as body |
| Routing.RoutesExamples | src/app/router.rs:28-37 | one URL for each route, and "/download/x" not found |
| StaticDirectories.AfterFirstByte | src/app/dir.rs:19 | `get(1..)` gives the URL after its first byte, and nothing exactly when the URL is empty or byte 1 is inside a UTF-8 character |
| StaticDirectories.FilePath | src/app/dir.rs:18-36 | no name after the first byte opens the index file; a name ending in '/' opens the index file in that directory; any other name is opened as it is; every accepted path stays inside the served directory |
| DirectIo.BlockOffset | src/io/sources/file/linux/mod.rs:16-18 | the block holding a byte offset: that block starts at or before it and the next one after it |
| DirectIo.BlockCount | src/io/sources/file/linux/mod.rs:20-27 | the byte count divided by the block size, rounded up; 0 exactly for no bytes |
| DirectIo.BlockCountCovers | src/io/sources/file/linux/mod.rs:20-27 | the block count is the least number of blocks covering the bytes, 0 only for no bytes, and exactly their size when the bytes end on a block boundary |
| DirectIo.BlockCountOfBlocks | src/io/sources/file/linux/mod.rs:20-27 | the block count of a whole number of blocks is that number |
| DirectIo.BlockBeforeEnd | src/io/sources/file/linux/mod.rs:20-27 | block `k` is one of the counted blocks exactly when it starts before the offset |
| DirectIo.BlockAfterOffset | src/io/sources/file/linux/mod.rs:16-18 | block `k` is at or after the offset's block exactly when it ends after the offset |
| DirectIo.ToResult | src/io/sources/file/linux/mod.rs:29-36 | -1 becomes the last OS error, any other handle is kept |
| ReadRanges.FirstRange | src/io/sources/file/linux/readrange.rs:49-62 | nothing to read exactly for an empty range; otherwise the first window starts at the block holding the range's first byte, and it is a valid window when the buffer holds at least one block |
| ReadRanges.RangeBlockCount | src/io/sources/file/linux/readrange.rs:108-112 | an operation reads the buffer's capacity in blocks or the blocks left up to the one holding the range's end, whichever is fewer |
| ReadRanges.OperationRange | src/io/sources/file/linux/readrange.rs:77-81 | the operation is block aligned at both ends, no larger than the buffer, ends no later than the block holding the range's end, and starts before the range ends while blocks are left |
| ReadRanges.Clip | src/io/sources/file/linux/readrange.rs:85-89 | the buffer positions kept are exactly those of operation bytes that lie in the requested range |
| ReadRanges.BufferRange | src/io/sources/file/linux/readrange.rs:83-91 | `buffer_range` holds position `i` exactly when byte `i` of the operation lies in the requested range |
| ReadRanges.Next | src/io/sources/file/linux/readrange.rs:93-106 | no further window exactly when this operation reaches the range's end; otherwise the next window starts where this operation ends, with everything else kept, and moves strictly forward |
| ReadRanges.NextWindow | src/io/sources/file/linux/readrange.rs:98 | the window after an operation starts at its end and stays valid |
| ReadRanges.Delivered | src/io/sources/file/linux/readrange.rs:83-91 | each operation delivers a non-empty run of the requested bytes, from where it meets the range to where either ends |
| ReadRanges.ChunksTile | src/io/sources/file/linux/readrange.rs:93-112 | the runs the operations from a window on deliver follow each other without gap or overlap up to the end of the range |
| ReadRanges.RangeCovered | src/io/sources/file/linux/readrange.rs:49-112 | reading a non-empty range with a buffer of at least one block, the operations from `first_range` on deliver every byte of the range exactly once, in order |
| ReadRanges.NonAlignedBeginFirst | src/io/sources/file/linux/readrange.rs:128-132 | bytes 100 to 10000 in 4096-byte blocks two at a time: the first operation reads 0..8192 and keeps 100..8192 |
| ReadRanges.NonAlignedBeginNext | src/io/sources/file/linux/readrange.rs:133 | the second window starts at block 2 |
| ReadRanges.NonAlignedBeginSecond | src/io/sources/file/linux/readrange.rs:134-136 | the second operation reads 8192..12288, keeps its first 1808 bytes, and there is no third |
| FileSource.NormalizeRange | src/io/sources/file/linux/reader.rs:223-229 | no range means the whole file; a range is cut to the file with its start on the last byte at the latest, so a range already inside the file is kept as it is |
| FileSource.BufferBlockSize | src/io/sources/file/linux/reader.rs:231-236 | the buffer has no blocks exactly when the hint is 0 or the range is empty |
| FileSource.BufferBlockSizeFits | src/io/sources/file/linux/reader.rs:231-236 | the buffer is the least number of blocks holding the smaller of the size hint and the range's length, and empty only when that is 0 |
| FileSource.TilingReadsAll | src/io/sources/file/linux/reader.rs:106-110 | handing out the bytes of runs that tile a stretch of the file, one after the other, gives exactly that stretch |
| FileSource.ReadsWholeRange | src/io/sources/file/linux/reader.rs:84-120 | reading a non-empty range to its end hands out, one operation after the other, exactly the bytes of the range |
| FileSource.Reader.Open | src/io/sources/file/linux/reader.rs:39-80 | a failed `open` or `stat` passes its error on, a path that is not a regular file gives `InvalidInput`, a failed AIO or `eventfd` set-up passes its error on, and otherwise the reader starts not started with `st_blksize` truncated to `u16` |
| FileSource.Reader.constructor | src/io/sources/file/linux/reader.rs:61-67 | a new reader is not started, with the normalized range, the file system's block size and the buffer's block count |
| FileSource.Reader.RequestSize | src/io/sources/file/linux/reader.rs:124-137 | the length of the range being read, in every state that has one; an `Other` error exactly after the end or an error |
| FileSource.Reader.TryQueueRead | src/io/sources/file/linux/reader.rs:84-104 | before the first read it submits `first_range`, after a finished read it submits `next`, and a read in flight is kept; no further window clears the state with `Ok(false)`, a failed submission clears it with that error; `Ok(true)` exactly when a read is then in flight; the range never changes (the state update of lines 179-187 included) |
| FileSource.Reader.TryGetReadBytes | src/io/sources/file/linux/reader.rs:106-120 | a read in flight is collected first (its failure clears the state and is returned); a finished read hands out exactly the file's bytes the operation delivers within the range and stays finished; no read queued, or after the end, gives an `Other` error (collecting a read in flight as `finish_read`, lines 160-187, does) |
| FileSource.DeliveredBytes | src/io/sources/file/linux/reader.rs:108-110 | the part of a finished buffer named by `buffer_range` holds exactly the delivered bytes of the file |
| FileHandlerReader.ChunkCount | src/io/handlers/file/linux/reader.rs:216-222 | the total size divided by the chunk size, rounded up |
| FileHandlerReader.ChunkCountCovers | src/io/handlers/file/linux/reader.rs:216-222 | the chunks hold all the bytes, and one chunk fewer would not |
| FileHandlerReader.NormalizeRange | src/io/handlers/file/linux/reader.rs:224-227 | no range means the whole file; a given range is kept unchanged, even past the file's end |
| FileHandlerReader.BufferBytes | src/io/handlers/file/linux/reader.rs:229-235 | the buffer is a whole number of blocks, at least the smaller of the hint and the range's length and less than one block more |
| FileHandlerReader.ReadAt | src/io/handlers/file/linux/reader.rs:186 | a direct read returns at most the bytes asked for, and all of them exactly when they lie inside the file |
| FileHandlerReader.ReadySlice | src/io/handlers/file/linux/reader.rs:119-128 | as written, the bytes handed out are the buffer's from the offset on, with as many bytes again dropped at its end |
| FileHandlerReader.InRangeBytes | src/io/handlers/file/linux/reader.rs:115-134 | the bytes of the file that lie both in the range and in a read: never more than the read, and the whole range when the read covers it |
| FileHandlerReader.InRangeBytesSplit | src/io/handlers/file/linux/reader.rs:152-171 | two reads that follow each other hand out together what one read of both would, so reading in buffers loses and repeats none of the range |
| FileHandlerReader.ShortFirstReadDropsTail | src/io/handlers/file/linux/reader.rs:115-134 | for bytes 100 to 10000 of a 10000-byte file, in 4096-byte blocks with a 400000-byte hint, the first read is short; as written the reader hands out `file[100..9900]`, corrected `file[100..10000]` |
| FileHandlerReader.FullFirstReadLeavesRange | src/io/handlers/file/linux/reader.rs:115-171 | the same range of a 20000-byte file: the full first read moves the block index on before the offset is taken, so as written the reader hands out `file[0..12288]`, corrected `file[100..10000]` |
| FileHandlerReader.BufferSizeExample | src/io/handlers/file/linux/reader.rs:229-235 | 9900 bytes with a 400000-byte hint take a buffer of three 4096-byte blocks |
| FileHandlerReader.Reader.Open | src/io/handlers/file/linux/reader.rs:43-88 | a failed `open` or `stat` passes its error on, a path that is not a regular file gives `InvalidInput`, a failed AIO or `eventfd` set-up passes its error on, and otherwise the reader starts as the constructor leaves it |
| FileHandlerReader.Reader.constructor | src/io/handlers/file/linux/reader.rs:68-72 | a new reader has the normalized range, a buffer of `buffer_size` bytes that is ready and empty, and starts at the block holding the range's start |
| FileHandlerReader.Reader.NextOffset | src/io/handlers/file/linux/reader.rs:152-154 | the next read starts on a block boundary |
| FileHandlerReader.Reader.TryQueueRead | src/io/handlers/file/linux/reader.rs:91-113 | a ready buffer is submitted for a whole-buffer read at the next offset (a refused submission leaves the reader stuck switching with that error); a read in flight stays; a stuck reader fails with `Other`; at the end `Ok(false)`; `Ok(true)` exactly when a read is in flight; the block index never changes |
| FileHandlerReader.Reader.TryMoveAfterRead | src/io/handlers/file/linux/reader.rs:156-171 | a full read moves past the blocks read; a short read reaching the end of the range marks the end; a short read before it is an `UnexpectedEof` error that changes nothing |
| FileHandlerReader.Reader.FinishRead | src/io/handlers/file/linux/reader.rs:173-192 | without a read in flight or an event nothing changes; a failed read leaves the reader switching; a full read becomes the ready buffer and moves on; a short read at the end becomes the ready buffer, overwriting the end mark; a short read before the end leaves it switching with `UnexpectedEof` |
| FileHandlerReader.Reader.StartOffset | src/io/handlers/file/linux/reader.rs:119-124 | the bytes skipped are fewer than a block, and only in the block holding the range's start |
| FileHandlerReader.Reader.TryGetReadBytes | src/io/handlers/file/linux/reader.rs:115-134 | after finishing a read, a ready buffer hands out its bytes as written (from the offset to length less offset); reading gives `WouldBlock`, the end `UnexpectedEof`, a stuck reader an error |
| FileHandlerReader.Reader.TryGetReadBytesCorrected | src/io/handlers/file/linux/reader.rs:115-134 | the same outcomes, except that a ready buffer hands out exactly `InRangeBytes`: the file's bytes that lie both in the range and in the read the buffer holds |
| FileHandlerReader.Reader.Deregister | src/io/handlers/file/linux/reader.rs:145-150 | the reader is at its end whatever the poll answers, and that answer is returned |
| FileHandlerReader.FullReadAdvances | src/io/handlers/file/linux/reader.rs:152-160 | a full read moves the next offset on by exactly the buffer's size, so reads follow each other without gap or overlap |
| Bytes.UpperAll | src/http/headers/raw_header.rs:16 | the bytes `make_ascii_uppercase` leaves: each byte upper-cased at its own position, the length kept |
| Bytes.LowerAll | src/http/headers/raw_header.rs:19 | the bytes `make_ascii_lowercase` leaves: each byte lower-cased at its own position, the length kept |
| Bytes.MakeAsciiUppercase | src/headers.rs:21-42 | upper-cases exactly the bytes of the slice and leaves the rest of the buffer alone |
| Bytes.MakeAsciiLowercase | src/headers.rs:45 | lower-cases exactly the bytes of the slice and leaves the rest of the buffer alone |
| Bytes.FindFrom | src/split.rs:27-29 | the first position at or after `from` where the pattern occurs, or none when it occurs nowhere there |
| Bytes.Find | src/split.rs:27-29 | `position` is the first window equal to the pattern, or none when no window is |
| Bytes.IndexOf | src/headers.rs:40 | the first position holding the byte, or none exactly when it is absent |
| Bytes.LastIndexOf | src/http/mime_type.rs:20-27 | the last position holding the byte, or none exactly when it is absent |

## Left out

Where the Rust code panics, the model has a precondition instead:

- Headers.ParseHeader: requires `SafeStrWords` of the name. The name is split into words on '-', and the title-casing loop slices `[0..1]` of each word. That slice panics on an empty word, which a leading or doubled '-' makes (a trailing '-' gives no empty word). It also panics when a word's first character is more than one byte. `SafeStrWords` forbids exactly these.
- RawHeaders.ParseRawHeader: requires every '-'-separated word of the name to be non-empty (`NonEmptyWords`), for the same `[0..1]` slice. The line "-X: y" panics; see "Findings" and the corrected `RawHeaders.ParseRawHeaderCorrected`.
- HttpRequests.ParseRequest: has no precondition, because it parses header lines with the corrected raw-header reading (`RawHeaders.ParseRawHeaderCorrected`), which skips empty name words. The source would panic on such a line instead.
- HttpRequests.ParseRequest: each line is parsed from a copy (`CopyLine`), so the model does not show the request buffer being uppercased, title-cased and URL-decoded in place. The in-place parsers themselves are modelled separately (`HttpRequestLine`, `RawHeaders`, `UrlDecode`).
- HttpResponses.BufferResponse.Append: requires the text to fit in the 4096-byte buffer, because the Rust `write_all(...).unwrap()` panics when it does not.
- HttpResponses.BufferResponse.WriteHead: requires the status line to fit, for the same `unwrap`.
- HttpResponses.BufferResponse.WriteHeader: requires the header line to fit, for the same `unwrap`.
- HttpResponses.BufferResponse.WriteBodyStr: requires the blank line and the body to fit, for the same `unwrap`.
- OldHttpResponses.ResponseBuffer.WriteText: requires the text to fit in the room left, because `write!(...).unwrap()` panics otherwise.
- OldHttpResponses.BufferResponse.constructor: requires the status line to fit in the buffer, for the same `unwrap`.
- OldHttpResponses.BufferResponse.SetHeader: requires the header line to fit in the room left, for the same `unwrap`.
- OldHttpResponses.BufferResponse.IntoBody: requires the final blank line to fit, for the same `unwrap`.
- Buffers.Buffer.WriteInto: requires a successful read to be no longer than the room it was given, which is the `assert!` of the source.
- Handlers.FileResponder.SendAndRequestData: requires `buffer_bytes_sent` to lie within the bytes the reader returned (`CanSlice`), because `&buffer[buffer_bytes_sent..]` panics otherwise.
- Handlers.FileResponder.HandleEvent: has the same `CanSlice` precondition, because it calls the function above.
- Servers.Server.HandleEvent: requires the token's connection id to be 1 to 100. An id of 0 underflows `conn_id - 1`, and a larger id indexes past the table.
- Servers.Server.Dispatch: has the same precondition for tokens other than the listener's.
- FileSource.NormalizeRange: requires a non-empty file, because `file_size - 1` underflows for an empty one.
- FileSource.Reader.constructor: requires the normalised range to be in order, because `range.end - range.start` underflows otherwise.
- FileSource.Reader.constructor: requires a positive buffer size hint. With a hint of 0 and a non-empty range, `buffer_block_size` gives 0 blocks, so every operation range is empty and `next` returns the same block offset again. From a block-aligned start the source then hands out empty slices without end; from a non-aligned start `buffer_range` is a reversed range and the slice in `try_get_read_bytes` panics. The model covers neither, and `ReadRanges.RangeCovered` and `FileSource.ReadsWholeRange` rely on the positive capacity this gives. `Reader::open` always passes `BUFFER_MAX_SIZE`.
- FileSource.Reader.Open: requires a positive buffer size hint, for the constructor's reason, once the path was opened and found to be a regular file.
- FileSource.Reader.Open: requires `st_blksize` truncated to `u16` to be positive, because `bytes_as_block_count` divides by it, and the normalised range to be in order, for the constructor's reason. These apply only once the path was opened and found to be a regular file.
- FileHandlerReader.Reader.TryGetReadBytes: requires the slice `[offset..len - offset]` to be in order (`SliceFits`), because the source panics when it is not.
- FileHandlerReader.Reader.constructor: requires the normalised range to be in order.
- FileHandlerReader.Reader.Open: requires a positive `st_blksize`, because `range.start / block_size` divides by it, and the normalised range to be in order. These apply only once the path was opened and found to be a regular file.
- ReadRanges.FirstRange: requires a positive block size, as do the other `ReadRanges` and `DirectIo` members. The source divides by the block size, which the OS always reports as positive.
- ReadRanges.RangeBlockCount: requires the window's block offset not to pass the range's last block, because `total_blocks - self.block_offset` underflows otherwise. `ReadRanges.OperationRange` and `ReadRanges.Next` carry the same requirement, and `ReadRanges.BufferRange` also requires the window not to start past the range's end, because `global_end - op_range.start` underflows otherwise. Every window that `FirstRange` and `Next` produce meets these.
- Bytes.Find: requires a non-empty pattern, because `windows(0)` panics.
- Bytes.FindFrom: requires a non-empty pattern, for the same reason.

Abstractions and behaviours the model does not capture:

- Headers.StrTrim: trims ASCII whitespace only. Rust's `str::trim` also trims Unicode whitespace such as U+0085 and U+00A0, so a header value padded with those keeps them in the model.
- SocketIo.Send: terminates because the socket's script of outcomes is finite. The source loops forever while `write` keeps returning `Ok(0)` or `Interrupted`, and the model does not capture an endless run of those.
- SocketIo.Receive: terminates for the same reason. The source retries forever on an endless run of `Interrupted`.
- PageBuffers.PageBuffer.constructor: does not model the panic when `mmap` fails (src/buffer/page_buffer.rs:27-28); the mapping is taken to succeed.
- PageBuffers.PageBuffer.Resize: does not model the panic when `mremap` fails (src/buffer/page_buffer.rs:47-48). It models only the size in pages. It does not model the `mmap`/`mremap` contents, or the `usize` overflow of `pages * page_size`.
- OldHttpResponses.Body.Finish: the diagnostic `println!` is dropped.
- Diagnostic `println!` output anywhere in the source is not modelled, such as the connection messages of src/server.rs:124 and 128 and the progress messages of src/io/handlers/file/linux/reader.rs:48-77.
- HttpHeaders.FromRaw: `header.rs` passes a `&[u8]` to `Authorization::parse(&str)` and an immutable slice to `ETagMatch::parse(&mut [u8])`, so that code does not compile as written. The model reads the first as a UTF-8 check that keeps the text, and the second as the `If-None-Match` parser run on the value.
- HttpRequests.ParseRequest: the accessors `version`, `url`, `method` and `query_params` of `request.rs` (lines 69-82) name fields (`url`, `query_params`) that `RequestLine` does not have (`uri`, `querystring`). They are not modelled, and the parsed request is the request line and the header fields.
- ETagMatches.ParseETagMatch: `trim_mut` is imported at src/http/headers/etag_match.rs:1 and called at lines 11-12, but it is defined nowhere in the source. The model takes it to be `HttpStr.Trim` (`trim` of src/http/str.rs:23-25) on a mutable slice.
- `HttpVersion`, and the `Authorization`, `ContentRange` and `MimeType` wrapper types, are stubs or thin wrappers in the source. They are represented by their byte values.
- Tokens.CreateToken32: writes the bitwise `|` as `+`. The shifted connection id and the 16-bit async token occupy disjoint bits, so the two agree.
- Buffers.BufferPool.BorrowBuffer: the `RefCell` borrow flags are modelled as a sequence of booleans, one per slot. A borrow is released through `Release` rather than by dropping a guard.
- Usize overflow is not modelled anywhere except in the 32-bit token packing and the `u16` truncation of `st_blksize` in `FileSource.Reader.Open`. Lengths and offsets are unbounded naturals.
- FileSource.Reader.constructor: the source casts the buffer's block capacity to `u16` with `as`, which truncates silently. The model requires the capacity to fit in `u16` instead, so a range and hint of 65536 blocks or more are not covered.
- FileSource.Reader.constructor: `Buffer::page_sized_aligned` is not part of this model. The buffer is taken to hold the `buffer_block_capacity * block_size` bytes asked for, so every operation range fits it.
- FileHandlerReader.Reader.constructor: `Buffer::page_sized_aligned` is not part of this model. Its capacity, which `aio.rs` passes as the read length, is taken to be the `buffer_size` bytes asked for (`BufferBytes`).
- Sockets, the `mio` poller, `accept`, `eventfd`, `io_setup`, `io_submit`, `io_getevents`, `open`, `openat`, `fstat`, `mmap` and `sysconf` are not called. Their outcomes are parameters: scripts of write/read outcomes, a registration result, a completion event, the file's bytes, or the page size.
- `RelativePath::open` and `Directory::open`, including the `PATH_MAX` buffer they build the C path in, are not part of this model. Only the path validation before the call is modelled.
- ResponseWriters.ResponseWriter.HandleEvent: the sub-writers are modelled by whether they finish. Their `unwrap`s and registrations are taken to succeed.
- QueryConnections.QueryConnection.HandleEvent: the request and response handlers are values, and their event handling is a function passed in.
- Servers.Server.HandleEvent: the connection handlers are values, and whether one finishes is a function passed in. The poll loop itself is not modelled, only the dispatch of one event.
- Routing.ReadHeaders: the delegated handlers are values. `http::status::NOT_FOUND` does not appear among the constants of `status.rs`, so the reply is modelled by its content type and body only.
- Handlers.FileResponder.constructor: `into_parts` and the `is_partial`/`is_complete` accessors are trivial and have no member of their own.
- ReadRanges.RangeCovered: the unit tests of `readrange.rs`, other than the one with a non-aligned begin, are covered by this general lemma rather than one by one.

Behaviours kept as the source writes them, each stated by the members named:

- Handlers.FinishesWhileMoreToRead: `FileResponder` takes `try_queue_read` returning `Ok(true)` (another read was queued) as the end. It therefore finishes after the first whole send whenever more of the range remains, and never finishes after the last chunk.
- Handlers.FileResponder.SendAndRequestData: `total_bytes_sent` is never increased, and `buffer_bytes_sent` is never reset after a chunk.
- Handlers.BufferResponder.HandleEvent: an empty buffer never finishes, because an `Empty` report gives `None`. The bytes sent before a send error are not counted.
- SocketIo.ReceiveBuffer: never reports `Complete` for a non-empty read, because the whole buffer length is passed as the remaining count.
- FileHandlerReader.Reader.FinishRead: a short last read sets `EndReached`, but the ready buffer then overwrites it, so the reader is left `Ready` with the short read.
- FileHandlerReader.NormalizeRange: keeps a requested range as given, even one that ends past the end of the file.

## Findings

| source | as written | input that shows it | evidently intended | confidence | as-written member | corrected member |
|---|---|---|---|---|---|---|
| src/io/token.rs:13-27 | on a 32-bit target `create_token` shifts the connection id by 22, but `split_token` shifts by 10 and masks 10 bits; that `split_token` also returns two `usize` values where `(u32, u16)` is declared, with no `as` casts, so it would not type-check as written; the model reads it with `as` casts, which lose nothing there | `create_token(5, 2)` splits into (20480, 2), and `create_token(5, 1024)` into (20481, 0), where the tests expect (5, 2) and (5, 1024) | split by 22 and mask the low 22 bits | not executed | Tokens.SplitCreate32Differs | Tokens.SplitCreate32Corrected |
| src/http/headers/raw_header.rs:17-18 | `name_word[0..1]` on every '-'-separated word of the name, including an empty one | the header line "-X: y" (an empty first word) panics the connection's parser | skip empty words, as the word iterator of `headers.rs` does | not executed | RawHeaders.LeadingHyphenPanics | RawHeaders.ParseRawHeaderCorrected |
| src/io/handlers/file/linux/reader.rs:126-128 | `buffer[offset .. buffer.len() - offset]` | a 10000-byte file, range 100..10000, 4096-byte blocks, buffer size hint 400000: the short first read gives `file[100..9900]`, 9800 of the 9900 bytes of the range | the bytes of the read that lie in the range, here `file[100..10000]` | not executed | FileHandlerReader.ShortFirstReadDropsTail | FileHandlerReader.Reader.TryGetReadBytesCorrected |
| src/io/handlers/file/linux/reader.rs:121-124 | the offset into the first block is taken only while `block_index` is still the range's first block, but a full read has already advanced `block_index` (line 158) | a 20000-byte file, range 100..10000, 4096-byte blocks, buffer size hint 400000: the full first read hands out `file[0..12288]`, 100 bytes before the range and 2288 after it | the bytes of the read that lie in the range, here `file[100..10000]` | not executed | FileHandlerReader.FullFirstReadLeavesRange | FileHandlerReader.Reader.TryGetReadBytesCorrected |
