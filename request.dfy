/**
 * `CommonHeaders` and `Request::parse` (src/http/request.rs): a header
 * block is split on CRLF; the first piece is the request line, every later
 * piece a header field whose parsed value is kept in one of five fields.
 */
module HttpRequests {
  import opened Wrappers
  import opened Bytes
  import opened Errors
  import opened Split
  import opened HttpStr
  import opened HttpHeaders
  import opened HttpRequestLine
  import Headers
  import RawHeaders

  const CRLF: seq<byte> := [0x0D, 0x0A]

  /** The fields of `CommonHeaders`, as a value. */
  datatype HeaderFields = HeaderFields(
    host: Option<seq<byte>>,
    referer: Option<seq<byte>>,
    contentLength: Option<nat>,
    contentType: Option<seq<byte>>,
    authorization: Option<seq<byte>>)

  /** `CommonHeaders::new`: no field set. */
  const NoHeaders: HeaderFields := HeaderFields(None, None, None, None, None)

  /** The kinds of header `set_header` keeps, one field each. */
  datatype Kind = HostKind | RefererKind | LengthKind | TypeKind | AuthorizationKind

  /** The field a header goes to, if any. */
  function KindOf(h: Header): Option<Kind>
  {
    match h
    case Host(_) => Some(HostKind)
    case Referer(_) => Some(RefererKind)
    case ContentLength(_) => Some(LengthKind)
    case ContentType(_) => Some(TypeKind)
    case Authorization(_) => Some(AuthorizationKind)
    case _ => None
  }

  /** `set_header` on the fields as a value. */
  function Applied(f: HeaderFields, h: Header): HeaderFields
  {
    match h
    case Host(v) => f.(host := Some(v))
    case ContentLength(n) => f.(contentLength := Some(n))
    case ContentType(t) => f.(contentType := Some(t))
    case Authorization(a) => f.(authorization := Some(a))
    case Referer(v) => f.(referer := Some(v))
    case _ => f
  }

  /** Range, If-None-Match and every other header leave the fields as they were. */
  lemma IgnoredHeaders(f: HeaderFields, h: Header)
    requires KindOf(h).None?
    ensures Applied(f, h) == f
  {
  }

  /** A later header of the same kind overwrites the earlier one. */
  lemma SameKindOverwrites(f: HeaderFields, h1: Header, h2: Header)
    requires KindOf(h1) == KindOf(h2) && KindOf(h1).Some?
    ensures Applied(Applied(f, h1), h2) == Applied(f, h2)
  {
  }

  /** Headers of different kinds go to different fields, so their order does not matter. */
  lemma DifferentKindsCommute(f: HeaderFields, h1: Header, h2: Header)
    requires KindOf(h1) != KindOf(h2)
    ensures Applied(Applied(f, h1), h2) == Applied(Applied(f, h2), h1)
  {
  }

  /** `CommonHeaders`: the known header values of a request, each set at most once per kind. */
  class CommonHeaders {
    var host: Option<seq<byte>>
    var referer: Option<seq<byte>>
    var contentLength: Option<nat>
    var contentType: Option<seq<byte>>
    var authorization: Option<seq<byte>>

    function Fields(): HeaderFields
      reads this
    {
      HeaderFields(host, referer, contentLength, contentType, authorization)
    }

    /** `CommonHeaders::new`: every field `None`. */
    constructor ()
      ensures Fields() == NoHeaders
    {
      host := None;
      referer := None;
      contentLength := None;
      contentType := None;
      authorization := None;
    }

    /** `set_header`: writes the field of the header's kind and nothing else. */
    method SetHeader(h: Header)
      modifies this
      ensures Fields() == Applied(old(Fields()), h)
    {
      match h
      case Host(v) => host := Some(v);
      case ContentLength(n) => contentLength := Some(n);
      case ContentType(t) => contentType := Some(t);
      case Authorization(a) => authorization := Some(a);
      case Referer(v) => referer := Some(v);
      case _ =>
    }
  }

  /** The fields after `set_header` of each header in turn, starting from `CommonHeaders::new`. */
  function Collected(hs: seq<Header>): HeaderFields
  {
    if hs == [] then NoHeaders else Applied(Collected(hs[..|hs| - 1]), hs[|hs| - 1])
  }

  /** The index of the last header of kind `k`, or -1 when there is none. */
  function LastOfKind(hs: seq<Header>, k: Kind): (r: int)
    ensures -1 <= r < |hs|
    ensures r == -1 ==> forall j :: 0 <= j < |hs| ==> KindOf(hs[j]) != Some(k)
    ensures r >= 0 ==> KindOf(hs[r]) == Some(k) && forall j :: r < j < |hs| ==> KindOf(hs[j]) != Some(k)
  {
    if hs == [] then -1
    else if KindOf(hs[|hs| - 1]) == Some(k) then |hs| - 1
    else LastOfKind(hs[..|hs| - 1], k)
  }

  /** The field of kind `k`, as the header that sets it. */
  function FieldValue(f: HeaderFields, k: Kind): Option<Header>
  {
    match k
    case HostKind => if f.host.Some? then Some(Host(f.host.value)) else None
    case RefererKind => if f.referer.Some? then Some(Referer(f.referer.value)) else None
    case LengthKind => if f.contentLength.Some? then Some(ContentLength(f.contentLength.value)) else None
    case TypeKind => if f.contentType.Some? then Some(ContentType(f.contentType.value)) else None
    case AuthorizationKind => if f.authorization.Some? then Some(Authorization(f.authorization.value)) else None
  }

  /** `set_header` changes the field of the header's kind to that header, and no other field. */
  lemma FieldValueApplied(f: HeaderFields, h: Header, k: Kind)
    ensures FieldValue(Applied(f, h), k) == if KindOf(h) == Some(k) then Some(h) else FieldValue(f, k)
  {
  }

  /** Each field holds the value of the last header of its kind, and `None` when there is none. */
  lemma {:induction false} LastWins(hs: seq<Header>, k: Kind)
    ensures var i := LastOfKind(hs, k); FieldValue(Collected(hs), k) == if i < 0 then None else Some(hs[i])
  {
    if hs != [] {
      var init := hs[..|hs| - 1];
      LastWins(init, k);
      FieldValueApplied(Collected(init), hs[|hs| - 1], k);
      var i := LastOfKind(init, k);
      if i >= 0 {
        assert init[i] == hs[i];
      }
    }
  }

  /** The name and value `RawHeader::parse` reads, as values. */
  datatype RawText = RawText(name: seq<byte>, value: seq<byte>)

  /**
   * `RawHeader::parse` on one line: the name before the first `:`
   * Title-Cased and trimmed, which must be UTF-8, and the trimmed value
   * after it.
   */
  function RawTextOf(line: seq<byte>): Result<RawText, RequestError>
  {
    match IndexOf(line, Headers.COLON)
    case None => Err(InvalidHeader)
    case Some(i) =>
      var name := Trim(Headers.TitleCased(line[..i]), IsWhitespace);
      if !IsUtf8(name) then Err(InvalidEncoding)
      else Ok(RawText(name, Trim(line[i + 1..], IsWhitespace)))
  }

  /** `RawHeader::parse` and then `Header::from_raw` on one line. */
  function HeaderLine(line: seq<byte>): Result<Header, RequestError>
  {
    match RawTextOf(line)
    case Err(e) => Err(e)
    case Ok(t) => FromRaw(t.name, t.value)
  }

  /**
   * The headers that `parse` makes of the lines after the request line,
   * in order, or the error of the first line it refuses.
   */
  function HeaderLines(lines: seq<seq<byte>>, parse: seq<byte> -> Result<Header, RequestError>)
    : Result<seq<Header>, RequestError>
  {
    if lines == [] then Ok([])
    else
      match HeaderLines(lines[..|lines| - 1], parse)
      case Err(e) => Err(e)
      case Ok(hs) =>
        match parse(lines[|lines| - 1])
        case Ok(h) => Ok(hs + [h])
        case Err(e) => Err(e)
  }

  /**
   * The lines give headers exactly when every line parses, and then one
   * header per line, in order; otherwise the error is that of the first
   * line that does not parse.
   */
  lemma {:induction false} HeaderLinesMeaning(lines: seq<seq<byte>>, parse: seq<byte> -> Result<Header, RequestError>)
    ensures var r := HeaderLines(lines, parse);
      && (r.Ok? <==> forall k :: 0 <= k < |lines| ==> parse(lines[k]).Ok?)
      && (r.Ok? ==> |r.value| == |lines| && forall k :: 0 <= k < |lines| ==> parse(lines[k]) == Ok(r.value[k]))
      && (r.Err? ==> exists k :: 0 <= k < |lines| && parse(lines[k]) == Err(r.error)
                             && forall j :: 0 <= j < k ==> parse(lines[j]).Ok?)
  {
    if lines != [] {
      var init := lines[..|lines| - 1];
      HeaderLinesMeaning(init, parse);
      assert forall j :: 0 <= j < |init| ==> init[j] == lines[j];
    }
  }

  /** The first header line that fails decides the error. */
  lemma FirstHeaderError(lines: seq<seq<byte>>, parse: seq<byte> -> Result<Header, RequestError>, k: nat)
    requires k < |lines| && parse(lines[k]).Err? && HeaderLines(lines[..k], parse).Ok?
    ensures HeaderLines(lines, parse) == Err(parse(lines[k]).error)
  {
    HeaderLinesMeaning(lines[..k], parse);
    HeaderLinesMeaning(lines, parse);
    assert forall j :: 0 <= j < k ==> lines[..k][j] == lines[j];
  }

  /** `Request`: the parsed request line and the common header fields. */
  datatype Request = Request(requestLine: ParsedLine, headers: HeaderFields)

  /**
   * `Request::parse` over its lines, with the request-line and header
   * parsers as parameters: the first line is the request line, every
   * later line a header, and the first error wins.
   */
  function RequestOf(lines: seq<seq<byte>>, parseLine: seq<byte> -> Result<ParsedLine, RequestError>,
                     parseHeader: seq<byte> -> Result<Header, RequestError>): Result<Request, RequestError>
  {
    if lines == [] then Err(InvalidRequestLine)
    else
      match parseLine(lines[0])
      case Err(e) => Err(e)
      case Ok(l) =>
        match HeaderLines(lines[1..], parseHeader)
        case Err(e) => Err(e)
        case Ok(hs) => Ok(Request(l, Collected(hs)))
  }

  /** What `Request::parse` returns for a header block split on CRLF. */
  function ParsedRequest(s: seq<byte>): (r: Result<Request, RequestError>)
    ensures r.Ok? ==> Pieces(s, CRLF) != [] && ParseLine(Pieces(s, CRLF)[0]) == Ok(r.value.requestLine)
    ensures r.Ok? ==> IsUtf8(r.value.requestLine.httpMethod) && IsUtf8(r.value.requestLine.uri) && IsUtf8(r.value.requestLine.version)
  {
    RequestOf(Pieces(s, CRLF), ParseLine, HeaderLine)
  }

  /**
   * `Request::parse` succeeds exactly when there is a first line, it is a
   * request line, and every later line is a header; the request then
   * holds that request line and the fields those headers set in order.
   * Otherwise the error is `InvalidRequestLine` for an empty block, else
   * the request line's error, else the error of the first bad header line.
   */
  lemma RequestOfMeaning(lines: seq<seq<byte>>, parseLine: seq<byte> -> Result<ParsedLine, RequestError>,
                         parseHeader: seq<byte> -> Result<Header, RequestError>)
    ensures var r := RequestOf(lines, parseLine, parseHeader);
      && (r.Ok? <==> |lines| > 0 && parseLine(lines[0]).Ok? && forall k :: 1 <= k < |lines| ==> parseHeader(lines[k]).Ok?)
      && (r.Ok? ==> r.value.requestLine == parseLine(lines[0]).value
                    && r.value.headers == Collected(HeaderLines(lines[1..], parseHeader).value))
      && (lines == [] ==> r == Err(InvalidRequestLine))
      && (lines != [] && parseLine(lines[0]).Err? ==> r == Err(parseLine(lines[0]).error))
      && (lines != [] && parseLine(lines[0]).Ok? && r.Err? ==>
            exists k :: 1 <= k < |lines| && parseHeader(lines[k]) == Err(r.error)
                     && forall j :: 1 <= j < k ==> parseHeader(lines[j]).Ok?)
  {
    if lines != [] {
      var rest := lines[1..];
      HeaderLinesMeaning(rest, parseHeader);
      assert forall k :: 1 <= k < |lines| ==> lines[k] == rest[k - 1];
      var r := HeaderLines(rest, parseHeader);
      if parseLine(lines[0]).Ok? && r.Err? {
        var k :| 0 <= k < |rest| && parseHeader(rest[k]) == Err(r.error)
                 && forall j :: 0 <= j < k ==> parseHeader(rest[j]).Ok?;
        assert forall j :: 1 <= j < k + 1 ==> parseHeader(lines[j]).Ok?;
      }
    }
  }

  /** The same for `Request::parse` itself, on the CRLF-separated lines of a block. */
  lemma ParsedRequestMeaning(s: seq<byte>)
    ensures var lines, r := Pieces(s, CRLF), ParsedRequest(s);
      && (r.Ok? <==> |lines| > 0 && ParseLine(lines[0]).Ok? && forall k :: 1 <= k < |lines| ==> HeaderLine(lines[k]).Ok?)
      && (s == [] ==> r == Err(InvalidRequestLine))
      && (lines != [] && ParseLine(lines[0]).Err? ==> r == Err(ParseLine(lines[0]).error))
  {
    RequestOfMeaning(Pieces(s, CRLF), ParseLine, HeaderLine);
  }

  /** A copy of `a[s..e]`. */
  method CopyLine(a: array<byte>, s: nat, e: nat) returns (line: array<byte>)
    requires s <= e <= a.Length
    ensures fresh(line) && line[..] == a[s..e]
  {
    line := new byte[e - s];
    forall k | 0 <= k < e - s {
      line[k] := a[s + k];
    }
  }

  /** `RequestLine::parse` on the line `a[s..e]`, giving the values its spans hold. */
  method ParseFirstLine(a: array<byte>, s: nat, e: nat) returns (r: Result<ParsedLine, RequestError>)
    requires s <= e <= a.Length
    ensures r == ParseLine(a[s..e])
  {
    var line := CopyLine(a, s, e);
    var parsed := ParseRequestLine(line);
    if parsed.Err? {
      return Err(parsed.error);
    }
    var l := parsed.value;
    r := Ok(ParsedLine(line[l.httpMethod.start..l.httpMethod.end], line[l.uri.start..l.uri.end],
                       l.querystring.decodedParams, line[l.version.start..l.version.end]));
  }

  /**
   * `RawHeader::parse` on the line `a[s..e]`, giving the name and value its
   * spans hold; empty words in the name are passed over rather than sliced.
   */
  method ParseRawLine(a: array<byte>, s: nat, e: nat) returns (r: Result<RawText, RequestError>)
    requires s <= e <= a.Length
    ensures r == RawTextOf(a[s..e])
  {
    var line := CopyLine(a, s, e);
    var raw := RawHeaders.ParseRawHeaderCorrected(line);
    if raw.Err? {
      return Err(raw.error);
    }
    var n, v := raw.value.name, raw.value.value;
    r := Ok(RawText(line[n.start..n.end], line[v.start..v.end]));
  }

  /** One more header line parsed: the headers so far, then this one. */
  lemma HeaderStep(lines: seq<seq<byte>>, parse: seq<byte> -> Result<Header, RequestError>, k: nat,
                   hs: seq<Header>, h: Header)
    requires k < |lines| && HeaderLines(lines[..k], parse) == Ok(hs) && parse(lines[k]) == Ok(h)
    ensures HeaderLines(lines[..k + 1], parse) == Ok(hs + [h])
    ensures Collected(hs + [h]) == Applied(Collected(hs), h)
  {
    assert lines[..k + 1][..k] == lines[..k];
    assert (hs + [h])[..|hs|] == hs;
  }

  /**
   * Where `Request::parse` stands after its first `done` lines: the
   * request line read from the first, the fields set by the headers after it.
   */
  ghost predicate ParsedSoFar(all: seq<seq<byte>>, done: nat, requestLine: Option<ParsedLine>, f: HeaderFields,
                              parseLine: seq<byte> -> Result<ParsedLine, RequestError>,
                              parseHeader: seq<byte> -> Result<Header, RequestError>)
  {
    && done <= |all|
    && (requestLine.None? <==> done == 0)
    && (done == 0 ==> f == NoHeaders)
    && (done > 0 ==>
         && parseLine(all[0]) == Ok(requestLine.value)
         && HeaderLines(all[1..done], parseHeader).Ok?
         && f == Collected(HeaderLines(all[1..done], parseHeader).value))
  }

  /**
   * `parseLine` and `parseHeader` agree with the two line parsers; the
   * triggers keep the parsers folded until a line is parsed.
   */
  ghost predicate Parsers(parseLine: seq<byte> -> Result<ParsedLine, RequestError>,
                          parseHeader: seq<byte> -> Result<Header, RequestError>)
  {
    && (forall x {:trigger ParseLine(x)} :: parseLine(x) == ParseLine(x))
    && (forall x {:trigger HeaderLine(x)} :: parseHeader(x) == HeaderLine(x))
  }

  /**
   * `Request::parse`: splits the block on CRLF and parses each line in
   * turn, returning at the first error; a block with no line at all has
   * no request line and is refused with `InvalidRequestLine`.
   */
  method ParseRequest(header: array<byte>) returns (r: Result<Request, RequestError>)
    ensures r == ParsedRequest(header[..])
  {
    r := ParseRequestWith(header, ParseLine, HeaderLine);
  }

  /** `Request::parse` with the line parsers kept abstract. */
  method ParseRequestWith(header: array<byte>, ghost parseLine: seq<byte> -> Result<ParsedLine, RequestError>,
                          ghost parseHeader: seq<byte> -> Result<Header, RequestError>)
    returns (r: Result<Request, RequestError>)
    requires Parsers(parseLine, parseHeader)
    ensures r == RequestOf(Pieces(header[..], CRLF), parseLine, parseHeader)
  {
    assert header[0..header.Length] == header[..];
    var lines := new SplitMutIterator(header, 0, header.Length, CRLF);
    r := ParseLines(header, lines, Pieces(header[..], CRLF), parseLine, parseHeader);
  }

  /** The loop of `Request::parse` over the lines `all` that `lines` yields. */
  method ParseLines(header: array<byte>, lines: SplitMutIterator, ghost all: seq<seq<byte>>,
                    ghost parseLine: seq<byte> -> Result<ParsedLine, RequestError>,
                    ghost parseHeader: seq<byte> -> Result<Header, RequestError>)
    returns (r: Result<Request, RequestError>)
    requires Parsers(parseLine, parseHeader)
    requires lines.buffer == header && lines.pattern == CRLF && lines.Valid() && lines.Upcoming() == all
    modifies lines
    ensures r == RequestOf(all, parseLine, parseHeader)
  {
    var fields := new CommonHeaders();
    var requestLine: Option<ParsedLine> := None;
    ghost var done := 0;
    var more := true;
    while more
      invariant lines.buffer == header && lines.pattern == CRLF && lines.Valid()
      invariant 0 <= done <= |all| && lines.Upcoming() == all[done..]
      invariant ParsedSoFar(all, done, requestLine, fields.Fields(), parseLine, parseHeader)
      invariant !more ==> done == |all|
      decreases |all| - done, more
    {
      var failed;
      more, failed, requestLine := NextLine(header, lines, all, done, requestLine, fields, parseLine, parseHeader);
      if failed.Some? {
        return Err(failed.value);
      }
      if more {
        done := done + 1;
      }
    }
    r := Finish(all, requestLine, fields.Fields(), parseLine, parseHeader);
  }

  /** One turn of the loop of `Request::parse`: the next line, if any, parsed. */
  method NextLine(header: array<byte>, lines: SplitMutIterator, ghost all: seq<seq<byte>>, ghost done: nat,
                  requestLine: Option<ParsedLine>, fields: CommonHeaders,
                  ghost parseLine: seq<byte> -> Result<ParsedLine, RequestError>,
                  ghost parseHeader: seq<byte> -> Result<Header, RequestError>)
    returns (more: bool, failed: Option<RequestError>, nextLine: Option<ParsedLine>)
    requires Parsers(parseLine, parseHeader)
    requires lines.buffer == header && lines.pattern == CRLF && lines.Valid()
    requires done <= |all| && lines.Upcoming() == all[done..]
    requires ParsedSoFar(all, done, requestLine, fields.Fields(), parseLine, parseHeader)
    modifies lines, fields
    ensures lines.Valid()
    ensures failed.Some? ==> RequestOf(all, parseLine, parseHeader) == Err(failed.value)
    ensures failed.None? && !more ==>
      done == |all| && lines.Upcoming() == [] && nextLine == requestLine && fields.Fields() == old(fields.Fields())
    ensures failed.None? && more ==>
      && done < |all| && lines.Upcoming() == all[done + 1..]
      && ParsedSoFar(all, done + 1, nextLine, fields.Fields(), parseLine, parseHeader)
  {
    var piece := lines.Next();
    if piece.None? {
      return false, None, requestLine;
    }
    failed, nextLine := ParseNextLine(header, piece.value.0, piece.value.1, all, done, requestLine, fields,
                                      parseLine, parseHeader);
    more := true;
  }

  /** The body of the loop of `Request::parse` for line `done`, `header[s..e]`. */
  method ParseNextLine(header: array<byte>, s: nat, e: nat, ghost all: seq<seq<byte>>, ghost done: nat,
                       requestLine: Option<ParsedLine>, fields: CommonHeaders,
                       ghost parseLine: seq<byte> -> Result<ParsedLine, RequestError>,
                       ghost parseHeader: seq<byte> -> Result<Header, RequestError>)
    returns (failed: Option<RequestError>, nextLine: Option<ParsedLine>)
    requires Parsers(parseLine, parseHeader)
    requires done < |all| && s <= e <= header.Length && header[s..e] == all[done]
    requires ParsedSoFar(all, done, requestLine, fields.Fields(), parseLine, parseHeader)
    modifies fields
    ensures failed.Some? ==> RequestOf(all, parseLine, parseHeader) == Err(failed.value)
    ensures failed.None? ==> ParsedSoFar(all, done + 1, nextLine, fields.Fields(), parseLine, parseHeader)
  {
    if requestLine.None? {
      var l := ParseFirstLine(header, s, e);
      if l.Err? {
        return Some(l.error), None;
      }
      ghost var none: seq<seq<byte>> := [];
      assert all[1..1] == none && HeaderLines(none, parseHeader).Ok?;
      return None, Some(l.value);
    }
    ghost var rest := all[1..];
    HeaderPrefix(all, done);
    var raw := ParseRawLine(header, s, e);
    var h := if raw.Err? then Err(raw.error) else FromRaw(raw.value.name, raw.value.value);
    assert h == HeaderLine(header[s..e]);
    if h.Err? {
      FirstHeaderError(rest, parseHeader, done - 1);
      return Some(h.error), None;
    }
    HeaderStep(rest, parseHeader, done - 1, HeaderLines(rest[..done - 1], parseHeader).value, h.value);
    fields.SetHeader(h.value);
    return None, requestLine;
  }

  /** After the last line: the request, or `InvalidRequestLine` when there was no line. */
  method Finish(ghost all: seq<seq<byte>>, requestLine: Option<ParsedLine>, f: HeaderFields,
                ghost parseLine: seq<byte> -> Result<ParsedLine, RequestError>,
                ghost parseHeader: seq<byte> -> Result<Header, RequestError>)
    returns (r: Result<Request, RequestError>)
    requires ParsedSoFar(all, |all|, requestLine, f, parseLine, parseHeader)
    ensures r == RequestOf(all, parseLine, parseHeader)
  {
    if requestLine.None? {
      return Err(InvalidRequestLine);
    }
    assert all[1..|all|] == all[1..];
    return Ok(Request(requestLine.value, f));
  }

  /** The lines before line `done`, seen from the first header line. */
  lemma HeaderPrefix(all: seq<seq<byte>>, done: nat)
    requires 1 <= done < |all|
    ensures all[1..][..done - 1] == all[1..done] && all[1..][done - 1] == all[done]
    ensures all[1..][..done] == all[1..done + 1]
  {
  }
}
