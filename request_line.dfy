/**
 * The request line of the second request parser
 * (src/http/headers/request_line.rs, section 3.1.1 of RFC 7230): the
 * method, the URI split at its first `?` into a percent-decoded path and a
 * query string of marked parameters, and the version after `HTTP/`, all
 * found in place in the line's bytes.
 */
module HttpRequestLine {
  import opened Wrappers
  import opened Bytes
  import opened Errors
  import opened Split
  import opened HttpStr
  import opened UrlDecode
  import opened UrlParamsDecode
  import opened UrlParamsIterator
  import Headers

  const QUESTION: byte := 0x3F

  /**
   * `uri.position(b"?")` and the split around it: the bytes before the
   * first `?` and those after it; without a `?`, the whole URI and an empty
   * query string.
   */
  function SplitQuery(u: seq<byte>): (r: (seq<byte>, seq<byte>))
    ensures QUESTION in u ==> u == r.0 + [QUESTION] + r.1 && QUESTION !in r.0
    ensures QUESTION !in u ==> r.0 == u && r.1 == []
  {
    FindByte(u, QUESTION);
    match Find(u, [QUESTION])
    case Some(i) =>
      assert u == u[..i] + [QUESTION] + u[i + 1..];
      (u[..i], u[i + 1..])
    case None => (u, [])
  }

  /** What a request line parses to, as bytes: the fields of `RequestLine`. */
  datatype ParsedLine = ParsedLine(httpMethod: seq<byte>, uri: seq<byte>, querystring: seq<byte>, version: seq<byte>)

  /**
   * `RequestLine::parse` on the line `s`: three words, the third at least
   * five bytes long, else `InvalidRequestLine`; then `ParseWords`.
   */
  function ParseLine(s: seq<byte>): (r: Result<ParsedLine, RequestError>)
    ensures r.Ok? ==> IsUtf8(r.value.httpMethod) && IsUtf8(r.value.uri) && IsUtf8(r.value.version)
    ensures r.Err? ==> r.error in {InvalidRequestLine, InvalidEncoding, UrlEncodedNul}
  {
    var ws := Headers.Words(s);
    if |ws| < 3 || |ws[2]| < 5 then Err(InvalidRequestLine)
    else ParseWords(ws[0], ws[1], ws[2])
  }

  /**
   * The rest of `RequestLine::parse` once it has the method, URI and
   * version words: in the order the source checks them, the decoded path,
   * the uppercased method, the query string and the version after its
   * first five bytes, each of which may fail.
   */
  function ParseWords(httpMethod: seq<byte>, uri: seq<byte>, version: seq<byte>): (r: Result<ParsedLine, RequestError>)
    requires |version| >= 5
    ensures r.Ok? ==> IsUtf8(r.value.httpMethod) && IsUtf8(r.value.uri) && IsUtf8(r.value.version)
    ensures r.Ok? ==> r.value.httpMethod == UpperAll(httpMethod) && r.value.version == version[5..]
    ensures r.Err? ==> r.error == InvalidEncoding || r.error == UrlEncodedNul
  {
    var path := Decoded(SplitQuery(uri).0);
    if !IsUtf8(path) then Err(InvalidEncoding)
    else if !IsUtf8(UpperAll(httpMethod)) then Err(InvalidEncoding)
    else match MarkParams(SplitQuery(uri).1)
      case Err(e) => Err(e)
      case Ok(marked) =>
        if !IsUtf8(version[5..]) then Err(InvalidEncoding)
        else Ok(ParsedLine(UpperAll(httpMethod), path, marked, version[5..]))
  }

  /**
   * `InvalidRequestLine` comes exactly from a line with fewer than three
   * words or a third word shorter than five bytes; every later failure is
   * an encoding error.
   */
  lemma ParseLineRejects(s: seq<byte>)
    ensures ParseLine(s) == Err(InvalidRequestLine) <==>
      |Headers.Words(s)| < 3 || |Headers.Words(s)[2]| < 5
    ensures ParseLine(s).Err? ==>
      ParseLine(s).error in {InvalidRequestLine, InvalidEncoding, UrlEncodedNul}
  {
  }

  /**
   * On success the URI is split at its first raw `?` before anything is
   * decoded: the path is the decoding of the bytes before it, the query
   * string yields the decoded pairs of the bytes after it, so an escaped
   * `%3F` stays in the path. The method is the first word uppercased and
   * the version the third word after its first five bytes.
   */
  lemma ParseLineAccepts(s: seq<byte>)
    requires ParseLine(s).Ok?
    ensures var ws, p := Headers.Words(s), ParseLine(s).value;
      && |ws| >= 3 && |ws[2]| >= 5
      && p.httpMethod == UpperAll(ws[0]) && p.version == ws[2][5..]
      && IsUtf8(p.httpMethod) && IsUtf8(p.uri) && IsUtf8(p.version)
      && (QUESTION in ws[1] ==>
            (exists i :: 0 <= i < |ws[1]| && ws[1][i] == QUESTION && QUESTION !in ws[1][..i]
               && p.uri == Decoded(ws[1][..i]) && ParamsOf(p.querystring) == DecodedParams(ws[1][i + 1..])))
      && (QUESTION !in ws[1] ==> p.uri == Decoded(ws[1]) && p.querystring == [])
  {
    var ws, p := Headers.Words(s), ParseLine(s).value;
    var parts := SplitQuery(ws[1]);
    assert p == ParseWords(ws[0], ws[1], ws[2]).value;
    MarkedParamsReadBack(parts.1);
    if QUESTION in ws[1] {
      var i := |parts.0|;
      assert ws[1][i] == QUESTION && ws[1][..i] == parts.0 && ws[1][i + 1..] == parts.1;
    } else {
      assert MarkParams([]) == Ok([]);
    }
  }

  /**
   * The filtered word iterator's `next` over a `SplitMutIterator`: calls
   * `Next` until it yields a non-empty piece or nothing, and yields the
   * first of the words still to come.
   */
  method NextWord(it: SplitMutIterator) returns (w: Option<Headers.Span>)
    requires it.Valid()
    modifies it
    ensures it.Valid()
    ensures w.None? <==> Headers.NonEmpty(old(it.Upcoming())) == []
    ensures w.None? ==> it.rest.None?
    ensures w.Some? ==>
      && old(it.rest).Some? && old(it.rest).value.0 <= w.value.start <= w.value.end <= old(it.rest).value.1
      && it.buffer[w.value.start..w.value.end] == Headers.NonEmpty(old(it.Upcoming()))[0]
      && Headers.NonEmpty(it.Upcoming()) == Headers.NonEmpty(old(it.Upcoming()))[1..]
    ensures it.rest.Some? ==>
      && old(it.rest).Some? && it.rest.value.1 == old(it.rest).value.1
      && (w.Some? ==> w.value.end < it.rest.value.0)
  {
    while true
      invariant it.Valid()
      invariant Headers.NonEmpty(it.Upcoming()) == Headers.NonEmpty(old(it.Upcoming()))
      invariant it.rest.Some? ==>
        && old(it.rest).Some? && old(it.rest).value.0 <= it.rest.value.0 && it.rest.value.1 == old(it.rest).value.1
      decreases if it.rest.Some? then it.rest.value.1 - it.rest.value.0 + 1 else 0
    {
      ghost var up := it.Upcoming();
      var piece := it.Next();
      if piece.None? {
        return None;
      }
      var (s, e) := piece.value;
      if e - s != 0 {
        assert up == [up[0]] + up[1..];
        return Some(Headers.Span(s, e));
      }
      assert up == [up[0]] + up[1..];
    }
  }

  /**
   * The three `words.next()` calls: the first three words of the line, each
   * after the one before, as long as there are words left.
   */
  method FirstWords(line: array<byte>) returns (m: Option<Headers.Span>, u: Option<Headers.Span>, v: Option<Headers.Span>)
    ensures m.Some? && u.Some? && v.Some? <==> |Headers.Words(line[..])| >= 3
    ensures m.Some? && u.Some? && v.Some? ==>
      var ws := Headers.Words(line[..]);
      && m.value.start <= m.value.end < u.value.start <= u.value.end < v.value.start <= v.value.end <= line.Length
      && line[m.value.start..m.value.end] == ws[0]
      && line[u.value.start..u.value.end] == ws[1]
      && line[v.value.start..v.value.end] == ws[2]
  {
    ghost var ws := Headers.Words(line[..]);
    var words := new SplitMutIterator(line, 0, line.Length, [Headers.SPACE]);
    assert line[0..line.Length] == line[..];
    m := NextWord(words);
    assert m.Some? ==> Headers.NonEmpty(words.Upcoming()) == ws[1..];
    u := NextWord(words);
    assert u.Some? ==> Headers.NonEmpty(words.Upcoming()) == ws[2..];
    v := NextWord(words);
  }

  /**
   * The split of the URI `line[u]` at its first `?` and the decoding of the
   * part before it, in place: the path then holds the decoded bytes, the
   * query string the raw bytes after the `?` (an empty span at the URI's
   * start when there is none). Nothing outside the path changes.
   */
  method DecodePath(line: array<byte>, u: Headers.Span) returns (path: Headers.Span, query: Headers.Span)
    requires u.start <= u.end <= line.Length
    modifies line
    ensures u.start == path.start <= path.end <= u.end && u.start <= query.start <= query.end <= u.end
    ensures path.end <= query.start || query.start == query.end == u.start
    ensures line[path.start..path.end] == Decoded(SplitQuery(old(line[u.start..u.end])).0)
    ensures line[query.start..query.end] == SplitQuery(old(line[u.start..u.end])).1
    ensures line[..u.start] == old(line[..u.start]) && line[u.end..] == old(line[u.end..])
  {
    ghost var before := line[..];
    ghost var parts := SplitQuery(line[u.start..u.end]);
    var found := Find(line[u.start..u.end], [QUESTION]);
    var hi := if found.Some? then u.start + found.value else u.end;
    QueryParts(before, u.start, u.end, found);
    assert line[u.start..hi] == parts.0;
    var start, end := DecodeRange(line, u.start, hi);
    assert line[start..end] == Decoded(parts.0);
    PathFrame(before, line[..], u.start, hi, u.end);
    path := Headers.Span(start, end);
    if found.Some? {
      query := Headers.Span(hi + 1, u.end);
      assert line[query.start..query.end] == before[hi + 1..u.end] == parts.1;
    } else {
      query := Headers.Span(u.start, u.start);
      assert line[query.start..query.end] == [] == parts.1;
    }
  }

  /** Where the URI `s[lo..hi]` splits at its first `?`, as slices of `s`. */
  lemma QueryParts(s: seq<byte>, lo: nat, hi: nat, found: Option<nat>)
    requires lo <= hi <= |s| && found == Find(s[lo..hi], [QUESTION])
    ensures found.Some? ==> lo + found.value < hi
    ensures found.Some? ==> s[lo..lo + found.value] == SplitQuery(s[lo..hi]).0
    ensures found.Some? ==> s[lo + found.value + 1..hi] == SplitQuery(s[lo..hi]).1
    ensures found.None? ==> s[lo..hi] == SplitQuery(s[lo..hi]).0 && SplitQuery(s[lo..hi]).1 == []
  {
    var uri := s[lo..hi];
    FindByte(uri, QUESTION);
    if found.Some? {
      var i := found.value;
      assert uri[..i] == s[lo..lo + i];
      assert uri[i + 1..] == s[lo + i + 1..hi];
    }
  }

  /** What decoding `[lo, hi)` of a URI ending at `end` leaves of the rest of the line. */
  lemma PathFrame(before: seq<byte>, after: seq<byte>, lo: nat, hi: nat, end: nat)
    requires lo <= hi <= end <= |before| == |after|
    requires after[..lo] == before[..lo] && after[hi..] == before[hi..]
    ensures after[end..] == before[end..]
    ensures hi < end ==> after[hi + 1..end] == before[hi + 1..end]
  {
    assert after[end..] == after[hi..][end - hi..];
    assert before[end..] == before[hi..][end - hi..];
    if hi < end {
      forall k | hi + 1 <= k < end ensures after[k] == before[k] {
        assert after[k] == after[hi..][k - hi] && before[k] == before[hi..][k - hi];
      }
    }
  }

  /** `url_decode` on `a[lo..hi]`, with what it leaves unchanged stated as slices. */
  method DecodeRange(a: array<byte>, lo: nat, hi: nat) returns (start: nat, end: nat)
    requires lo <= hi <= a.Length
    modifies a
    ensures start == lo <= end <= hi
    ensures a[start..end] == Decoded(old(a[lo..hi]))
    ensures a[..lo] == old(a[..lo]) && a[hi..] == old(a[hi..])
  {
    ghost var before := a[..];
    start, end := Decode(a, lo, hi);
    FrameSlices(before, a[..], lo, hi);
  }

  /** `RequestLine`: where method, URI and version lie in the line, and the query parameters. */
  datatype RequestLine = RequestLine(httpMethod: Headers.Span, uri: Headers.Span, version: Headers.Span,
                                     querystring: UrlEncodedParams)

  /**
   * `RequestLine::parse`: the outcome `ParseLine` specifies. A line without
   * three words and a long enough version is left as it was; on success
   * the spans hold the uppercased method, the decoded path and the version,
   * and the parameters are those of the marked query string.
   */
  method ParseRequestLine(line: array<byte>) returns (r: Result<RequestLine, RequestError>)
    modifies line
    ensures r.Err? <==> ParseLine(old(line[..])).Err?
    ensures r.Err? ==> r.error == ParseLine(old(line[..])).error
    ensures r.Err? && r.error == InvalidRequestLine ==> line[..] == old(line[..])
    ensures r.Ok? ==> Holds(line[..], r.value, ParseLine(old(line[..])).value)
  {
    ghost var s := line[..];
    ghost var ws := Headers.Words(s);
    var methodWord, uriWord, versionWord := FirstWords(line);
    if methodWord.None? || uriWord.None? || versionWord.None? {
      return Err(InvalidRequestLine);
    }
    var m, u, v := methodWord.value, uriWord.value, versionWord.value;
    if v.end - v.start < 5 {
      return Err(InvalidRequestLine);
    }
    assert ParseLine(s) == ParseWords(ws[0], ws[1], ws[2]);
    r := ParseThreeWords(line, m, u, v, ws[0], ws[1], ws[2]);
  }

  /** `RequestLine::parse` once the three words are found and the version is long enough. */
  method ParseThreeWords(line: array<byte>, m: Headers.Span, u: Headers.Span, v: Headers.Span,
                         ghost w0: seq<byte>, ghost w1: seq<byte>, ghost w2: seq<byte>)
    returns (r: Result<RequestLine, RequestError>)
    requires m.start <= m.end < u.start <= u.end < v.start <= v.end <= line.Length
    requires line[m.start..m.end] == w0 && line[u.start..u.end] == w1 && line[v.start..v.end] == w2
    requires |w2| >= 5
    modifies line
    ensures r.Err? <==> ParseWords(w0, w1, w2).Err?
    ensures r.Err? ==> r.error == ParseWords(w0, w1, w2).error && r.error != InvalidRequestLine
    ensures r.Ok? ==> Holds(line[..], r.value, ParseWords(w0, w1, w2).value)
  {
    var path, query := UppercaseAndSplit(line, m, u, v, w0, w1, w2);
    r := ParseParts(line, m, path, query, Headers.Span(v.start + 5, v.end), w0, w1, w2);
  }

  /** The spans of `l` hold the fields of `p`. */
  ghost predicate Holds(line: seq<byte>, l: RequestLine, p: ParsedLine)
  {
    var m, u, v := l.httpMethod, l.uri, l.version;
    && m.start <= m.end <= |line| && u.start <= u.end <= |line| && v.start <= v.end <= |line|
    && line[m.start..m.end] == p.httpMethod
    && line[u.start..u.end] == p.uri
    && line[v.start..v.end] == p.version
    && l.querystring.decodedParams == p.querystring
  }

  /**
   * The in-place part of `RequestLine::parse` once the three words are
   * found: the method uppercased, the path before the first `?` decoded.
   */
  method UppercaseAndSplit(line: array<byte>, m: Headers.Span, u: Headers.Span, v: Headers.Span,
                           ghost w0: seq<byte>, ghost w1: seq<byte>, ghost w2: seq<byte>)
    returns (path: Headers.Span, query: Headers.Span)
    requires m.start <= m.end < u.start <= u.end < v.start <= v.end <= line.Length
    requires line[m.start..m.end] == w0 && line[u.start..u.end] == w1 && line[v.start..v.end] == w2
    requires |w2| >= 5
    modifies line
    ensures u.start == path.start <= path.end <= u.end && u.start <= query.start <= query.end <= u.end
    ensures path.end <= query.start || query.start == query.end == u.start
    ensures line[m.start..m.end] == UpperAll(w0)
    ensures line[path.start..path.end] == Decoded(SplitQuery(w1).0)
    ensures line[query.start..query.end] == SplitQuery(w1).1
    ensures line[v.start + 5..v.end] == w2[5..]
  {
    UppercaseMethod(line, m, u, v, w0, w1, w2);
    ghost var s1 := line[..];
    path, query := DecodePath(line, u);
    ghost var s2 := line[..];
    UntouchedSpans(s1, s2, u.start, u.end, m, Headers.Span(v.start + 5, v.end));
    assert line[m.start..m.end] == s2[m.start..m.end] == s1[m.start..m.end];
    assert line[v.start + 5..v.end] == s2[v.start + 5..v.end] == s1[v.start + 5..v.end];
  }

  /** `method.make_ascii_uppercase()`, with what it leaves of the three words. */
  method UppercaseMethod(line: array<byte>, m: Headers.Span, u: Headers.Span, v: Headers.Span,
                         ghost w0: seq<byte>, ghost w1: seq<byte>, ghost w2: seq<byte>)
    requires m.start <= m.end < u.start <= u.end < v.start <= v.end <= line.Length
    requires line[m.start..m.end] == w0 && line[u.start..u.end] == w1 && line[v.start..v.end] == w2
    requires |w2| >= 5
    modifies line
    ensures line[m.start..m.end] == UpperAll(w0) && line[u.start..u.end] == w1
    ensures line[v.start + 5..v.end] == w2[5..]
  {
    ghost var s0 := line[..];
    MakeAsciiUppercase(line, m.start, m.end);
    Headers.UppercasedSpans(s0, line[..], m, u, v, w0, w1, w2);
  }

  /**
   * The checks that end `RequestLine::parse`, in the source's order: the
   * decoded path, the method and the version must be UTF-8, and the query
   * string is decoded and marked in place.
   */
  method ParseParts(line: array<byte>, m: Headers.Span, path: Headers.Span, query: Headers.Span, v: Headers.Span,
                    ghost w0: seq<byte>, ghost w1: seq<byte>, ghost w2: seq<byte>)
    returns (r: Result<RequestLine, RequestError>)
    requires m.start <= m.end <= path.start <= path.end <= v.start <= v.end <= line.Length
    requires path.start <= query.start <= query.end <= v.start
    requires path.end <= query.start || query.start == query.end == path.start
    requires m.end <= query.start
    requires |w2| >= 5
    requires line[m.start..m.end] == UpperAll(w0)
    requires line[path.start..path.end] == Decoded(SplitQuery(w1).0)
    requires line[query.start..query.end] == SplitQuery(w1).1
    requires line[v.start..v.end] == w2[5..]
    modifies line
    ensures r.Err? <==> ParseWords(w0, w1, w2).Err?
    ensures r.Err? ==> r.error == ParseWords(w0, w1, w2).error && r.error != InvalidRequestLine
    ensures r.Ok? ==> Holds(line[..], r.value, ParseWords(w0, w1, w2).value)
  {
    var uriText := SliceToStr(line[path.start..path.end]);
    if uriText.Err? {
      return Err(uriText.error);
    }
    var methodText := SliceToStr(line[m.start..m.end]);
    if methodText.Err? {
      return Err(methodText.error);
    }
    ghost var s2 := line[..];
    var params := DecodeAndCreate(line, query.start, query.end);
    if params.Err? {
      return Err(params.error);
    }
    UntouchedSpans(s2, line[..], query.start, query.end, m, v);
    UntouchedSpan(s2, line[..], query.start, query.end, path);
    var versionText := SliceToStr(line[v.start..v.end]);
    if versionText.Err? {
      return Err(versionText.error);
    }
    return Ok(RequestLine(m, path, v, params.value));
  }

  /** A change confined to `[lo, hi)` leaves a span before or after it as it was. */
  lemma UntouchedSpan(before: seq<byte>, after: seq<byte>, lo: nat, hi: nat, x: Headers.Span)
    requires lo <= hi <= |before| == |after| && x.start <= x.end <= |before|
    requires after[..lo] == before[..lo] && after[hi..] == before[hi..]
    requires x.end <= lo || hi <= x.start
    ensures after[x.start..x.end] == before[x.start..x.end]
  {
    forall k | x.start <= k < x.end ensures after[k] == before[k] {
      if x.end <= lo {
        assert after[k] == after[..lo][k] && before[k] == before[..lo][k];
      } else {
        assert after[k] == after[hi..][k - hi] && before[k] == before[hi..][k - hi];
      }
    }
  }

  /** The method before and the version after a change confined to the URI stay as they were. */
  lemma UntouchedSpans(before: seq<byte>, after: seq<byte>, lo: nat, hi: nat, m: Headers.Span, v: Headers.Span)
    requires lo <= hi <= |before| == |after| && m.start <= m.end <= lo && hi <= v.start <= v.end <= |before|
    requires after[..lo] == before[..lo] && after[hi..] == before[hi..]
    ensures after[m.start..m.end] == before[m.start..m.end]
    ensures after[v.start..v.end] == before[v.start..v.end]
  {
    UntouchedSpan(before, after, lo, hi, m);
    UntouchedSpan(before, after, lo, hi, v);
  }
}
