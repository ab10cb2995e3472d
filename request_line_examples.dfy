/**
 * The examples that come with the second request-line parser
 * (src/http/headers/request_line.rs), stated on `ParseLine`.
 */
module HttpRequestLineExamples {
  import opened Wrappers
  import opened Bytes
  import opened UrlDecode
  import opened UrlParamsDecode
  import opened UrlParamsIterator
  import opened HttpRequestLine
  import UrlParamsExamples
  import Headers
  import HeadersExamples

  predicate AllAscii(s: seq<byte>)
  {
    forall i :: 0 <= i < |s| ==> s[i] <= 0x7F
  }

  /** The first `?` splits a URI whatever follows it. */
  lemma SplitQueryAt(p: seq<byte>, q: seq<byte>)
    requires QUESTION !in p
    ensures SplitQuery(p + [QUESTION] + q) == (p, q)
  {
    var u := p + [QUESTION] + q;
    assert u[|p|] == QUESTION;
    var r := SplitQuery(u);
    assert r.0 == u[..|p|] == p;
    assert r.1 == u[|p| + 1..] == q;
  }

  /**
   * A request line of ASCII words whose URI has no `%`, `+` or `?` parses
   * to its words: the method uppercased, the URI as it is, no query
   * parameters and the version after its first five bytes.
   */
  lemma PlainWords(w0: seq<byte>, w1: seq<byte>, w2: seq<byte>)
    requires |w2| >= 5 && AllAscii(w0) && AllAscii(w1) && AllAscii(w2)
    requires PERCENT !in w1 && PLUS !in w1 && QUESTION !in w1
    ensures ParseWords(w0, w1, w2) == Ok(ParsedLine(UpperAll(w0), w1, [], w2[5..]))
  {
    DecodedIdentity(w1);
    AsciiIsUtf8(w1);
    AsciiIsUtf8(UpperAll(w0));
    AsciiIsUtf8(w2[5..]);
    assert MarkParams([]) == Ok([]);
  }

  /** A line of three space-separated words parses as those words. */
  lemma LineOfWords(x: seq<byte>, m: nat, y: seq<byte>, n: nat, z: seq<byte>)
    requires x != [] && y != [] && |z| >= 5 && m > 0 && n > 0
    requires Headers.SPACE !in x && Headers.SPACE !in y && Headers.SPACE !in z
    ensures ParseLine(x + HeadersExamples.Spaces(m) + y + HeadersExamples.Spaces(n) + z) == ParseWords(x, y, z)
  {
    HeadersExamples.ThreeWords(x, m, y, n, z);
  }

  const Get: seq<byte> := [0x47, 0x45, 0x54]
  const GetLower: seq<byte> := [0x67, 0x65, 0x74]
  const Foo: seq<byte> := [0x2F, 0x66, 0x6F, 0x6F]
  const Http11: seq<byte> := [0x48, 0x54, 0x54, 0x50, 0x2F, 0x31, 0x2E, 0x31]
  const Version11: seq<byte> := [0x31, 0x2E, 0x31]

  /** `GET  /foo   HTTP/1.1`: method `GET`, URI `/foo`, version `1.1`. */
  lemma RequestLineExample()
    ensures ParseLine(Get + HeadersExamples.Spaces(2) + Foo + HeadersExamples.Spaces(3) + Http11)
         == Ok(ParsedLine(Get, Foo, [], Version11))
  {
    AsciiWords();
    FooPlain();
    LineOfWords(Get, 2, Foo, 3, Http11);
    PlainWords(Get, Foo, Http11);
    UpperGet();
  }

  lemma AsciiWords()
    ensures AllAscii(Get) && AllAscii(GetLower) && AllAscii(Foo) && AllAscii(Http11)
  {
  }

  lemma FooPlain()
    ensures PERCENT !in Foo && PLUS !in Foo && QUESTION !in Foo
    ensures Headers.SPACE !in Get && Headers.SPACE !in GetLower
    ensures Headers.SPACE !in Foo && Headers.SPACE !in Http11
  {
  }

  lemma UpperGet()
    ensures UpperAll(Get) == Get && UpperAll(GetLower) == Get && Http11[5..] == Version11
  {
  }

  /** `get /foo HTTP/1.1`: the method is uppercased to `GET`. */
  lemma LowercaseMethodExample()
    ensures ParseLine(GetLower + HeadersExamples.Spaces(1) + Foo + HeadersExamples.Spaces(1) + Http11)
         == Ok(ParsedLine(Get, Foo, [], Version11))
  {
    AsciiWords();
    FooPlain();
    LineOfWords(GetLower, 1, Foo, 1, Http11);
    PlainWords(GetLower, Foo, Http11);
    UpperGet();
  }

  const Escaped: seq<byte> := [PERCENT, 0x33, 0x46]
  const Bar: seq<byte> := [0x62, 0x61, 0x72]

  /** `%3F` decodes to `?`. */
  lemma EscapedDecodes()
    ensures Decoded(Escaped) == [QUESTION]
  {
    assert EscapeAt(Escaped, 0);
    assert DecodedFrom(Escaped, 3) == [];
  }

  /** `/foo%3F` decodes to `/foo?`. */
  lemma EscapedPathDecodes()
    ensures Decoded(Foo + Escaped) == Foo + [QUESTION]
  {
    var s := Foo + Escaped;
    EscapedDecodes();
    DecodedFromShift(Foo, Escaped, 0);
    assert DecodedFrom(s, 4) == [QUESTION];
    assert DecodedFrom(s, 3) == [0x6F, QUESTION];
    assert DecodedFrom(s, 2) == [0x6F, 0x6F, QUESTION];
    assert DecodedFrom(s, 1) == [0x66, 0x6F, 0x6F, QUESTION];
  }

  /** `%3Fbar` decodes to `?bar`. */
  lemma EscapedQueryDecodes()
    ensures Decoded(Escaped + Bar) == [QUESTION] + Bar
    ensures HasEscape(Escaped + Bar)
  {
    var s := Escaped + Bar;
    assert EscapeAt(s, 0);
    DecodedFromShift(Escaped, Bar, 0);
    DecodedIdentity(Bar);
    assert DecodedFrom(s, 3) == Bar;
  }

  /** The query string `%3Fbar` is accepted and holds the one parameter `?bar`, without a value. */
  lemma EscapedQueryParams()
    ensures MarkParams(Escaped + Bar).Ok?
    ensures DecodedParams(Escaped + Bar) == [Param([QUESTION] + Bar, [])]
  {
    var q := Escaped + Bar;
    EscapedQueryDecodes();
    UrlParamsExamples.FindAbsent(q, AMPERSAND);
    UrlParamsExamples.FindAbsent(q, ASSIGN);
    assert q[..|q|] == q;
    UrlParamsExamples.EscapedComponent(q, [QUESTION] + Bar);
  }

  const EscapedUri: seq<byte> := Foo + Escaped + [QUESTION] + Escaped + Bar

  lemma EscapedUriParts()
    ensures EscapedUri == (Foo + Escaped) + [QUESTION] + (Escaped + Bar)
    ensures EscapedUri != [] && Headers.SPACE !in EscapedUri && QUESTION !in Foo + Escaped
    ensures IsUtf8(Foo + [QUESTION]) && IsUtf8(Get) && IsUtf8(Version11)
    ensures Headers.SPACE !in Get && Headers.SPACE !in Http11
  {
    AsciiIsUtf8(Foo + [QUESTION]);
    AsciiIsUtf8(Get);
    AsciiIsUtf8(Version11);
  }

  /**
   * `GET /foo%3F?%3Fbar HTTP/1.1`: the URI is split at the raw `?` before
   * decoding, so the path is `/foo?` and the first parameter is `?bar`.
   */
  lemma EscapedQueryExample()
    ensures var r := ParseLine(Get + HeadersExamples.Spaces(1) + EscapedUri + HeadersExamples.Spaces(1) + Http11);
      && r.Ok? && r.value.uri == Foo + [QUESTION]
      && ParamsOf(r.value.querystring) == [Param([QUESTION] + Bar, [])]
  {
    EscapedUriParts();
    LineOfWords(Get, 1, EscapedUri, 1, Http11);
    SplitQueryAt(Foo + Escaped, Escaped + Bar);
    EscapedPathDecodes();
    EscapedQueryParams();
    UpperGet();
    var marked := MarkParams(Escaped + Bar).value;
    assert ParseWords(Get, EscapedUri, Http11) == Ok(ParsedLine(Get, Foo + [QUESTION], marked, Version11));
    MarkedParamsReadBack(Escaped + Bar);
  }
}
