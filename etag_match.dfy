/**
 * `ETagMatch::parse` (src/http/headers/etag_match.rs): the value of an
 * If-None-Match header field (section 3.2 of RFC 7232) is trimmed of
 * spaces and tabs, then of double quotes, and read as `*` or as one
 * entity tag.
 */
module ETagMatches {
  import opened Wrappers
  import opened Bytes
  import opened Errors
  import opened HttpStr

  const QUOTE: byte := 0x22
  const STAR: byte := 0x2A

  /** The byte the second trim removes, `"`. */
  predicate IsQuote(b: byte)
  {
    b == QUOTE
  }

  /** `ETagMatch`: a single entity tag, or `*`. */
  datatype ETagMatch = ETag(tag: seq<byte>) | Any

  /** What is left of a value after trimming whitespace, then quotes, from both ends. */
  function Unquoted(value: seq<byte>): seq<byte>
  {
    Trim(Trim(value, IsWhitespace), IsQuote)
  }

  /**
   * `ETagMatch::parse`: `*` (with or without quotes) matches any tag;
   * anything else is one tag, which must be UTF-8 text.
   */
  function ParseETagMatch(value: seq<byte>): (r: Result<ETagMatch, RequestError>)
    ensures r == Ok(Any) <==> Unquoted(value) == [STAR]
    ensures r.Err? <==> !IsUtf8(Unquoted(value))
    ensures r.Err? ==> r.error == InvalidEncoding
    ensures r.Ok? && r.value.ETag? ==> r.value.tag == Unquoted(value) && r.value.tag != [STAR]
  {
    var v := Unquoted(value);
    if v == [STAR] then
      assert IsUtf8(v);
      Ok(Any)
    else
      match SliceToStr(v)
      case Ok(t) => Ok(ETag(t))
      case Err(e) => Err(e)
  }

  /** Both trims remove ASCII bytes only. */
  lemma TrimmedBytesAreAscii()
    ensures forall b: byte :: IsWhitespace(b) ==> b <= 0x7F
    ensures forall b: byte :: IsQuote(b) ==> b <= 0x7F
  {
  }

  /** Parsing never fails on a UTF-8 value: trimming ASCII bytes keeps text UTF-8. */
  lemma Utf8NeverFails(value: seq<byte>)
    requires IsUtf8(value)
    ensures ParseETagMatch(value).Ok?
  {
    TrimmedBytesAreAscii();
    TrimKeepsUtf8(value, IsWhitespace);
    TrimKeepsUtf8(Trim(value, IsWhitespace), IsQuote);
  }

  /** A tag between quotes starts and ends with neither whitespace nor, when there are no quotes, a quote. */
  lemma QuotedEnds(q1: seq<byte>, tag: seq<byte>, q2: seq<byte>)
    requires forall i :: 0 <= i < |q1| ==> IsQuote(q1[i])
    requires forall i :: 0 <= i < |q2| ==> IsQuote(q2[i])
    requires tag != [] && !IsWhitespace(tag[0]) && !IsWhitespace(tag[|tag| - 1])
    ensures var quoted := q1 + tag + q2;
      quoted != [] && !IsWhitespace(quoted[0]) && !IsWhitespace(quoted[|quoted| - 1])
  {
    var quoted := q1 + tag + q2;
    assert quoted[0] == if q1 == [] then tag[0] else q1[0];
    assert quoted[|quoted| - 1] == if q2 == [] then tag[|tag| - 1] else q2[|q2| - 1];
  }

  /**
   * Whitespace around quotes around a tag: what is left is the tag,
   * provided it neither starts nor ends with a quote or whitespace.
   */
  lemma UnquotedOf(ws1: seq<byte>, q1: seq<byte>, tag: seq<byte>, q2: seq<byte>, ws2: seq<byte>)
    requires forall i :: 0 <= i < |ws1| ==> IsWhitespace(ws1[i])
    requires forall i :: 0 <= i < |ws2| ==> IsWhitespace(ws2[i])
    requires forall i :: 0 <= i < |q1| ==> IsQuote(q1[i])
    requires forall i :: 0 <= i < |q2| ==> IsQuote(q2[i])
    requires tag != [] && !IsQuote(tag[0]) && !IsQuote(tag[|tag| - 1])
    requires !IsWhitespace(tag[0]) && !IsWhitespace(tag[|tag| - 1])
    ensures Unquoted(ws1 + (q1 + tag + q2) + ws2) == tag
  {
    QuotedEnds(q1, tag, q2);
    TrimKeepsMiddle(ws1, q1 + tag + q2, ws2, IsWhitespace);
    TrimKeepsMiddle(q1, tag, q2, IsQuote);
  }

  const Star: seq<byte> := [STAR]
  const QuotedStar: seq<byte> := [QUOTE, STAR, QUOTE]
  const PaddedStar: seq<byte> := [0x20, QUOTE, STAR, QUOTE, 0x09]
  const WeakTag: seq<byte> := [0x57, 0x2F, QUOTE, 0x78, QUOTE]
  const WeakTagKept: seq<byte> := [0x57, 0x2F, QUOTE, 0x78]

  /** The examples below, as whitespace around quotes around a tag. */
  lemma ExampleLayouts()
    ensures Star == [] + ([] + Star + []) + []
    ensures QuotedStar == [] + ([QUOTE] + Star + [QUOTE]) + []
    ensures PaddedStar == [0x20] + ([QUOTE] + Star + [QUOTE]) + [0x09]
    ensures WeakTag == [] + ([] + WeakTagKept + [QUOTE]) + []
  {
  }

  /** `*` matches any tag. */
  lemma StarExample()
    ensures ParseETagMatch(Star) == Ok(Any)
  {
    ExampleLayouts();
    UnquotedOf([], [], Star, [], []);
  }

  /** `"*"` matches any tag: the quotes are trimmed before the comparison. */
  lemma QuotedStarExample()
    ensures ParseETagMatch(QuotedStar) == Ok(Any)
  {
    ExampleLayouts();
    UnquotedOf([], [QUOTE], Star, [QUOTE], []);
  }

  /** ` "*"` followed by a tab matches any tag: whitespace goes first, then the quotes. */
  lemma PaddedStarExample()
    ensures ParseETagMatch(PaddedStar) == Ok(Any)
  {
    ExampleLayouts();
    UnquotedOf([0x20], [QUOTE], Star, [QUOTE], [0x09]);
  }

  /** `W/"x"` (a weak tag, section 2.3 of RFC 7232): only the closing quote goes, giving the tag `W/"x`. */
  lemma WeakTagExample()
    ensures ParseETagMatch(WeakTag) == Ok(ETag(WeakTagKept))
  {
    ExampleLayouts();
    UnquotedOf([], [], WeakTagKept, [QUOTE], []);
    WeakTagKeptIsText();
  }

  lemma WeakTagKeptIsText()
    ensures IsUtf8(WeakTagKept)
  {
    AsciiIsUtf8(WeakTagKept);
  }
}
