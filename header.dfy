/**
 * `Header::from_raw` (src/http/headers/header.rs): a raw header, whose
 * name is already normalised, becomes one of the known header fields by
 * an exact match on that name; any other name is kept as it is.
 */
module HttpHeaders {
  import opened Wrappers
  import opened Bytes
  import opened Errors
  import opened HttpStr
  import opened ETagMatches
  import UrlDecode

  /** `Header`: the known fields carry their parsed value, `Other` the raw name and value. */
  datatype Header =
    | Host(host: seq<byte>)
    | ContentLength(length: nat)
    | ContentType(mimeType: seq<byte>)
    | Authorization(authorization: seq<byte>)
    | Referer(referer: seq<byte>)
    | Range(range: seq<byte>)
    | Other(name: seq<byte>, value: seq<byte>)
    | IfNoneMatch(condition: ETagMatch)

  const U64_MAX: nat := 0xFFFF_FFFF_FFFF_FFFF
  const MINUS: byte := 0x2D

  predicate IsDigit(b: byte)
  {
    0x30 <= b <= 0x39
  }

  predicate AllDigits(d: seq<byte>)
  {
    forall i :: 0 <= i < |d| ==> IsDigit(d[i])
  }

  /** The number that decimal digits spell, most significant first. */
  function DigitsValue(d: seq<byte>): nat
    requires AllDigits(d)
  {
    if d == [] then 0 else DigitsValue(d[..|d| - 1]) * 10 + (d[|d| - 1] - 0x30)
  }

  /**
   * `parse_u64` (`u64::from_str`): an optional leading `+`, then at least
   * one decimal digit and nothing else, spelling a number below 2^64; any
   * other text is `InvalidHeader`.
   */
  function ParseU64(s: seq<byte>): (r: Result<nat, RequestError>)
    ensures r.Ok? ==> r.value <= U64_MAX
    ensures r.Err? ==> r.error == InvalidHeader
  {
    var digits := if s != [] && s[0] == UrlDecode.PLUS then s[1..] else s;
    if digits == [] || !AllDigits(digits) || DigitsValue(digits) > U64_MAX then Err(InvalidHeader)
    else Ok(DigitsValue(digits))
  }

  /** `n` in decimal, without leading zeros. */
  function Decimal(n: nat): (r: seq<byte>)
    ensures r != [] && AllDigits(r)
  {
    if n < 10 then [0x30 + n] else Decimal(n / 10) + [0x30 + n % 10]
  }

  /** Reading back the decimal form of `n` gives `n`. */
  lemma {:induction false} DecimalValue(n: nat)
    ensures DigitsValue(Decimal(n)) == n
  {
    if n >= 10 {
      DecimalValue(n / 10);
      var d := Decimal(n);
      assert d[..|d| - 1] == Decimal(n / 10);
    }
  }

  /**
   * `parse_u64` accepts every number that fits in 64 bits in decimal, with
   * or without a `+`, and refuses the first one that does not fit.
   */
  lemma ParseDecimal(n: nat)
    ensures n <= U64_MAX ==> ParseU64(Decimal(n)) == Ok(n)
    ensures n <= U64_MAX ==> ParseU64([UrlDecode.PLUS] + Decimal(n)) == Ok(n)
    ensures n > U64_MAX ==> ParseU64(Decimal(n)) == Err(InvalidHeader)
  {
    DecimalValue(n);
    assert ([UrlDecode.PLUS] + Decimal(n))[1..] == Decimal(n);
  }

  /** A leading zero does not change the number. */
  lemma {:induction false} LeadingZero(d: seq<byte>)
    requires AllDigits(d)
    ensures AllDigits([0x30] + d) && DigitsValue([0x30] + d) == DigitsValue(d)
    decreases |d|
  {
    if d != [] {
      LeadingZero(d[..|d| - 1]);
      assert ([0x30] + d)[..|d|] == [0x30] + d[..|d| - 1];
    }
  }

  /** A sign other than `+`, or a lone `+`, is refused. */
  lemma SignsRefused(d: seq<byte>)
    ensures ParseU64([MINUS] + d).Err?
    ensures ParseU64([UrlDecode.PLUS]).Err?
  {
    assert !IsDigit(([MINUS] + d)[0]);
    assert [UrlDecode.PLUS][1..] == [];
  }

  /** `Host` */
  const HostName: seq<byte> := [0x48, 0x6F, 0x73, 0x74]
  /** `Authorization` */
  const AuthorizationName: seq<byte> := [0x41, 0x75, 0x74, 0x68, 0x6F, 0x72, 0x69, 0x7A, 0x61, 0x74, 0x69, 0x6F, 0x6E]
  /** `Referer` */
  const RefererName: seq<byte> := [0x52, 0x65, 0x66, 0x65, 0x72, 0x65, 0x72]
  /** `Content-Type` */
  const ContentTypeName: seq<byte> := [0x43, 0x6F, 0x6E, 0x74, 0x65, 0x6E, 0x74, 0x2D, 0x54, 0x79, 0x70, 0x65]
  /** `Content-Length` */
  const ContentLengthName: seq<byte> := [0x43, 0x6F, 0x6E, 0x74, 0x65, 0x6E, 0x74, 0x2D, 0x4C, 0x65, 0x6E, 0x67, 0x74, 0x68]
  /** `Range` */
  const RangeName: seq<byte> := [0x52, 0x61, 0x6E, 0x67, 0x65]
  /** `If-None-Match` */
  const IfNoneMatchName: seq<byte> := [0x49, 0x66, 0x2D, 0x4E, 0x6F, 0x6E, 0x65, 0x2D, 0x4D, 0x61, 0x74, 0x63, 0x68]

  /** The names `from_raw` knows, compared byte for byte (so case-sensitively). */
  predicate IsKnownName(name: seq<byte>)
  {
    name in {HostName, AuthorizationName, RefererName, ContentTypeName, ContentLengthName, RangeName, IfNoneMatchName}
  }

  /** `slice_to_str(value)` wrapped in a header variant. */
  function TextField(value: seq<byte>, wrap: seq<byte> -> Header): Result<Header, RequestError>
  {
    match SliceToStr(value)
    case Ok(text) => Ok(wrap(text))
    case Err(e) => Err(e)
  }

  /**
   * `Header::from_raw`: the known names parse their value (Authorization,
   * Content-Type and Range keep the text as it is, which is all their
   * parsers do); sub-parser errors propagate, so no partial header is made.
   */
  function FromRaw(name: seq<byte>, value: seq<byte>): (r: Result<Header, RequestError>)
    ensures !IsKnownName(name) ==> r == Ok(Other(name, value))
    ensures r.Ok? ==> (r.value.Other? <==> !IsKnownName(name))
  {
    if name == HostName then TextField(value, t => Host(t))
    else if name == AuthorizationName then TextField(value, t => Authorization(t))
    else if name == RefererName then TextField(value, t => Referer(t))
    else if name == ContentTypeName then TextField(value, t => ContentType(t))
    else if name == ContentLengthName then
      match SliceToStr(value)
      case Err(e) => Err(e)
      case Ok(text) =>
        match ParseU64(text)
        case Ok(n) => Ok(ContentLength(n))
        case Err(e) => Err(e)
    else if name == RangeName then TextField(value, t => Range(t))
    else if name == IfNoneMatchName then
      match ParseETagMatch(value)
      case Ok(m) => Ok(IfNoneMatch(m))
      case Err(e) => Err(e)
    else Ok(Other(name, value))
  }

  /** The seven known names are distinct. */
  lemma KnownNamesDistinct()
    ensures |HostName| == 4 && |AuthorizationName| == 13 && |RefererName| == 7
    ensures |ContentTypeName| == 12 && |ContentLengthName| == 14 && |RangeName| == 5
    ensures |IfNoneMatchName| == 13 && AuthorizationName[0] != IfNoneMatchName[0]
  {
  }

  /**
   * The text-valued headers (Host, Authorization, Referer, Content-Type,
   * Range) succeed exactly when the value is UTF-8 and then carry the
   * value; otherwise they fail with `InvalidEncoding`.
   */
  lemma TextHeaders(name: seq<byte>, value: seq<byte>)
    requires name in {HostName, AuthorizationName, RefererName, ContentTypeName, RangeName}
    ensures FromRaw(name, value).Ok? <==> IsUtf8(value)
    ensures !IsUtf8(value) ==> FromRaw(name, value) == Err(InvalidEncoding)
    ensures name == HostName && IsUtf8(value) ==> FromRaw(name, value) == Ok(Host(value))
    ensures name == RefererName && IsUtf8(value) ==> FromRaw(name, value) == Ok(Referer(value))
    ensures name == ContentTypeName && IsUtf8(value) ==> FromRaw(name, value) == Ok(ContentType(value))
    ensures name == AuthorizationName && IsUtf8(value) ==> FromRaw(name, value) == Ok(Authorization(value))
    ensures name == RangeName && IsUtf8(value) ==> FromRaw(name, value) == Ok(Range(value))
  {
    KnownNamesDistinct();
  }

  /**
   * Content-Length is UTF-8 text holding a number that `parse_u64`
   * accepts; a non-UTF-8 value is `InvalidEncoding`, any other failure
   * `InvalidHeader`.
   */
  lemma ContentLengthHeader(value: seq<byte>)
    ensures FromRaw(ContentLengthName, value).Ok? <==> IsUtf8(value) && ParseU64(value).Ok?
    ensures IsUtf8(value) && ParseU64(value).Ok? ==>
      FromRaw(ContentLengthName, value) == Ok(ContentLength(ParseU64(value).value))
    ensures !IsUtf8(value) ==> FromRaw(ContentLengthName, value) == Err(InvalidEncoding)
    ensures IsUtf8(value) && ParseU64(value).Err? ==> FromRaw(ContentLengthName, value) == Err(InvalidHeader)
  {
    KnownNamesDistinct();
  }

  /** If-None-Match goes through `ETagMatch::parse` on the raw value, which fails only on non-UTF-8 tags. */
  lemma IfNoneMatchHeader(value: seq<byte>)
    ensures FromRaw(IfNoneMatchName, value).Ok? <==> ParseETagMatch(value).Ok?
    ensures ParseETagMatch(value).Ok? ==> FromRaw(IfNoneMatchName, value) == Ok(IfNoneMatch(ParseETagMatch(value).value))
    ensures IsUtf8(value) ==> FromRaw(IfNoneMatchName, value).Ok?
  {
    KnownNamesDistinct();
    if IsUtf8(value) {
      Utf8NeverFails(value);
    }
  }

  /** `from_raw` fails only with `InvalidEncoding` or `InvalidHeader`, and the latter only for Content-Length. */
  lemma FromRawErrors(name: seq<byte>, value: seq<byte>)
    ensures FromRaw(name, value).Err? ==>
      FromRaw(name, value).error == InvalidEncoding
      || (FromRaw(name, value).error == InvalidHeader && name == ContentLengthName)
  {
  }
}
