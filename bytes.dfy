/**
 * Bytes and the byte-level predicates shared by the HTTP parsing modules:
 * the `u8` type, ASCII case mapping, searching and UTF-8 validity.
 */
module Bytes {
  import opened Wrappers

  /** A Rust `u8`. */
  type byte = x: int | 0 <= x < 256

  const NUL: byte := 0x00
  /** `&`, which separates the pairs of a query string. */
  const AMPERSAND: byte := 0x26
  /** `=`, which separates a name from its value. */
  const ASSIGN: byte := 0x3D

  /** `n` NUL bytes. */
  function Zeros(n: nat): (r: seq<byte>)
    ensures |r| == n && forall i :: 0 <= i < n ==> r[i] == NUL
  {
    if n == 0 then [] else Zeros(n - 1) + [NUL]
  }

  /** The bytes of an ASCII string literal. */
  function Ascii(s: string): (r: seq<byte>)
    requires forall i :: 0 <= i < |s| ==> s[i] as int < 256
    ensures |r| == |s| && forall i :: 0 <= i < |s| ==> r[i] == s[i] as int
  {
    if s == [] then [] else [s[0] as int as byte] + Ascii(s[1..])
  }

  /** `u8::to_ascii_uppercase`: only `a`-`z` change. */
  function ToUpper(b: byte): byte
  {
    if 0x61 <= b <= 0x7A then b - 0x20 else b
  }

  /** `u8::to_ascii_lowercase`: only `A`-`Z` change. */
  function ToLower(b: byte): byte
  {
    if 0x41 <= b <= 0x5A then b + 0x20 else b
  }

  function UpperAll(s: seq<byte>): (r: seq<byte>)
    ensures |r| == |s| && forall i :: 0 <= i < |s| ==> r[i] == ToUpper(s[i])
  {
    if s == [] then [] else [ToUpper(s[0])] + UpperAll(s[1..])
  }

  function LowerAll(s: seq<byte>): (r: seq<byte>)
    ensures |r| == |s| && forall i :: 0 <= i < |s| ==> r[i] == ToLower(s[i])
  {
    if s == [] then [] else [ToLower(s[0])] + LowerAll(s[1..])
  }

  /** `make_ascii_uppercase` on the slice `a[lo..hi]`. */
  method MakeAsciiUppercase(a: array<byte>, lo: nat, hi: nat)
    requires lo <= hi <= a.Length
    modifies a
    ensures forall k :: 0 <= k < a.Length ==> a[k] == if lo <= k < hi then ToUpper(old(a[k])) else old(a[k])
  {
    for i := lo to hi
      invariant forall k :: 0 <= k < a.Length ==> a[k] == if lo <= k < i then ToUpper(old(a[k])) else old(a[k])
    {
      a[i] := ToUpper(a[i]);
    }
  }

  /** `make_ascii_lowercase` on the slice `a[lo..hi]`. */
  method MakeAsciiLowercase(a: array<byte>, lo: nat, hi: nat)
    requires lo <= hi <= a.Length
    modifies a
    ensures forall k :: 0 <= k < a.Length ==> a[k] == if lo <= k < hi then ToLower(old(a[k])) else old(a[k])
  {
    for i := lo to hi
      invariant forall k :: 0 <= k < a.Length ==> a[k] == if lo <= k < i then ToLower(old(a[k])) else old(a[k])
    {
      a[i] := ToLower(a[i]);
    }
  }

  /** `s[at..]` starts with `pat`. */
  predicate MatchesAt(s: seq<byte>, pat: seq<byte>, at: nat)
  {
    at + |pat| <= |s| && s[at..at + |pat|] == pat
  }

  /** Matching a one-byte pattern is comparing one byte. */
  lemma MatchesAtByte(s: seq<byte>, b: byte, at: nat)
    ensures MatchesAt(s, [b], at) <==> at < |s| && s[at] == b
  {
    if at < |s| {
      assert s[at..at + 1] == [s[at]];
    }
  }

  /**
   * The first index at or after `from` where `pat` occurs, the search that
   * `slice.windows(pat.len()).position(|w| w == pat)` performs on `s[from..]`
   * (offset by `from`).
   */
  function FindFrom(s: seq<byte>, pat: seq<byte>, from: nat): (r: Option<nat>)
    requires |pat| > 0
    ensures r.Some? ==> from <= r.value && MatchesAt(s, pat, r.value)
    ensures r.Some? ==> forall j :: from <= j < r.value ==> !MatchesAt(s, pat, j)
    ensures r.None? ==> forall j :: from <= j ==> !MatchesAt(s, pat, j)
    decreases |s| - from
  {
    if from + |pat| > |s| then None
    else if s[from..from + |pat|] == pat then Some(from)
    else FindFrom(s, pat, from + 1)
  }

  /** The first index of `pat` in `s`. */
  function Find(s: seq<byte>, pat: seq<byte>): (r: Option<nat>)
    requires |pat| > 0
    ensures r.Some? ==> MatchesAt(s, pat, r.value) && forall j :: 0 <= j < r.value ==> !MatchesAt(s, pat, j)
    ensures r.None? ==> forall j :: 0 <= j ==> !MatchesAt(s, pat, j)
  {
    FindFrom(s, pat, 0)
  }

  /** Searching for one byte finds its first occurrence, and finds nothing exactly when it does not occur. */
  lemma FindByte(s: seq<byte>, b: byte)
    ensures Find(s, [b]).None? <==> b !in s
    ensures Find(s, [b]).Some? ==> s[Find(s, [b]).value] == b && b !in s[..Find(s, [b]).value]
  {
    forall k | 0 <= k < |s| ensures MatchesAt(s, [b], k) <==> s[k] == b {
      MatchesAtByte(s, b, k);
    }
    if Find(s, [b]).Some? {
      MatchesAtByte(s, b, Find(s, [b]).value);
    }
  }

  /** The first index of byte `b` in `s`. */
  function IndexOf(s: seq<byte>, b: byte): (r: Option<nat>)
    ensures r.Some? ==> r.value < |s| && s[r.value] == b && b !in s[..r.value]
    ensures r.None? <==> b !in s
  {
    if s == [] then None
    else if s[0] == b then Some(0)
    else match IndexOf(s[1..], b)
      case None => None
      case Some(i) => assert s[1..][..i] == s[1..i + 1]; Some(i + 1)
  }

  /** The last index of byte `b` in `s` (`rposition`). */
  function LastIndexOf(s: seq<byte>, b: byte): (r: Option<nat>)
    ensures r.Some? ==> r.value < |s| && s[r.value] == b && b !in s[r.value + 1..]
    ensures r.None? <==> b !in s
  {
    if s == [] then None
    else if s[|s| - 1] == b then Some(|s| - 1)
    else
      var r := LastIndexOf(s[..|s| - 1], b);
      assert r.Some? ==> s[r.value + 1..] == s[..|s| - 1][r.value + 1..] + [s[|s| - 1]];
      assert s == s[..|s| - 1] + [s[|s| - 1]];
      r
  }

  /** The last index of `b` is the one after which `b` no longer occurs. */
  lemma {:induction false} LastIndexOfAt(s: seq<byte>, b: byte, i: nat)
    requires i < |s| && s[i] == b && b !in s[i + 1..]
    ensures LastIndexOf(s, b) == Some(i)
  {
    if i < |s| - 1 {
      assert s[|s| - 1] == s[i + 1..][|s| - i - 2];
      var init := s[..|s| - 1];
      assert init[i + 1..] == s[i + 1..|s| - 1];
      LastIndexOfAt(init, b, i);
    }
  }

  predicate InRange(b: byte, lo: byte, hi: byte) { lo <= b <= hi }

  /** A UTF-8 continuation byte, UTF8-tail of section 4 of RFC 3629. */
  predicate Tail(b: byte) { InRange(b, 0x80, 0xBF) }

  /**
   * Well-formed UTF-8, the grammar UTF8-octets of section 4 of RFC 3629, the
   * check that `str::from_utf8` performs.
   */
  predicate IsUtf8(s: seq<byte>)
    decreases |s|
  {
    if s == [] then true
    else if s[0] <= 0x7F then IsUtf8(s[1..])
    else if InRange(s[0], 0xC2, 0xDF) then
      |s| >= 2 && Tail(s[1]) && IsUtf8(s[2..])
    else if s[0] == 0xE0 then
      |s| >= 3 && InRange(s[1], 0xA0, 0xBF) && Tail(s[2]) && IsUtf8(s[3..])
    else if InRange(s[0], 0xE1, 0xEC) || InRange(s[0], 0xEE, 0xEF) then
      |s| >= 3 && Tail(s[1]) && Tail(s[2]) && IsUtf8(s[3..])
    else if s[0] == 0xED then
      |s| >= 3 && InRange(s[1], 0x80, 0x9F) && Tail(s[2]) && IsUtf8(s[3..])
    else if s[0] == 0xF0 then
      |s| >= 4 && InRange(s[1], 0x90, 0xBF) && Tail(s[2]) && Tail(s[3]) && IsUtf8(s[4..])
    else if InRange(s[0], 0xF1, 0xF3) then
      |s| >= 4 && Tail(s[1]) && Tail(s[2]) && Tail(s[3]) && IsUtf8(s[4..])
    else if s[0] == 0xF4 then
      |s| >= 4 && InRange(s[1], 0x80, 0x8F) && Tail(s[2]) && Tail(s[3]) && IsUtf8(s[4..])
    else false
  }

  /** Every ASCII sequence is UTF-8. */
  lemma {:induction false} AsciiIsUtf8(s: seq<byte>)
    requires forall i :: 0 <= i < |s| ==> s[i] <= 0x7F
    ensures IsUtf8(s)
  {
    if s != [] { AsciiIsUtf8(s[1..]); }
  }

  /** How many bytes the UTF-8 character that `b` starts spans; 0 for a byte that starts none. */
  function CharLen(b: byte): nat
  {
    if b <= 0x7F then 1
    else if InRange(b, 0xC2, 0xDF) then 2
    else if InRange(b, 0xE0, 0xEF) then 3
    else if InRange(b, 0xF0, 0xF4) then 4
    else 0
  }

  /** The first character of UTF-8 text: its length, its non-ASCII later bytes and the UTF-8 rest. */
  lemma FirstChar(s: seq<byte>)
    requires IsUtf8(s) && s != []
    ensures 1 <= CharLen(s[0]) <= |s| && IsUtf8(s[CharLen(s[0])..])
    ensures forall j :: 1 <= j < CharLen(s[0]) ==> s[j] > 0x7F
  {
  }

  /** Text that starts with the same character as UTF-8 text, and goes on as UTF-8, is UTF-8. */
  lemma SameFirstChar(s: seq<byte>, t: seq<byte>, k: nat)
    requires IsUtf8(s) && s != [] && k == CharLen(s[0]) && k <= |t|
    requires forall j :: 0 <= j < k ==> s[j] == t[j]
    requires IsUtf8(t[k..])
    ensures IsUtf8(t)
  {
    FirstChar(s);
  }

  /** A character that starts in `x` ends in `x` when `y` is ASCII. */
  lemma CharBeforeAscii(x: seq<byte>, y: seq<byte>)
    requires IsUtf8(x + y) && x != [] && forall i :: 0 <= i < |y| ==> y[i] <= 0x7F
    ensures 1 <= CharLen((x + y)[0]) <= |x| && IsUtf8((x + y)[CharLen((x + y)[0])..])
  {
    var s := x + y;
    FirstChar(s);
  }

  /** Dropping a prefix of the first part of a concatenation. */
  lemma DropConcat(x: seq<byte>, y: seq<byte>, k: nat)
    requires k <= |x|
    ensures (x + y)[k..] == x[k..] + y
  {
  }

  /** UTF-8 text stays UTF-8 when ASCII bytes are cut off its end. */
  lemma {:induction false} Utf8WithoutAsciiSuffix(x: seq<byte>, y: seq<byte>)
    requires IsUtf8(x + y) && forall i :: 0 <= i < |y| ==> y[i] <= 0x7F
    ensures IsUtf8(x)
    decreases |x|
  {
    if x != [] {
      var s := x + y;
      CharBeforeAscii(x, y);
      var k := CharLen(s[0]);
      DropConcat(x, y, k);
      Utf8WithoutAsciiSuffix(x[k..], y);
      SameFirstChar(s, x, k);
    }
  }

  /** UTF-8 text stays UTF-8 when ASCII bytes are cut off its start. */
  lemma {:induction false} Utf8WithoutAsciiPrefix(x: seq<byte>, y: seq<byte>)
    requires IsUtf8(x + y) && forall i :: 0 <= i < |x| ==> x[i] <= 0x7F
    ensures IsUtf8(y)
    decreases |x|
  {
    if x != [] {
      assert (x + y)[1..] == x[1..] + y;
      Utf8WithoutAsciiPrefix(x[1..], y);
    } else {
      assert x + y == y;
    }
  }

  /** UTF-8 text without an ASCII prefix of it is UTF-8. */
  lemma Utf8AfterAscii(s: seq<byte>, a: nat)
    requires a <= |s| && IsUtf8(s)
    requires forall i :: 0 <= i < a ==> s[i] <= 0x7F
    ensures IsUtf8(s[a..])
  {
    assert s == s[..a] + s[a..];
    Utf8WithoutAsciiPrefix(s[..a], s[a..]);
  }

  /** UTF-8 text without an ASCII suffix of it is UTF-8. */
  lemma Utf8BeforeAscii(s: seq<byte>, b: nat)
    requires b <= |s| && IsUtf8(s)
    requires forall i :: b <= i < |s| ==> s[i] <= 0x7F
    ensures IsUtf8(s[..b])
  {
    assert s == s[..b] + s[b..];
    Utf8WithoutAsciiSuffix(s[..b], s[b..]);
  }

  /** The part of UTF-8 text between an ASCII start and an ASCII end is UTF-8. */
  lemma Utf8Middle(s: seq<byte>, a: nat, b: nat)
    requires a <= b <= |s| && IsUtf8(s)
    requires forall i :: 0 <= i < a ==> s[i] <= 0x7F
    requires forall i :: b <= i < |s| ==> s[i] <= 0x7F
    ensures IsUtf8(s[a..b])
  {
    Utf8BeforeAscii(s, b);
    var front := s[..b];
    Utf8AfterAscii(front, a);
    assert front[a..] == s[a..b];
  }

  /** Two buffers that agree below `m` agree on every slice below `m`. */
  lemma SamePrefix(x: seq<byte>, y: seq<byte>, m: nat, i: nat, j: nat)
    requires |x| == |y| && i <= j <= m <= |x| && x[..m] == y[..m]
    ensures x[i..j] == y[i..j] && x[..j] == y[..j]
  {
    forall k | 0 <= k < m ensures x[k] == y[k] {
      assert x[k] == x[..m][k];
    }
  }

  /** Two buffers that agree from `m` on agree on every slice from `m` on. */
  lemma SameSuffix(x: seq<byte>, y: seq<byte>, m: nat, i: nat, j: nat)
    requires |x| == |y| && m <= i <= j <= |x| && x[m..] == y[m..]
    ensures x[i..j] == y[i..j] && x[i..] == y[i..]
  {
    forall k | m <= k < |x| ensures x[k] == y[k] {
      assert x[k] == x[m..][k - m];
    }
  }
}
