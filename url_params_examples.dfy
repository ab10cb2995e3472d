/**
 * The examples that come with the query-string code
 * (src/http/url_params/decode.rs and src/http/url_params/iterator.rs),
 * stated on the marking and reading functions.
 */
module UrlParamsExamples {
  import opened Wrappers
  import opened Bytes
  import opened Errors
  import opened UrlDecode
  import opened HttpStr
  import opened UrlParamsDecode
  import opened UrlParamsIterator

  /** A byte that does not occur is not found. */
  lemma FindAbsent(s: seq<byte>, b: byte)
    requires b !in s
    ensures Find(s, [b]).None?
  {
    forall j | 0 <= j ensures !MatchesAt(s, [b], j) {
      MatchesAtByte(s, b, j);
    }
  }

  /** The first occurrence of a byte is found. */
  lemma FindFirst(s: seq<byte>, b: byte, i: nat)
    requires i < |s| && s[i] == b && b !in s[..i]
    ensures Find(s, [b]) == Some(i)
  {
    forall j | 0 <= j < i ensures !MatchesAt(s, [b], j) {
      MatchesAtByte(s, b, j);
      assert s[j] == s[..i][j];
    }
    MatchesAtByte(s, b, i);
  }

  /** Decoding an escape: its byte, then the rest after its three bytes. */
  lemma DecodedEscape(s: seq<byte>, r: nat, b: byte)
    requires r + 2 < |s| && s[r] == PERCENT && HexToByte(s[r + 1], s[r + 2]) == Some(b)
    ensures DecodedFrom(s, r) == [b] + DecodedFrom(s, r + 3)
  {
  }

  /** Turning `+` into spaces keeps ASCII text ASCII and adds no NUL. */
  lemma PlusToSpaceAscii(c: seq<byte>)
    requires NUL !in c
    requires forall i :: 0 <= i < |c| ==> c[i] <= 0x7F
    ensures NUL !in PlusToSpace(c) && IsUtf8(PlusToSpace(c))
  {
    AsciiIsUtf8(PlusToSpace(c));
  }

  /** A component with neither `%` nor NUL, all ASCII, is marked by turning `+` into spaces. */
  lemma PlainComponent(c: seq<byte>)
    requires PERCENT !in c && NUL !in c
    requires forall i :: 0 <= i < |c| ==> c[i] <= 0x7F
    ensures MarkComponent(c) == Ok(PlusToSpace(c))
  {
    DecodedWithoutEscape(c);
    PlusToSpaceAscii(c);
    MarkedWithoutEscape(c, PlusToSpace(c));
  }

  /** A component without an escape whose decoding `d` passes validation is marked as `d`. */
  lemma MarkedWithoutEscape(c: seq<byte>, d: seq<byte>)
    requires !HasEscape(c) && Decoded(c) == d && NUL !in d && IsUtf8(d)
    ensures MarkComponent(c) == Ok(d)
  {
    DecodedLength(c);
  }

  /** A component with an escape whose ASCII decoding `d` holds no NUL. */
  lemma EscapedComponent(c: seq<byte>, d: seq<byte>)
    requires HasEscape(c) && Decoded(c) == d && NUL !in d
    requires forall i :: 0 <= i < |d| ==> d[i] <= 0x7F
    ensures MarkComponent(c) == Ok(Padded([NUL] + d, |c|))
  {
    AsciiIsUtf8(d);
  }

  /** `+=%3d`, a pair whose value has an escape. */
  const ExamplePair: seq<byte> := [PLUS, ASSIGN, PERCENT, 0x33, 0x64]
  /** ` =\0=\0`, what marking makes of `ExamplePair`. */
  const ExamplePairMarked: seq<byte> := [SPACE, ASSIGN, NUL, ASSIGN, NUL]

  /**
   * `+=%3d`: the name has no escape and only turns `+` into a space; the
   * value has one, so it becomes NUL, the decoded `=` and NUL padding.
   */
  lemma MarkPairExample()
    ensures MarkPair(ExamplePair) == Ok(ExamplePairMarked)
  {
    var p := ExamplePair;
    FindFirst(p, ASSIGN, 1);
    assert p[..1] == [PLUS];
    assert p[2..] == [PERCENT, 0x33, 0x64];
    PlainComponent([PLUS]);
    assert PlusToSpace([PLUS]) == [SPACE];
    var v: seq<byte> := [PERCENT, 0x33, 0x64];
    DecodedEscape(v, 0, ASSIGN);
    assert Decoded(v) == [ASSIGN];
    assert EscapeAt(v, 0);
    EscapedComponent(v, [ASSIGN]);
    assert Zeros(1) == [NUL];
    assert Padded([NUL] + [ASSIGN], 3) == [NUL, ASSIGN, NUL];
    assert TrySplitTwo(p, [ASSIGN]) == (1, Some(2));
    assert MarkComponent(p[..1]) == Ok([SPACE]);
    assert MarkComponent(p[2..]) == Ok([NUL, ASSIGN, NUL]);
    assert [SPACE] + [ASSIGN] + [NUL, ASSIGN, NUL] == ExamplePairMarked;
  }

  /** Two pairs joined by `&` are marked each on its own, with the `&` kept. */
  lemma TwoPairs(x: seq<byte>, y: seq<byte>)
    requires AMPERSAND !in x && AMPERSAND !in y && y != []
    requires MarkPair(x).Ok? && MarkPair(y).Ok?
    ensures MarkParams(x + [AMPERSAND] + y) == Ok(MarkPair(x).value + [AMPERSAND] + MarkPair(y).value)
  {
    var q := x + [AMPERSAND] + y;
    assert q[..|x|] == x && q[|x| + 1..] == y;
    FindFirst(q, AMPERSAND, |x|);
    FindAbsent(y, AMPERSAND);
    MarkPiecesAt(q, |x|, MarkPair);
  }

  /** `+=%3d&+=%3d`: each pair is marked on its own and the `&` stays. */
  lemma MarkParamsExample()
    ensures MarkParams(ExamplePair + [AMPERSAND] + ExamplePair)
         == Ok(ExamplePairMarked + [AMPERSAND] + ExamplePairMarked)
  {
    MarkPairExample();
    assert AMPERSAND !in ExamplePair;
    TwoPairs(ExamplePair, ExamplePair);
  }

  /** A query string that is a single NUL is refused. */
  lemma NulParamsExample()
    ensures MarkParams([NUL]) == Err(UrlEncodedNul)
  {
    MarkParamsRefusesNul([NUL]);
  }

  /** `%00` is refused: its decoding is a NUL. */
  lemma EscapedNulParamsExample()
    ensures MarkParams([PERCENT, 0x30, 0x30]) == Err(UrlEncodedNul)
  {
    var q: seq<byte> := [PERCENT, 0x30, 0x30];
    FindAbsent(q, AMPERSAND);
    FindAbsent(q, ASSIGN);
    assert q[..|q|] == q;
    DecodedEscape(q, 0, NUL);
    assert Decoded(q) == [NUL];
    MarkComponentSpec(q);
  }

  /** The pair that `+=%3d` stands for: a space named, `=` as its value. */
  lemma ExamplePairOf()
    ensures PairOf(ExamplePair) == Param([SPACE], [ASSIGN])
  {
    var p := ExamplePair;
    FindFirst(p, ASSIGN, 1);
    assert TrySplitTwo(p, [ASSIGN]) == (1, Some(2));
    assert p[..1] == [PLUS] && p[2..] == [PERCENT, 0x33, 0x64];
    DecodedWithoutEscape([PLUS]);
    assert PlusToSpace([PLUS]) == [SPACE];
    DecodedEscape([PERCENT, 0x33, 0x64], 0, ASSIGN);
  }

  /** Two pieces joined by `&` stand for their two pairs. */
  lemma TwoPairsDecoded(x: seq<byte>, y: seq<byte>)
    requires AMPERSAND !in x && AMPERSAND !in y && y != []
    ensures DecodedParams(x + [AMPERSAND] + y) == [PairOf(x), PairOf(y)]
  {
    var q := x + [AMPERSAND] + y;
    assert q[..|x|] == x && q[|x| + 1..] == y;
    FindFirst(q, AMPERSAND, |x|);
    FindAbsent(y, AMPERSAND);
  }

  /**
   * Reading `+=%3d&+=%3d` back after marking yields its two pairs, the `=`
   * in each value kept as text.
   */
  lemma ReadBackExample()
    ensures ParamsOf(ExamplePairMarked + [AMPERSAND] + ExamplePairMarked)
         == [Param([SPACE], [ASSIGN]), Param([SPACE], [ASSIGN])]
  {
    MarkParamsExample();
    MarkedParamsReadBack(ExamplePair + [AMPERSAND] + ExamplePair);
    assert AMPERSAND !in ExamplePair;
    TwoPairsDecoded(ExamplePair, ExamplePair);
    ExamplePairOf();
  }
}
