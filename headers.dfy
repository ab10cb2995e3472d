/**
 * The first request parser (src/headers.rs): the request line split into
 * method, URI and version, a header line split into a Title-Cased name and
 * a value, both in place over a mutable `str`, and the header/body
 * splitter's `update`. A `str` is its UTF-8 bytes; the parts a parser
 * returns are spans of the line it was given.
 */
module Headers {
  import opened Wrappers
  import opened Bytes
  import opened Errors
  import opened Split
  import opened HttpStr
  import HeaderBodySplitter

  const SPACE: byte := 0x20
  const COLON: byte := 0x3A
  const HYPHEN: byte := 0x2D

  /** The bytes `start..end` of a line. */
  datatype Span = Span(start: nat, end: nat)

  /** The pieces of a split that are not empty, in order (`.filter(|s| s.len() != 0)`). */
  function NonEmpty(ps: seq<seq<byte>>): (r: seq<seq<byte>>)
    ensures |r| <= |ps|
  {
    if ps == [] then []
    else if ps[0] == [] then NonEmpty(ps[1..])
    else [ps[0]] + NonEmpty(ps[1..])
  }

  /** The words of a line: the non-empty pieces between spaces. */
  function Words(s: seq<byte>): seq<seq<byte>>
  {
    NonEmpty(Pieces(s, [SPACE]))
  }

  /** Each piece the filter keeps is a non-empty piece of the split. */
  lemma {:induction false} NonEmptyKeeps(ps: seq<seq<byte>>)
    ensures forall k :: 0 <= k < |NonEmpty(ps)| ==> NonEmpty(ps)[k] != [] && NonEmpty(ps)[k] in ps
  {
    if ps != [] {
      NonEmptyKeeps(ps[1..]);
    }
  }

  /** Every word is non-empty and holds no space. */
  lemma WordsAreSpaceFree(s: seq<byte>)
    ensures forall k :: 0 <= k < |Words(s)| ==> Words(s)[k] != [] && SPACE !in Words(s)[k]
  {
    var ps := Pieces(s, [SPACE]);
    PiecesHaveNoPattern(s, [SPACE]);
    NonEmptyKeeps(ps);
    forall k | 0 <= k < |Words(s)| ensures SPACE !in Words(s)[k] {
      var w := Words(s)[k];
      var n :| 0 <= n < |ps| && ps[n] == w;
      forall j | 0 <= j < |w| ensures w[j] != SPACE {
        MatchesAtByte(w, SPACE, j);
        assert !MatchesAt(ps[n], [SPACE], j);
      }
    }
  }

  /** A run of bytes without a space is one word, or none when empty. */
  lemma WordsOfWord(w: seq<byte>)
    requires SPACE !in w
    ensures Words(w) == if w == [] then [] else [w]
  {
    FindByte(w, SPACE);
    PiecesStep(w, [SPACE]);
  }

  /** The bytes up to the first space are a word unless empty; the words after it follow. */
  lemma WordsAfter(w: seq<byte>, rest: seq<byte>)
    requires SPACE !in w
    ensures Words(w + [SPACE] + rest) == (if w == [] then [] else [w]) + Words(rest)
  {
    var s := w + [SPACE] + rest;
    FindByte(s, SPACE);
    var i := Find(s, [SPACE]).value;
    assert s[|w|] == SPACE;
    assert i == |w|;
    PiecesStep(s, [SPACE]);
    assert s[..i] == w && s[i + 1..] == rest;
  }

  /**
   * `str::is_char_boundary`: index `i` of a UTF-8 text starts a character
   * (or is its end) unless the byte there continues one.
   */
  predicate CharBoundary(s: seq<byte>, i: nat)
  {
    i == 0 || i == |s| || (i < |s| && !Tail(s[i]))
  }

  /**
   * Whether `RequestLine::parse` accepts a line: three words at least, and
   * `get(5..)` of the third is defined, which needs five bytes and a
   * character boundary there. The `HTTP/` prefix is not looked at.
   */
  predicate AcceptsRequestLine(s: seq<byte>)
  {
    |Words(s)| >= 3 && |Words(s)[2]| >= 5 && CharBoundary(Words(s)[2], 5)
  }

  /**
   * The filtered word iterator's `next`: calls `StrSplitMut.Next` until it
   * yields a non-empty piece or nothing. It yields the first of the words
   * still to come; later words lie after it.
   */
  method NextStrWord(it: StrSplitMut) returns (w: Option<Span>)
    requires it.Valid()
    modifies it
    ensures it.Valid()
    ensures w.None? <==> NonEmpty(old(it.Upcoming())) == []
    ensures w.None? ==> it.rest.None?
    ensures w.Some? ==>
      && old(it.rest).Some? && old(it.rest).value.0 <= w.value.start <= w.value.end <= old(it.rest).value.1
      && it.text[w.value.start..w.value.end] == NonEmpty(old(it.Upcoming()))[0]
      && NonEmpty(it.Upcoming()) == NonEmpty(old(it.Upcoming()))[1..]
    ensures it.rest.Some? ==>
      && old(it.rest).Some? && it.rest.value.1 == old(it.rest).value.1
      && (w.Some? ==> w.value.end < it.rest.value.0)
  {
    while true
      invariant it.Valid()
      invariant NonEmpty(it.Upcoming()) == NonEmpty(old(it.Upcoming()))
      invariant it.rest.Some? ==>
        && old(it.rest).Some? && old(it.rest).value.0 <= it.rest.value.0 && it.rest.value.1 == old(it.rest).value.1
      decreases if it.rest.Some? then it.rest.value.1 - it.rest.value.0 + 1 else 0
    {
      ghost var up := it.Upcoming();
      var piece := it.Next();
      if piece.None? {
        return None;
      }
      var (s, e) := piece.value;
      if e - s != 0 {
        assert up == [up[0]] + up[1..];
        return Some(Span(s, e));
      }
      assert up == [up[0]] + up[1..];
    }
  }

  /** `RequestLine`: the spans of method, URI and version. */
  datatype RequestLine = RequestLine(httpMethod: Span, uri: Span, version: Span)

  /**
   * `RequestLine::parse`: the first three words are method, URI and
   * version; the version drops the third word's first five bytes. On
   * success the method is uppercased in place and nothing else changes;
   * on failure nothing changes.
   */
  method ParseRequestLine(line: array<byte>) returns (r: Result<RequestLine, ParseError>)
    modifies line
    ensures r.Ok? <==> AcceptsRequestLine(old(line[..]))
    ensures r.Err? ==> r.error == ParseInvalidRequestLine && line[..] == old(line[..])
    ensures r.Ok? ==>
      var ws, m, u, v := Words(old(line[..])), r.value.httpMethod, r.value.uri, r.value.version;
      && m.start <= m.end <= u.start <= u.end <= v.start <= v.end <= line.Length
      && line[m.start..m.end] == UpperAll(ws[0])
      && line[u.start..u.end] == ws[1]
      && line[v.start..v.end] == ws[2][5..]
      && forall k :: 0 <= k < line.Length && !(m.start <= k < m.end) ==> line[k] == old(line[k])
  {
    ghost var s := line[..];
    ghost var ws := Words(s);
    var methodWord, uriWord, versionWord := FirstWords(line);
    if methodWord.Some? && uriWord.Some? && versionWord.Some? {
      var m, u, v := methodWord.value, uriWord.value, versionWord.value;
      assert v.end - v.start > 5 ==> line[v.start + 5] == ws[2][5];
      if v.end - v.start >= 5 && (v.end - v.start == 5 || !Tail(line[v.start + 5])) {
        MakeAsciiUppercase(line, m.start, m.end);
        UppercasedSpans(s, line[..], m, u, v, ws[0], ws[1], ws[2]);
        return Ok(RequestLine(m, u, Span(v.start + 5, v.end)));
      }
    }
    return Err(ParseInvalidRequestLine);
  }

  /**
   * The three `words.next()` calls of `RequestLine::parse`: they yield the
   * first three words of the line, each after the one before, as long as
   * there are words left.
   */
  method FirstWords(line: array<byte>) returns (m: Option<Span>, u: Option<Span>, v: Option<Span>)
    ensures m.Some? && u.Some? && v.Some? <==> |Words(line[..])| >= 3
    ensures m.Some? && u.Some? && v.Some? ==>
      var ws := Words(line[..]);
      && m.value.start <= m.value.end < u.value.start <= u.value.end < v.value.start <= v.value.end <= line.Length
      && line[m.value.start..m.value.end] == ws[0]
      && line[u.value.start..u.value.end] == ws[1]
      && line[v.value.start..v.value.end] == ws[2]
  {
    ghost var ws := Words(line[..]);
    var words := new StrSplitMut(line, 0, line.Length, [SPACE]);
    assert line[0..line.Length] == line[..];
    m := NextStrWord(words);
    assert m.Some? ==> NonEmpty(words.Upcoming()) == ws[1..];
    u := NextStrWord(words);
    assert u.Some? ==> NonEmpty(words.Upcoming()) == ws[2..];
    v := NextStrWord(words);
  }

  /**
   * What uppercasing the method word in place leaves of the three words:
   * the method uppercased, the URI and the version as they were.
   */
  lemma UppercasedSpans(before: seq<byte>, after: seq<byte>, m: Span, u: Span, v: Span,
                        w0: seq<byte>, w1: seq<byte>, w2: seq<byte>)
    requires m.start <= m.end <= u.start <= u.end <= v.start <= v.end <= |before| == |after|
    requires before[m.start..m.end] == w0 && before[u.start..u.end] == w1
    requires before[v.start..v.end] == w2 && |w2| >= 5
    requires forall k :: 0 <= k < |after| ==> after[k] == if m.start <= k < m.end then ToUpper(before[k]) else before[k]
    ensures after[m.start..m.end] == UpperAll(w0)
    ensures after[u.start..u.end] == w1
    ensures after[v.start + 5..v.end] == w2[5..]
  {
    assert before[v.start..v.end][5..] == before[v.start + 5..v.end];
  }

  /** `char::is_whitespace` on ASCII: space, tab, LF, VT, FF and CR. */
  predicate IsStrWhitespace(b: byte)
  {
    b == 0x20 || 0x09 <= b <= 0x0D
  }

  /**
   * `str::trim` as a span of `s`: it drops the leading and the trailing
   * whitespace, all of it, so a text of whitespace only trims to nothing.
   */
  function TrimBounds(s: seq<byte>): (r: (nat, nat))
    ensures r.0 <= r.1 <= |s|
    ensures forall i :: 0 <= i < r.0 ==> IsStrWhitespace(s[i])
    ensures forall i :: r.1 <= i < |s| ==> IsStrWhitespace(s[i])
    ensures r.0 < r.1 ==> !IsStrWhitespace(s[r.0]) && !IsStrWhitespace(s[r.1 - 1])
    ensures r.0 == r.1 ==> r.0 == |s|
  {
    match RPositionNot(s, IsStrWhitespace)
    case None => (|s|, |s|)
    case Some(b) => (PositionNot(s, IsStrWhitespace).value, b + 1)
  }

  /** The bytes `str::trim` keeps. */
  function StrTrim(s: seq<byte>): (r: seq<byte>)
    ensures |r| <= |s|
    ensures r == [] <==> forall i :: 0 <= i < |s| ==> IsStrWhitespace(s[i])
    ensures r != [] ==> !IsStrWhitespace(r[0]) && !IsStrWhitespace(r[|r| - 1])
  {
    s[TrimBounds(s).0..TrimBounds(s).1]
  }

  /**
   * `str::trim` keeps exactly the middle of a text whose ends are
   * whitespace and whose middle starts and ends with another byte.
   */
  lemma StrTrimKeepsMiddle(pre: seq<byte>, mid: seq<byte>, post: seq<byte>)
    requires forall i :: 0 <= i < |pre| ==> IsStrWhitespace(pre[i])
    requires forall i :: 0 <= i < |post| ==> IsStrWhitespace(post[i])
    requires mid != [] && !IsStrWhitespace(mid[0]) && !IsStrWhitespace(mid[|mid| - 1])
    ensures StrTrim(pre + mid + post) == mid
  {
    var s := pre + mid + post;
    var r := TrimBounds(s);
    assert s[|pre|] == mid[0];
    assert s[|pre| + |mid| - 1] == mid[|mid| - 1];
    assert r.0 == |pre| && r.1 == |pre| + |mid|;
    assert s[r.0..r.1] == mid;
  }

  /**
   * `name[i]` after Title-Casing: the first byte of the name and every
   * byte after a `-` upper case, all others lower case.
   */
  function TitleCasedFrom(s: seq<byte>, wordStart: bool): (r: seq<byte>)
    ensures |r| == |s|
    ensures |s| > 0 ==> r[0] == if wordStart then ToUpper(s[0]) else ToLower(s[0])
    ensures forall i :: 0 < i < |s| ==> r[i] == if s[i - 1] == HYPHEN then ToUpper(s[i]) else ToLower(s[i])
  {
    if s == [] then []
    else [if wordStart then ToUpper(s[0]) else ToLower(s[0])] + TitleCasedFrom(s[1..], s[0] == HYPHEN)
  }

  /** A header name Title-Cased word by word. */
  function TitleCased(s: seq<byte>): seq<byte>
  {
    TitleCasedFrom(s, true)
  }

  /** A name without `-` is one word: its first byte upper case, the rest lower case. */
  lemma TitleCasedWord(w: seq<byte>)
    requires w != [] && HYPHEN !in w
    ensures TitleCased(w) == [ToUpper(w[0])] + LowerAll(w[1..])
  {
    var t := TitleCased(w);
    var e := [ToUpper(w[0])] + LowerAll(w[1..]);
    forall i | 0 < i < |w| ensures t[i] == e[i] {
      assert w[i - 1] != HYPHEN;
    }
  }

  /** Title-Casing goes word by word: the word before the first `-`, then the rest. */
  lemma TitleCasedWords(w: seq<byte>, rest: seq<byte>)
    requires w != [] && HYPHEN !in w
    ensures TitleCased(w + [HYPHEN] + rest) == TitleCased(w) + [HYPHEN] + TitleCased(rest)
  {
    var s := w + [HYPHEN] + rest;
    var t := TitleCased(s);
    var e := TitleCased(w) + [HYPHEN] + TitleCased(rest);
    forall i | 0 <= i < |s| ensures t[i] == e[i] {
      if i < |w| {
        assert s[i] == w[i];
        if 0 < i {
          assert s[i - 1] == w[i - 1];
        }
      } else if i == |w| {
        assert s[i] == HYPHEN && s[i - 1] == w[i - 1];
      } else if i == |w| + 1 {
        assert s[i - 1] == HYPHEN && s[i] == rest[0];
      } else {
        assert s[i] == rest[i - |w| - 1] && s[i - 1] == rest[i - |w| - 2];
      }
    }
    assert t == e;
  }

  /** Title-Casing keeps every `-` and is idempotent. */
  lemma TitleCasedIdempotent(s: seq<byte>)
    ensures forall i :: 0 <= i < |s| ==> (TitleCased(s)[i] == HYPHEN <==> s[i] == HYPHEN)
    ensures TitleCased(TitleCased(s)) == TitleCased(s)
  {
    var t := TitleCased(s);
    forall i | 0 <= i < |s| ensures t[i] == HYPHEN <==> s[i] == HYPHEN {
      if i == 0 {
        assert t[i] == ToUpper(s[i]);
      } else {
        assert t[i] == if s[i - 1] == HYPHEN then ToUpper(s[i]) else ToLower(s[i]);
      }
    }
    var tt := TitleCased(t);
    forall i | 0 <= i < |s| ensures tt[i] == t[i] {
      if i > 0 {
        assert t[i - 1] == HYPHEN <==> s[i - 1] == HYPHEN;
      }
    }
  }

  /**
   * When the loop over `-`-separated words cannot panic: `name_word[0..1]`
   * needs every word to be non-empty (no leading `-`, no `--`) and its
   * second byte to start a character.
   */
  predicate SafeStrWords(s: seq<byte>)
  {
    forall i {:trigger WordStart(s, i)} :: 0 <= i < |s| && WordStart(s, i) ==> s[i] != HYPHEN && (i + 1 < |s| ==> !Tail(s[i + 1]))
  }

  /** Whether a `-`-separated word of `s` starts at `i`. */
  predicate WordStart(s: seq<byte>, i: nat)
    requires i <= |s|
  {
    i == 0 || s[i - 1] == HYPHEN
  }

  /** What the name loop has done once its words up to `cursor` are done. */
  ghost predicate Titled(b: seq<byte>, orig: seq<byte>, cursor: nat)
  {
    |orig| <= |b| && forall k :: 0 <= k < |orig| ==> b[k] == if k < cursor then TitleCased(orig)[k] else ToUpper(orig[k])
  }


  /**
   * The name normalisation of `Header::parse`: `name` (`a[..hi]`) is
   * uppercased, then each `-`-separated word gets its first byte upper
   * and its other bytes lower case. The rest of the line is untouched.
   */
  method TitleCaseStrWords(a: array<byte>, hi: nat)
    requires hi <= a.Length && SafeStrWords(a[..hi])
    modifies a
    ensures a[..hi] == TitleCased(old(a[..hi]))
    ensures a[hi..] == old(a[hi..])
  {
    ghost var orig := a[..hi];
    MakeAsciiUppercase(a, 0, hi);
    var words := new StrSplitMut(a, 0, hi, [HYPHEN]);
    var more := true;
    while more
      invariant NameLoop(words, a, hi, orig)
      invariant forall k :: hi <= k < a.Length ==> a[k] == old(a[k])
      invariant !more ==> Cursor(words, hi) == hi
      decreases if more then Left(words) + 1 else 0
    {
      more := TitleNextWord(words, a, hi, orig);
    }
    assert Titled(a[..], orig, hi);
  }

  /** Where the name loop stands: the start of the words still to come. */
  function Cursor(words: StrSplitMut, hi: nat): nat
    reads words
  {
    if words.rest.Some? then words.rest.value.0 else hi
  }

  /** How much of the name the loop has still to read. */
  function Left(words: StrSplitMut): int
    reads words
  {
    if words.rest.Some? then words.rest.value.1 - words.rest.value.0 + 1 else 0
  }

  /**
   * The state of the name loop over the uppercased `name` (`orig` before
   * it): the words before the cursor are Title-Cased, the rest still
   * uppercase, and the cursor is where a word starts.
   */
  ghost predicate NameLoop(words: StrSplitMut, a: array<byte>, hi: nat, orig: seq<byte>)
    reads words, a
  {
    NameWords(words, a, hi, orig) && Titled(a[..], orig, Cursor(words, hi))
  }

  /** The iterator's part of `NameLoop`, which the loop body's writes to the name leave alone. */
  ghost predicate NameWords(words: StrSplitMut, a: array<byte>, hi: nat, orig: seq<byte>)
    reads words
  {
    && words.text == a && words.pattern == [HYPHEN] && words.Valid()
    && hi <= a.Length && |orig| == hi && SafeStrWords(orig)
    && (words.rest.Some? ==>
         words.rest.value.1 == hi && (words.rest.value.0 == 0 || orig[words.rest.value.0 - 1] == HYPHEN))
  }


  /** One turn of the `for` loop over the words: `next`, then its body. */
  method TitleNextWord(words: StrSplitMut, a: array<byte>, hi: nat, ghost orig: seq<byte>) returns (more: bool)
    requires NameLoop(words, a, hi, orig)
    modifies words, a
    ensures NameLoop(words, a, hi, orig)
    ensures forall k :: hi <= k < a.Length ==> a[k] == old(a[k])
    ensures more ==> Left(words) < old(Left(words))
    ensures !more ==> Cursor(words, hi) == hi
  {
    ghost var start := Cursor(words, hi);
    assert Titled(a[..], orig, start);
    var word := words.Next();
    if word.None? {
      assert start == hi;
      return false;
    }
    var (s, e) := word.value;
    assert s == start;
    TitleWord(words, a, hi, orig, s, e);
    return true;
  }

  /**
   * One turn of the name loop over the word `a[s..e]`: its first byte
   * upper case (already so), the others lower case.
   */
  method TitleWord(words: StrSplitMut, a: array<byte>, hi: nat, ghost orig: seq<byte>, s: nat, e: nat)
    requires words.text == a && words.pattern == [HYPHEN] && words.Valid()
    requires hi <= a.Length && |orig| == hi && SafeStrWords(orig)
    requires s <= e <= hi && (s == 0 || orig[s - 1] == HYPHEN)
    requires Titled(a[..], orig, s)
    requires forall j :: 0 <= j ==> !MatchesAt(a[s..e], [HYPHEN], j)
    requires words.rest.None? ==> s < e == hi
    requires words.rest.Some? ==>
      e + 1 == words.rest.value.0 <= words.rest.value.1 == hi && a[e..words.rest.value.0] == [HYPHEN]
    modifies a
    ensures forall k :: hi <= k < a.Length ==> a[k] == old(a[k])
    ensures NameLoop(words, a, hi, orig)
  {
    ghost var before := a[..];
    NoByteFound(a[s..e], HYPHEN);
    if words.rest.Some? {
      assert a[e] == a[e..words.rest.value.0][0];
    }
    WordIsSafe(before, orig, s, e);
    CaseWord(a, s, e);
    TitledAfterWord(before, a[..], orig, s, e, Cursor(words, hi));
  }

  /** A byte that matches nowhere does not occur. */
  lemma NoByteFound(w: seq<byte>, b: byte)
    requires forall j :: 0 <= j ==> !MatchesAt(w, [b], j)
    ensures b !in w
  {
    forall j | 0 <= j < |w| ensures w[j] != b {
      MatchesAtByte(w, b, j);
    }
  }

  /**
   * A word the iterator yields from an uppercased name whose words are
   * safe is non-empty, and its second byte starts a character.
   */
  lemma WordIsSafe(before: seq<byte>, orig: seq<byte>, s: nat, e: nat)
    requires s <= e <= |orig| && SafeStrWords(orig) && WordStart(orig, s)
    requires Titled(before, orig, s) && HYPHEN !in before[s..e]
    requires (s < e == |orig|) || (e < |orig| && before[e] == HYPHEN)
    ensures s < e && (e == s + 1 || !Tail(before[s + 1]))
  {
    assert s < |orig| && before[s] == ToUpper(orig[s]) && orig[s] != HYPHEN;
    if s + 1 < e {
      assert before[s + 1] == ToUpper(orig[s + 1]);
    }
  }

  /**
   * The body of the name loop for the word `a[s..e]`: `name_word[0..1]`
   * uppercased and `name_word[1..]` lowercased. Both slices panic unless
   * the word is non-empty and its second byte starts a character.
   */
  method CaseWord(a: array<byte>, s: nat, e: nat)
    requires s < e <= a.Length && (e == s + 1 || !Tail(a[s + 1]))
    modifies a
    ensures forall k :: 0 <= k < a.Length ==>
      a[k] == if k == s then ToUpper(old(a[k])) else if s < k < e then ToLower(old(a[k])) else old(a[k])
  {
    MakeAsciiUppercase(a, s, s + 1);
    MakeAsciiLowercase(a, s + 1, e);
  }

  /**
   * After the word `s..e` of the name is Title-Cased (its first byte
   * uppercased, the others lowercased), the loop's cursor may move past
   * it and past the `-` that ends it.
   */
  lemma TitledAfterWord(before: seq<byte>, after: seq<byte>, orig: seq<byte>, s: nat, e: nat, cursor: nat)
    requires |before| == |after| && s < e <= |orig| && WordStart(orig, s)
    requires Titled(before, orig, s) && HYPHEN !in before[s..e]
    requires cursor == |orig| == e || (cursor == e + 1 <= |orig| && before[e] == HYPHEN)
    requires forall k :: 0 <= k < |after| ==>
      after[k] == if k == s then ToUpper(before[k]) else if s < k < e then ToLower(before[k]) else before[k]
    ensures Titled(after, orig, cursor)
  {
    var t := TitleCased(orig);
    forall j | s <= j < e ensures orig[j] != HYPHEN {
      assert before[j] == before[s..e][j - s] == ToUpper(orig[j]);
    }
    forall k | 0 <= k < |orig| ensures after[k] == if k < cursor then t[k] else ToUpper(orig[k]) {
      if k == s {
        assert t[k] == ToUpper(orig[k]);
      } else if s < k < e {
        assert orig[k - 1] != HYPHEN;
        assert t[k] == ToLower(orig[k]);
      } else if k == e && k < cursor {
        assert orig[k] == HYPHEN;
        assert orig[k - 1] != HYPHEN;
        assert t[k] == ToLower(orig[k]);
      }
    }
  }

  /** `Header`: the spans of the name and the value. */
  datatype Header = Header(name: Span, value: Span)

  /**
   * `Header::parse`: without a `:` the line is refused and unchanged.
   * Otherwise the name before the first `:` is Title-Cased in place and
   * trimmed, and the value is everything after that `:`, trimmed; the
   * value may hold further `:` bytes.
   */
  method ParseHeader(line: array<byte>) returns (r: Result<Header, ParseError>)
    requires IndexOf(line[..], COLON).Some? ==> SafeStrWords(line[..IndexOf(line[..], COLON).value])
    modifies line
    ensures r.Err? <==> COLON !in old(line[..])
    ensures r.Err? ==> r.error == ParseInvalidHeader && line[..] == old(line[..])
    ensures r.Ok? ==>
      var i, n, v := IndexOf(old(line[..]), COLON).value, r.value.name, r.value.value;
      && n.start <= n.end <= i < v.start <= v.end <= line.Length
      && line[..i] == TitleCased(old(line[..i]))
      && line[i..] == old(line[i..])
      && line[n.start..n.end] == StrTrim(TitleCased(old(line[..i])))
      && line[v.start..v.end] == StrTrim(old(line[i + 1..]))
  {
    var found := IndexOf(line[..], COLON);
    if found.None? {
      return Err(ParseInvalidHeader);
    }
    var idx := found.value;
    ghost var before := line[..];
    TitleCaseStrWords(line, idx);
    ghost var title := TitleCased(before[..idx]);
    assert line[..idx] == title;
    assert line[idx + 1..] == line[idx..][1..] == before[idx + 1..];
    var name, value := TrimParts(line, idx);
    assert line[name.start..name.end] == StrTrim(title);
    return Ok(Header(name, value));
  }

  /** `name.trim()` and `value[1..].trim()` over a line split at the `:` at `idx`. */
  method TrimParts(line: array<byte>, idx: nat) returns (name: Span, value: Span)
    requires idx < line.Length
    ensures name.start <= name.end <= idx < value.start <= value.end <= line.Length
    ensures line[name.start..name.end] == StrTrim(line[..idx])
    ensures line[value.start..value.end] == StrTrim(line[idx + 1..])
  {
    var nameBounds := TrimBounds(line[..idx]);
    var valueBounds := TrimBounds(line[idx + 1..]);
    TrimmedParts(line[..], idx);
    name := Span(nameBounds.0, nameBounds.1);
    value := Span(idx + 1 + valueBounds.0, idx + 1 + valueBounds.1);
  }

  /** The trimmed name and value of a line split at `idx`, as spans of the line. */
  lemma TrimmedParts(line: seq<byte>, idx: nat)
    requires idx < |line|
    ensures line[TrimBounds(line[..idx]).0..TrimBounds(line[..idx]).1] == StrTrim(line[..idx])
    ensures line[idx + 1 + TrimBounds(line[idx + 1..]).0..idx + 1 + TrimBounds(line[idx + 1..]).1]
         == StrTrim(line[idx + 1..])
  {
    var value := line[idx + 1..];
    assert line[idx + 1 + TrimBounds(value).0..idx + 1 + TrimBounds(value).1] == value[TrimBounds(value).0..TrimBounds(value).1];
  }

  /**
   * `HeaderBodySplitter` of the first parser, whose `update` returns the
   * headers and the body as spans of the buffer.
   */
  class Splitter {
    var findOffset: nat

    /** `new`: the first update searches from index 0. */
    constructor ()
      ensures findOffset == 1 && HeaderBodySplitter.SearchStart(findOffset) == 0
    {
      findOffset := 1;
    }

    /**
     * `update`: the same search as `HeaderBodySplitter.TrySplit`; on a
     * match the headers are `buffer[..h]` and the body is what follows the
     * CR LF CR LF.
     */
    method Update(buffer: seq<byte>) returns (split: Option<(Span, Span)>)
      modifies this
      ensures findOffset == |buffer|
      ensures split.None? <==> HeaderBodySplitter.SplitFrom(buffer, HeaderBodySplitter.SearchStart(old(findOffset))).None?
      ensures split.Some? ==>
        var h := HeaderBodySplitter.SplitFrom(buffer, HeaderBodySplitter.SearchStart(old(findOffset))).value;
        split.value.0 == Span(0, h) && split.value.1 == Span(h + 4, |buffer|) && h + 4 <= |buffer|
    {
      var offset := HeaderBodySplitter.SearchStart(findOffset);
      findOffset := |buffer|;
      if offset > |buffer| {
        return None;
      }
      var position := Find(buffer[offset..], HeaderBodySplitter.HeaderEnd);
      HeaderBodySplitter.SearchSuffix(buffer, offset);
      if position.None? {
        return None;
      }
      var headerEnd := offset + position.value + |HeaderBodySplitter.HeaderEnd|;
      return Some((Span(0, headerEnd - 4), Span(headerEnd, |buffer|)));
    }
  }
}
