/**
 * `RawHeader::parse` of the second parser (src/http/headers/raw_header.rs):
 * a header line is split at its first `:`, the name is Title-Cased in
 * place word by word (over bytes, with `buffer_split_mut`), then name and
 * value are trimmed of spaces and tabs; the name must be UTF-8 text, the
 * value stays raw bytes.
 */
module RawHeaders {
  import opened Wrappers
  import opened Bytes
  import opened Errors
  import opened Split
  import opened HttpStr
  import opened Headers

  /**
   * When the loop over `-`-separated words cannot panic: `name_word[0..1]`
   * needs every word it is given to be non-empty, so no word may start
   * with `-` (no leading `-`, no `--`). A trailing `-` is harmless: the
   * iterator yields no empty last piece.
   */
  predicate NonEmptyWords(s: seq<byte>)
  {
    forall i {:trigger WordStart(s, i)} :: 0 <= i < |s| && WordStart(s, i) ==> s[i] != HYPHEN
  }

  /**
   * The name normalisation of `RawHeader::parse`: `name` (`a[..hi]`) is
   * uppercased, then each word yielded by `buffer_split_mut(name, b"-")`
   * gets its first byte upper and its other bytes lower case.
   */
  method TitleCaseWords(a: array<byte>, hi: nat, skipEmpty: bool)
    requires hi <= a.Length && (skipEmpty || NonEmptyWords(a[..hi]))
    modifies a
    ensures a[..hi] == TitleCased(old(a[..hi]))
    ensures a[hi..] == old(a[hi..])
  {
    ghost var orig := a[..hi];
    MakeAsciiUppercase(a, 0, hi);
    var words := new SplitMutIterator(a, 0, hi, [HYPHEN]);
    var more := true;
    while more
      invariant WordLoop(words, a, hi, orig, skipEmpty)
      invariant forall k :: hi <= k < a.Length ==> a[k] == old(a[k])
      invariant !more ==> Cursor(words, hi) == hi
      decreases if more then Left(words) + 1 else 0
    {
      more := TitleNextWord(words, a, hi, orig, skipEmpty);
    }
    assert Titled(a[..], orig, hi);
  }

  /** Where the name loop stands: the start of the words still to come. */
  function Cursor(words: SplitMutIterator, hi: nat): nat
    reads words
  {
    if words.rest.Some? then words.rest.value.0 else hi
  }

  /** How much of the name the loop has still to read. */
  function Left(words: SplitMutIterator): int
    reads words
  {
    if words.rest.Some? then words.rest.value.1 - words.rest.value.0 + 1 else 0
  }

  /**
   * The state of the name loop over the uppercased name (`orig` before
   * it): the words before the cursor are Title-Cased, the rest still
   * uppercase, and the cursor is where a word starts.
   */
  ghost predicate WordLoop(words: SplitMutIterator, a: array<byte>, hi: nat, orig: seq<byte>, skipEmpty: bool)
    reads words, a
  {
    WordIterator(words, a, hi, orig, skipEmpty) && Titled(a[..], orig, Cursor(words, hi))
  }

  /** The iterator's part of `WordLoop`, which the loop body's writes to the name leave alone. */
  ghost predicate WordIterator(words: SplitMutIterator, a: array<byte>, hi: nat, orig: seq<byte>, skipEmpty: bool)
    reads words
  {
    && words.buffer == a && words.pattern == [HYPHEN] && words.Valid()
    && hi <= a.Length && |orig| == hi && (skipEmpty || NonEmptyWords(orig))
    && (words.rest.Some? ==>
         words.rest.value.1 == hi && (words.rest.value.0 == 0 || orig[words.rest.value.0 - 1] == HYPHEN))
  }

  /** One turn of the `for` loop over the words: `next`, then its body. */
  method TitleNextWord(words: SplitMutIterator, a: array<byte>, hi: nat, ghost orig: seq<byte>, skipEmpty: bool)
    returns (more: bool)
    requires WordLoop(words, a, hi, orig, skipEmpty)
    modifies words, a
    ensures WordLoop(words, a, hi, orig, skipEmpty)
    ensures forall k :: hi <= k < a.Length ==> a[k] == old(a[k])
    ensures more ==> Left(words) < old(Left(words))
    ensures !more ==> Cursor(words, hi) == hi
  {
    ghost var start := Cursor(words, hi);
    assert Titled(a[..], orig, start);
    var word := words.Next();
    if word.None? {
      assert start == hi;
      return false;
    }
    var (s, e) := word.value;
    assert s == start;
    TitleWord(words, a, hi, orig, s, e, skipEmpty);
    return true;
  }

  /**
   * One turn of the name loop over the word `a[s..e]`; with `skipEmpty`
   * an empty word is passed over instead of being sliced.
   */
  method TitleWord(words: SplitMutIterator, a: array<byte>, hi: nat, ghost orig: seq<byte>, s: nat, e: nat,
                   skipEmpty: bool)
    requires words.buffer == a && words.pattern == [HYPHEN] && words.Valid()
    requires hi <= a.Length && |orig| == hi && (skipEmpty || NonEmptyWords(orig))
    requires s <= e <= hi && (s == 0 || orig[s - 1] == HYPHEN)
    requires Titled(a[..], orig, s)
    requires forall j :: 0 <= j ==> !MatchesAt(a[s..e], [HYPHEN], j)
    requires words.rest.None? ==> s < e == hi
    requires words.rest.Some? ==>
      e + 1 == words.rest.value.0 <= words.rest.value.1 == hi && a[e..words.rest.value.0] == [HYPHEN]
    modifies a
    ensures forall k :: hi <= k < a.Length ==> a[k] == old(a[k])
    ensures WordLoop(words, a, hi, orig, skipEmpty)
  {
    ghost var before := a[..];
    NoByteFound(a[s..e], HYPHEN);
    if words.rest.Some? {
      assert a[e] == a[e..words.rest.value.0][0];
    }
    if skipEmpty && s == e {
      EmptyWordTitled(before, orig, s);
    } else {
      if !skipEmpty {
        WordIsNonEmpty(before, orig, s, e);
      }
      CaseWord(a, s, e);
      TitledAfterWord(before, a[..], orig, s, e, Cursor(words, hi));
    }
  }

  /** Passing over an empty word moves the cursor past its `-`, which Title-Casing leaves as it is. */
  lemma EmptyWordTitled(b: seq<byte>, orig: seq<byte>, s: nat)
    requires s < |orig| && Titled(b, orig, s) && b[s] == HYPHEN
    ensures Titled(b, orig, s + 1)
  {
    var t := TitleCased(orig);
    assert b[s] == ToUpper(orig[s]);
    assert orig[s] == HYPHEN;
    forall k | 0 <= k < |orig| ensures b[k] == if k < s + 1 then t[k] else ToUpper(orig[k]) {
      if k == s {
        assert t == TitleCasedFrom(orig, true);
        if k == 0 {
          assert t[k] == ToUpper(orig[k]);
        } else {
          assert t[k] == if orig[k - 1] == HYPHEN then ToUpper(orig[k]) else ToLower(orig[k]);
        }
      }
    }
  }

  /** A word the iterator yields from an uppercased name whose words are non-empty is non-empty. */
  lemma WordIsNonEmpty(before: seq<byte>, orig: seq<byte>, s: nat, e: nat)
    requires s <= e <= |orig| && NonEmptyWords(orig) && WordStart(orig, s)
    requires Titled(before, orig, s)
    requires (s < e == |orig|) || (e < |orig| && before[e] == HYPHEN)
    ensures s < e
  {
  }

  /**
   * The body of the name loop for the word `a[s..e]`: `name_word[0..1]`
   * uppercased and `name_word[1..]` lowercased; the first slice panics
   * on an empty word.
   */
  method CaseWord(a: array<byte>, s: nat, e: nat)
    requires s < e <= a.Length
    modifies a
    ensures forall k :: 0 <= k < a.Length ==>
      a[k] == if k == s then ToUpper(old(a[k])) else if s < k < e then ToLower(old(a[k])) else old(a[k])
  {
    MakeAsciiUppercase(a, s, s + 1);
    MakeAsciiLowercase(a, s + 1, e);
  }

  /** `RawHeader`: the name, as UTF-8 text, and the raw value, as spans of the line. */
  datatype RawHeader = RawHeader(name: Span, value: Span)

  /**
   * What `RawHeader::parse` does to a line `before`, leaving `after`:
   * without a `:` the line is refused with `InvalidHeader` and unchanged.
   * Otherwise the name before the first `:` is Title-Cased in place,
   * whatever follows; the trimmed name must be UTF-8, else
   * `InvalidEncoding`; the value is everything after that `:`, trimmed of
   * spaces and tabs, and may hold further `:` bytes.
   */
  ghost predicate RawHeaderParsed(before: seq<byte>, after: seq<byte>, r: Result<RawHeader, RequestError>) {
    && |after| == |before|
    && (COLON !in before ==> r == Err(InvalidHeader) && after == before)
    && (COLON in before ==>
         var i := IndexOf(before, COLON).value;
         var name := Trim(TitleCased(before[..i]), IsWhitespace);
         && i < |after| && after[..i] == TitleCased(before[..i]) && after[i..] == before[i..]
         && (r.Err? <==> !IsUtf8(name))
         && (r.Err? ==> r.error == InvalidEncoding)
         && (r.Ok? ==>
              var n, v := r.value.name, r.value.value;
              && n.start <= n.end <= i < v.start <= v.end <= |after|
              && after[n.start..n.end] == name
              && after[v.start..v.end] == Trim(before[i + 1..], IsWhitespace)))
  }

  /**
   * `RawHeader::parse` as written: the name loop slices the first byte of
   * every `-`-separated word, so the name must hold no empty word (see
   * `LeadingHyphenPanics`).
   */
  method ParseRawHeader(line: array<byte>) returns (r: Result<RawHeader, RequestError>)
    requires IndexOf(line[..], COLON).Some? ==> NonEmptyWords(line[..IndexOf(line[..], COLON).value])
    modifies line
    ensures RawHeaderParsed(old(line[..]), line[..], r)
  {
    r := ParseRawHeaderWith(line, false);
  }

  /**
   * `RawHeader::parse` with the name loop passing over empty words: every
   * line is accepted, and the outcome is the one the as-written parse
   * gives wherever that one does not panic.
   */
  method ParseRawHeaderCorrected(line: array<byte>) returns (r: Result<RawHeader, RequestError>)
    modifies line
    ensures RawHeaderParsed(old(line[..]), line[..], r)
  {
    r := ParseRawHeaderWith(line, true);
  }

  /**
   * The header line `-X: y`: its name begins with an empty word, so the
   * as-written name loop slices `name_word[0..1]` of an empty word.
   */
  lemma LeadingHyphenPanics()
    ensures var line := [HYPHEN, 0x58, COLON, 0x20, 0x79];
      IndexOf(line, COLON) == Some(2) && !NonEmptyWords(line[..2])
  {
    var line := [HYPHEN, 0x58, COLON, 0x20, 0x79];
    assert line[..2] == [HYPHEN, 0x58];
    assert WordStart(line[..2], 0);
  }

  method ParseRawHeaderWith(line: array<byte>, skipEmpty: bool) returns (r: Result<RawHeader, RequestError>)
    requires skipEmpty || (IndexOf(line[..], COLON).Some? ==> NonEmptyWords(line[..IndexOf(line[..], COLON).value]))
    modifies line
    ensures RawHeaderParsed(old(line[..]), line[..], r)
  {
    var found := IndexOf(line[..], COLON);
    if found.None? {
      return Err(InvalidHeader);
    }
    var idx := found.value;
    ghost var before := line[..];
    TitleCaseWords(line, idx, skipEmpty);
    ghost var title := TitleCased(before[..idx]);
    assert line[..idx] == title;
    assert line[idx + 1..] == before[idx + 1..] by {
      assert line[idx + 1..] == line[idx..][1..];
    }
    ghost var titled := line[..];
    assert titled[..idx] == titled[0..idx] && titled[idx + 1..] == titled[idx + 1..line.Length];
    var nameStart, nameEnd := TrimmedBounds(line[..], 0, idx);
    var name := Span(nameStart, nameEnd);
    if SliceToStr(line[name.start..name.end]).Err? {
      return Err(InvalidEncoding);
    }
    var valueStart, valueEnd := TrimmedBounds(line[..], idx + 1, line.Length);
    return Ok(RawHeader(name, Span(valueStart, valueEnd)));
  }

  /** `trim(&s[lo..hi], is_whitespace)`, as bounds within `s`. */
  method TrimmedBounds(s: seq<byte>, lo: nat, hi: nat) returns (a: nat, b: nat)
    requires lo <= hi <= |s|
    ensures lo <= a <= b <= hi
    ensures s[a..b] == Trim(s[lo..hi], IsWhitespace)
  {
    var x, y := TrimSpan(s[lo..hi], IsWhitespace);
    SubSpan(s, lo, hi, x, y);
    a, b := lo + x, lo + y;
  }

  /** A span of a slice of a line is a span of the line. */
  lemma SubSpan(line: seq<byte>, lo: nat, hi: nat, a: nat, b: nat)
    requires lo <= hi <= |line| && a <= b <= hi - lo
    ensures line[lo..hi][a..b] == line[lo + a..lo + b]
  {
    forall k | 0 <= k < b - a ensures line[lo..hi][a..b][k] == line[lo + a..lo + b][k] {
      assert line[lo..hi][a..b][k] == line[lo..hi][a + k];
    }
  }
}
