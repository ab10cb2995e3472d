/**
 * Splitting a mutable buffer on a pattern without copying (src/split.rs and
 * src/str.rs). The iterators hand out sub-slices of the buffer; the model
 * hands out the index ranges of those sub-slices.
 *
 * A Rust `str` is modelled by its UTF-8 bytes: for a valid UTF-8 text and a
 * valid UTF-8 pattern, the first byte-level match is the first match
 * `str::find` reports, so both iterators share one specification.
 */
module Split {
  import opened Wrappers
  import opened Bytes

  /**
   * The pieces the split iterators yield for `s`: the bytes before each
   * occurrence of `pat`, then the rest after the last occurrence unless that
   * rest is empty.
   */
  function Pieces(s: seq<byte>, pat: seq<byte>): seq<seq<byte>>
    requires |pat| > 0
    decreases |s|
  {
    match Find(s, pat)
    case Some(i) => [s[..i]] + Pieces(s[i + |pat|..], pat)
    case None => if s == [] then [] else [s]
  }

  /** The pieces put back together with the pattern between them. */
  function Join(ps: seq<seq<byte>>, pat: seq<byte>): seq<byte>
  {
    if |ps| == 0 then []
    else if |ps| == 1 then ps[0]
    else ps[0] + pat + Join(ps[1..], pat)
  }

  /**
   * Splitting loses nothing but separators: joining the pieces gives back the
   * input, or the input without its final separator when it ended in one.
   */
  lemma {:induction false} PiecesRejoin(s: seq<byte>, pat: seq<byte>)
    requires |pat| > 0
    ensures s == Join(Pieces(s, pat), pat) || s == Join(Pieces(s, pat), pat) + pat
    decreases |s|
  {
    var found := Find(s, pat);
    if found.Some? {
      var i := found.value;
      var rest := s[i + |pat|..];
      PiecesStep(s, pat);
      SplitAround(s, pat, i);
      PiecesRejoin(rest, pat);
      var ps := Pieces(rest, pat);
      if ps != [] {
        assert ([s[..i]] + ps)[1..] == ps;
      }
    }
  }

  /** One step of `Pieces`: the piece before the first match, then the pieces after it. */
  lemma PiecesStep(s: seq<byte>, pat: seq<byte>)
    requires |pat| > 0
    ensures Find(s, pat).Some? ==>
      (Find(s, pat).value + |pat| <= |s| &&
       Pieces(s, pat) == [s[..Find(s, pat).value]] + Pieces(s[Find(s, pat).value + |pat|..], pat))
    ensures Find(s, pat).None? ==> Pieces(s, pat) == if s == [] then [] else [s]
  {
  }

  /** A match at `i` cuts `s` into the bytes before it, the pattern and the bytes after it. */
  lemma SplitAround(s: seq<byte>, pat: seq<byte>, i: nat)
    requires MatchesAt(s, pat, i)
    ensures s == s[..i] + pat + s[i + |pat|..]
  {
    assert s == s[..i] + s[i..i + |pat|] + s[i + |pat|..];
  }

  /** No yielded piece contains the pattern, and none but the last is followed by anything else. */
  lemma {:induction false} PiecesHaveNoPattern(s: seq<byte>, pat: seq<byte>)
    requires |pat| > 0
    ensures forall k, j :: 0 <= k < |Pieces(s, pat)| && 0 <= j ==> !MatchesAt(Pieces(s, pat)[k], pat, j)
    decreases |s|
  {
    match Find(s, pat)
    case Some(i) =>
      var rest := s[i + |pat|..];
      PiecesHaveNoPattern(rest, pat);
      forall j | 0 <= j ensures !MatchesAt(s[..i], pat, j) {
        if MatchesAt(s[..i], pat, j) {
          assert s[..i][j..j + |pat|] == s[j..j + |pat|];
          assert MatchesAt(s, pat, j);
        }
      }
      var ps := Pieces(s, pat);
      assert ps == [s[..i]] + Pieces(rest, pat);
      forall k, j | 0 <= k < |ps| && 0 <= j ensures !MatchesAt(ps[k], pat, j) {
        if k > 0 {
          assert ps[k] == Pieces(rest, pat)[k - 1];
        }
      }
    case None =>
  }

  /**
   * One step of the split iterators on `b[lo..hi]` when the pattern occurs
   * at `i`, stated on positions of `b`: the next piece, the pattern after it
   * and the pieces after that.
   */
  lemma NextPieceFound(b: seq<byte>, lo: nat, hi: nat, pat: seq<byte>, i: nat)
    requires lo <= hi <= |b| && |pat| > 0 && Find(b[lo..hi], pat) == Some(i)
    ensures lo + i + |pat| <= hi && b[lo + i..lo + i + |pat|] == pat
    ensures Find(b[lo..lo + i], pat).None?
    ensures Pieces(b[lo..hi], pat) == [b[lo..lo + i]] + Pieces(b[lo + i + |pat|..hi], pat)
  {
    NextPieceBytes(b, lo, hi, pat, i);
    SliceOfSlice(b, lo, hi, i + |pat|, hi - lo);
    PiecesAfterMatch(b[lo..hi], pat, i, b[lo..lo + i], b[lo + i + |pat|..hi]);
  }

  /** The bytes of the next piece and of the pattern after it. */
  lemma NextPieceBytes(b: seq<byte>, lo: nat, hi: nat, pat: seq<byte>, i: nat)
    requires lo <= hi <= |b| && |pat| > 0 && Find(b[lo..hi], pat) == Some(i)
    ensures lo + i + |pat| <= hi && b[lo + i..lo + i + |pat|] == pat
    ensures b[lo..hi][..i] == b[lo..lo + i]
    ensures Find(b[lo..lo + i], pat).None?
  {
    SliceOfSlice(b, lo, hi, i, i + |pat|);
    NoMatchBefore(b[lo..hi], pat, i);
  }

  /** `Pieces` after a first match at `i`, with the bytes before and after it named. */
  lemma PiecesAfterMatch(s: seq<byte>, pat: seq<byte>, i: nat, before: seq<byte>, after: seq<byte>)
    requires |pat| > 0 && Find(s, pat) == Some(i)
    requires i + |pat| <= |s| && s[..i] == before && s[i + |pat|..] == after
    ensures Pieces(s, pat) == [before] + Pieces(after, pat)
  {
    PiecesStep(s, pat);
  }

  /** A slice of a slice is a slice. */
  lemma SliceOfSlice(b: seq<byte>, lo: nat, hi: nat, x: nat, y: nat)
    requires lo <= hi <= |b| && x <= y <= hi - lo
    ensures b[lo..hi][..x] == b[lo..lo + x]
    ensures b[lo..hi][x..] == b[lo + x..hi]
    ensures b[lo..hi][x..y] == b[lo + x..lo + y]
  {
    assert forall k :: 0 <= k < y - x ==> b[lo..hi][x..y][k] == b[lo + x..lo + y][k];
  }

  /** The bytes before the first match hold no match. */
  lemma NoMatchBefore(s: seq<byte>, pat: seq<byte>, i: nat)
    requires |pat| > 0 && Find(s, pat) == Some(i)
    ensures Find(s[..i], pat).None?
  {
    forall j | 0 <= j ensures !MatchesAt(s[..i], pat, j) {
      if MatchesAt(s[..i], pat, j) {
        assert s[..i][j..j + |pat|] == s[j..j + |pat|];
        assert MatchesAt(s, pat, j);
      }
    }
  }

  /** The last step of the split iterators on `b[lo..hi]`: what is left is the last piece. */
  lemma NextPieceLast(b: seq<byte>, lo: nat, hi: nat, pat: seq<byte>)
    requires lo <= hi <= |b| && |pat| > 0 && Find(b[lo..hi], pat).None?
    ensures Pieces(b[lo..hi], pat) == if lo == hi then [] else [b[lo..hi]]
  {
  }

  /** The example from the module's tests: "hi ho ha" split on a space. */
  lemma PiecesExample()
    ensures Pieces([0x68, 0x69, 0x20, 0x68, 0x6F, 0x20, 0x68, 0x61], [0x20]) ==
      [[0x68, 0x69], [0x68, 0x6F], [0x68, 0x61]]
  {
    var s: seq<byte> := [0x68, 0x69, 0x20, 0x68, 0x6F, 0x20, 0x68, 0x61];
    var t: seq<byte> := [0x68, 0x6F, 0x20, 0x68, 0x61];
    var u: seq<byte> := [0x68, 0x61];
    assert s == [0x68, 0x69] + [0x20] + t;
    SpaceAtTwo([0x68, 0x69], t);
    PiecesAfterMatch(s, [0x20], 2, [0x68, 0x69], t);
    assert t == [0x68, 0x6F] + [0x20] + u;
    SpaceAtTwo([0x68, 0x6F], u);
    PiecesAfterMatch(t, [0x20], 2, [0x68, 0x6F], u);
    assert Find(u, [0x20]) == None by {
      MatchesAtByte(u, 0x20, 0);
      MatchesAtByte(u, 0x20, 1);
    }
    PiecesStep(u, [0x20]);
  }

  /** In a word of two bytes without a space followed by a space, the first space is at 2. */
  lemma SpaceAtTwo(w: seq<byte>, rest: seq<byte>)
    requires |w| == 2 && w[0] != 0x20 && w[1] != 0x20
    ensures Find(w + [0x20] + rest, [0x20]) == Some(2)
    ensures (w + [0x20] + rest)[..2] == w && (w + [0x20] + rest)[3..] == rest
  {
    var s := w + [0x20] + rest;
    MatchesAtByte(s, 0x20, 0);
    MatchesAtByte(s, 0x20, 1);
    MatchesAtByte(s, 0x20, 2);
    assert s[..2] == w;
    assert s[3..] == rest;
  }

  /**
   * `SplitMutIterator` (`buffer_split_mut`): the remaining part of the buffer
   * is the `string` field, `None` once the iterator is spent.
   */
  class SplitMutIterator {
    const buffer: array<byte>
    const pattern: seq<byte>
    var rest: Option<(nat, nat)>

    ghost predicate Valid()
      reads this
    {
      |pattern| > 0 && (rest.Some? ==> rest.value.0 <= rest.value.1 <= buffer.Length)
    }

    /** The pieces still to come, as the buffer now holds them. */
    ghost function Upcoming(): seq<seq<byte>>
      requires Valid()
      reads this, buffer
    {
      if rest.None? then [] else Pieces(buffer[rest.value.0..rest.value.1], pattern)
    }

    /** `buffer_split_mut(buffer[lo..hi], pattern)`. */
    constructor (buffer: array<byte>, lo: nat, hi: nat, pattern: seq<byte>)
      requires lo <= hi <= buffer.Length && |pattern| > 0
      ensures this.buffer == buffer && this.pattern == pattern && rest == Some((lo, hi))
      ensures Valid() && Upcoming() == Pieces(buffer[lo..hi], pattern)
    {
      this.buffer := buffer;
      this.pattern := pattern;
      rest := Some((lo, hi));
    }

    /**
     * `next`: yields the next piece, which starts where the remainder
     * started, and continues just after the pattern that ends it. Once it
     * returns `None` or the last piece, it returns `None` for good.
     */
    method Next() returns (piece: Option<(nat, nat)>)
      requires Valid()
      modifies this
      ensures Valid()
      ensures old(Upcoming()) == [] <==> piece.None?
      ensures piece.None? ==> rest.None?
      ensures piece.None? && old(rest).Some? ==> old(rest).value.0 == old(rest).value.1
      ensures piece.Some? ==>
        && old(rest).Some? && piece.value.0 == old(rest).value.0
        && piece.value.0 <= piece.value.1 <= buffer.Length
        && buffer[piece.value.0..piece.value.1] == old(Upcoming())[0]
        && Upcoming() == old(Upcoming())[1..]
        && (forall j :: 0 <= j ==> !MatchesAt(buffer[piece.value.0..piece.value.1], pattern, j))
        && (rest.None? ==> piece.value.0 < piece.value.1 == old(rest).value.1)
        && (rest.Some? ==>
             && piece.value.1 + |pattern| == rest.value.0 && rest.value.1 == old(rest).value.1
             && buffer[piece.value.1..rest.value.0] == pattern)
      ensures piece.Some? && rest.Some? ==>
        Find(buffer[piece.value.0..old(rest).value.1], pattern) == Some(piece.value.1 - piece.value.0)
      ensures piece.Some? && rest.None? ==> Find(buffer[piece.value.0..old(rest).value.1], pattern).None?
    {
      if rest.None? {
        return None;
      }
      var (lo, hi) := rest.value;
      rest := None;
      match Find(buffer[lo..hi], pattern)
      case Some(endIdx) =>
        NextPieceFound(buffer[..], lo, hi, pattern, endIdx);
        ghost var later := Pieces(buffer[lo + endIdx + |pattern|..hi], pattern);
        assert ([buffer[lo..lo + endIdx]] + later)[1..] == later;
        rest := Some((lo + endIdx + |pattern|, hi));
        return Some((lo, lo + endIdx));
      case None =>
        NextPieceLast(buffer[..], lo, hi, pattern);
        assert [buffer[lo..hi]][1..] == [];
        if hi - lo != 0 {
          return Some((lo, hi));
        } else {
          return None;
        }
    }
  }

  /**
   * `StrSplitMut` (`str_split_mut`, src/str.rs): the same iteration over a
   * text, kept as a separate type as the source does.
   */
  class StrSplitMut {
    const text: array<byte>
    const pattern: seq<byte>
    var rest: Option<(nat, nat)>

    ghost predicate Valid()
      reads this
    {
      |pattern| > 0 && (rest.Some? ==> rest.value.0 <= rest.value.1 <= text.Length)
    }

    /** The pieces still to come, as the text now holds them. */
    ghost function Upcoming(): seq<seq<byte>>
      requires Valid()
      reads this, text
    {
      if rest.None? then [] else Pieces(text[rest.value.0..rest.value.1], pattern)
    }

    /** `str_split_mut(text[lo..hi], pattern)`. */
    constructor (text: array<byte>, lo: nat, hi: nat, pattern: seq<byte>)
      requires lo <= hi <= text.Length && |pattern| > 0
      ensures this.text == text && this.pattern == pattern && rest == Some((lo, hi))
      ensures Valid() && Upcoming() == Pieces(text[lo..hi], pattern)
    {
      this.text := text;
      this.pattern := pattern;
      rest := Some((lo, hi));
    }

    /** `next`: as `SplitMutIterator.Next`, with `str::find` as the search. */
    method Next() returns (piece: Option<(nat, nat)>)
      requires Valid()
      modifies this
      ensures Valid()
      ensures old(Upcoming()) == [] <==> piece.None?
      ensures piece.None? ==> rest.None?
      ensures piece.None? && old(rest).Some? ==> old(rest).value.0 == old(rest).value.1
      ensures piece.Some? ==>
        && old(rest).Some? && piece.value.0 == old(rest).value.0
        && piece.value.0 <= piece.value.1 <= text.Length
        && text[piece.value.0..piece.value.1] == old(Upcoming())[0]
        && Upcoming() == old(Upcoming())[1..]
        && (forall j :: 0 <= j ==> !MatchesAt(text[piece.value.0..piece.value.1], pattern, j))
        && (rest.None? ==> piece.value.0 < piece.value.1 == old(rest).value.1)
        && (rest.Some? ==>
             && piece.value.1 + |pattern| == rest.value.0 && rest.value.1 == old(rest).value.1
             && text[piece.value.1..rest.value.0] == pattern)
      ensures piece.Some? && rest.Some? ==>
        Find(text[piece.value.0..old(rest).value.1], pattern) == Some(piece.value.1 - piece.value.0)
      ensures piece.Some? && rest.None? ==> Find(text[piece.value.0..old(rest).value.1], pattern).None?
    {
      if rest.None? {
        return None;
      }
      var (lo, hi) := rest.value;
      rest := None;
      match Find(text[lo..hi], pattern)
      case Some(endIdx) =>
        NextPieceFound(text[..], lo, hi, pattern, endIdx);
        ghost var later := Pieces(text[lo + endIdx + |pattern|..hi], pattern);
        assert ([text[lo..lo + endIdx]] + later)[1..] == later;
        rest := Some((lo + endIdx + |pattern|, hi));
        return Some((lo, lo + endIdx));
      case None =>
        NextPieceLast(text[..], lo, hi, pattern);
        assert [text[lo..hi]][1..] == [];
        if hi - lo != 0 {
          return Some((lo, hi));
        } else {
          return None;
        }
    }
  }
}
