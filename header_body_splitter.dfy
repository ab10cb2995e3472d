/**
 * Finding the end of the header section of an HTTP message (the empty line
 * of section 3 of RFC 7230) in a buffer that grows as bytes arrive
 * (src/http/header_body_splitter.rs). Each call searches only from three
 * bytes before where the previous call's buffer ended.
 */
module HeaderBodySplitter {
  import opened Wrappers
  import opened Bytes

  /** `HEADER_END`: CR LF CR LF. */
  const HeaderEnd: seq<byte> := [0x0D, 0x0A, 0x0D, 0x0A]

  /** Where a call searches from, given the length the previous call saw: `max(4, find_offset + 1) - 4`. */
  function SearchStart(findOffset: nat): nat
  {
    if findOffset + 1 > |HeaderEnd| then findOffset + 1 - |HeaderEnd| else 0
  }

  /**
   * The split a call reports for `buffer` when searching from `offset`: the
   * length of the headers, which is where the first CR LF CR LF at or after
   * `offset` starts; the body starts four bytes later.
   */
  function SplitFrom(buffer: seq<byte>, offset: nat): (r: Option<nat>)
    ensures r.Some? ==>
      (offset <= r.value && MatchesAt(buffer, HeaderEnd, r.value) &&
       forall j :: offset <= j < r.value ==> !MatchesAt(buffer, HeaderEnd, j))
    ensures r.None? ==> forall j :: offset <= j ==> !MatchesAt(buffer, HeaderEnd, j)
  {
    if offset > |buffer| then None else FindFrom(buffer, HeaderEnd, offset)
  }

  /**
   * Searching from where the previous call left off loses nothing: when the
   * previous buffer `prev` had no CR LF CR LF and the current one extends
   * it, the search from `SearchStart(|prev|)` finds the first CR LF CR LF of
   * the whole buffer, even one that straddles the old end.
   */
  lemma IncrementalSearch(prev: seq<byte>, cur: seq<byte>)
    requires prev <= cur
    requires forall j :: 0 <= j ==> !MatchesAt(prev, HeaderEnd, j)
    ensures SplitFrom(cur, SearchStart(|prev|)) == SplitFrom(cur, 0)
  {
    var offset := SearchStart(|prev|);
    forall j | 0 <= j < offset ensures !MatchesAt(cur, HeaderEnd, j) {
      assert !MatchesAt(prev, HeaderEnd, j);
      assert cur[j..j + 4] == prev[j..j + 4];
    }
    var r0, r1 := SplitFrom(cur, 0), SplitFrom(cur, offset);
    if r0.Some? {
      assert offset <= r0.value;
    }
  }

  /** Searching the suffix `buffer[offset..]` is searching `buffer` from `offset`. */
  lemma SearchSuffix(buffer: seq<byte>, offset: nat)
    requires offset <= |buffer|
    ensures Find(buffer[offset..], HeaderEnd).None? ==> SplitFrom(buffer, offset).None?
    ensures Find(buffer[offset..], HeaderEnd).Some? ==>
      SplitFrom(buffer, offset) == Some(offset + Find(buffer[offset..], HeaderEnd).value)
  {
    var space := buffer[offset..];
    forall j | offset <= j ensures MatchesAt(buffer, HeaderEnd, j) == MatchesAt(space, HeaderEnd, j - offset) {
      if j + 4 <= |buffer| {
        assert space[j - offset..j - offset + 4] == buffer[j..j + 4];
      }
    }
    match Find(space, HeaderEnd)
    case None =>
    case Some(p) =>
      var r := SplitFrom(buffer, offset);
      assert MatchesAt(buffer, HeaderEnd, offset + p);
      assert r.Some? && r.value <= offset + p;
      assert !MatchesAt(space, HeaderEnd, r.value - offset) || r.value == offset + p;
  }

  /**
   * `HeaderBodySplitter`: remembers how long the buffer was at the previous
   * call (`find_offset`, 1 before the first call).
   */
  class HeaderBodySplitter {
    var findOffset: nat

    /** `new`: the first call searches from index 0. */
    constructor ()
      ensures findOffset == 1 && SearchStart(findOffset) == 0
    {
      findOffset := 1;
    }

    /**
     * `try_split`: searches `buffer` from `SearchStart(find_offset)` and
     * records the buffer's length for the next call, match or not. On a
     * match at `h` the headers are `buffer[..h]` and the body `buffer[h + 4..]`.
     */
    method TrySplit(buffer: seq<byte>) returns (headersLen: Option<nat>)
      modifies this
      ensures findOffset == |buffer|
      ensures headersLen == SplitFrom(buffer, SearchStart(old(findOffset)))
      ensures headersLen.Some? ==> headersLen.value + |HeaderEnd| <= |buffer|
    {
      var offset := SearchStart(findOffset);
      findOffset := |buffer|;
      if offset > |buffer| {
        return None;
      }
      var searchSpace := buffer[offset..];
      var position := Find(searchSpace, HeaderEnd);
      SearchSuffix(buffer, offset);
      if position.None? {
        return None;
      }
      return Some(offset + position.value);
    }
  }
}
