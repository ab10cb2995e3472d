/**
 * Decoding a query string in place so that its names and values can be read
 * back without copying (src/http/url_params/decode.rs). The string is split
 * on `&`, each piece at its first `=`, and each component is decoded where
 * it stands:
 *
 * - a component without a percent escape is decoded from its first byte (it
 *   only turns `+` into spaces, so its length is kept);
 * - a component with an escape is decoded from its second byte and its first
 *   byte becomes NUL, which tells the reader that `&` and `=` inside it are
 *   literal and that the component ends at the next NUL.
 *
 * Either way the rest of the component is filled with NUL, so the buffer's
 * length and the `&` and `=` separators stay where they were. A decoded
 * component holding a NUL, or that is not UTF-8, is refused.
 */
module UrlParamsDecode {
  import opened Wrappers
  import opened Bytes
  import opened Errors
  import opened UrlDecode
  import opened HttpStr
  import opened Split

  /** `validate_component`: NUL is refused first, then text that is not UTF-8 (RFC 3629 section 4). */
  function ValidateComponent(d: seq<byte>): (r: Result<(), RequestError>)
    ensures r.Ok? <==> NUL !in d && IsUtf8(d)
    ensures r == Err(UrlEncodedNul) <==> NUL in d
    ensures r == Err(InvalidEncoding) <==> NUL !in d && !IsUtf8(d)
  {
    if NUL in d then Err(UrlEncodedNul)
    else if !IsUtf8(d) then Err(InvalidEncoding)
    else Ok(())
  }

  /** `m` followed by as many NUL bytes as it takes to make it `n` bytes long. */
  function Padded(m: seq<byte>, n: nat): seq<byte>
  {
    if |m| < n then m + Zeros(n - |m|) else m
  }

  /** What `decode_and_mark_component` leaves in the component `c`, or the error it returns. */
  function MarkComponent(c: seq<byte>): (r: Result<seq<byte>, RequestError>)
    ensures r.Err? ==> r.error == UrlEncodedNul || r.error == InvalidEncoding
    ensures r.Ok? ==> |r.value| == |c|
  {
    DecodedLength(c);
    var d := Decoded(c);
    match ValidateComponent(d)
    case Err(e) => Err(e)
    case Ok(_) =>
      if HasEscape(c) then Ok(Padded([NUL] + d, |c|))
      else Ok(Padded(d, |c|))
  }

  /**
   * Marking keeps the component's length. Without an escape the result is
   * the input with `+` turned into spaces; with one it is NUL, the decoding,
   * then at least one NUL of padding. It fails exactly when the decoding
   * holds a NUL (`UrlEncodedNul`) or else is not UTF-8 (`InvalidEncoding`).
   */
  lemma MarkComponentSpec(c: seq<byte>)
    ensures MarkComponent(c).Err? <==> NUL in Decoded(c) || !IsUtf8(Decoded(c))
    ensures MarkComponent(c).Err? ==>
      MarkComponent(c).error == if NUL in Decoded(c) then UrlEncodedNul else InvalidEncoding
    ensures MarkComponent(c).Ok? ==> |MarkComponent(c).value| == |c|
    ensures MarkComponent(c).Ok? && !HasEscape(c) ==> MarkComponent(c).value == PlusToSpace(c)
    ensures MarkComponent(c).Ok? && HasEscape(c) ==>
      var m, d := MarkComponent(c).value, Decoded(c);
      && 1 <= |d| && |d| + 2 <= |c|
      && m[0] == NUL && m[1..|d| + 1] == d
      && forall k :: |d| + 1 <= k < |c| ==> m[k] == NUL
  {
    DecodedLength(c);
    if !HasEscape(c) {
      DecodedWithoutEscape(c);
      assert Zeros(0) == [];
    }
    if HasEscape(c) && MarkComponent(c).Ok? {
      var m, d := MarkComponent(c).value, Decoded(c);
      assert |c| > 0;
      assert |d| >= 1 by { assert d == DecodedFrom(c, 0); }
      assert m[1..|d| + 1] == d;
    }
  }

  /**
   * What `decode_and_mark_params` does to one `&`-separated piece: splits it
   * at the first `=` and marks the name and, when there is one, the value.
   */
  function MarkPair(p: seq<byte>): (r: Result<seq<byte>, RequestError>)
    ensures r.Err? ==> r.error == UrlEncodedNul || r.error == InvalidEncoding
    ensures r.Ok? ==> |r.value| == |p|
  {
    var (nameLen, valueStart) := TrySplitTwo(p, [ASSIGN]);
    match MarkComponent(p[..nameLen])
    case Err(e) => Err(e)
    case Ok(name) =>
      if valueStart.None? then Ok(name)
      else match MarkComponent(p[valueStart.value..])
        case Err(e) => Err(e)
        case Ok(value) => Ok(name + [ASSIGN] + value)
  }

  /**
   * The query string `q` split at every `&`, each piece marked by `mark`
   * from left to right with the `&`s kept, or the first error; an empty
   * rest after the last `&` is not visited.
   */
  function MarkPieces(q: seq<byte>, mark: seq<byte> -> Result<seq<byte>, RequestError>): Result<seq<byte>, RequestError>
    decreases |q|
  {
    match Find(q, [AMPERSAND])
    case Some(i) =>
      (match mark(q[..i])
       case Err(e) => Err(e)
       case Ok(pair) => Prepend(pair + [AMPERSAND], MarkPieces(q[i + 1..], mark)))
    case None => if q == [] then Ok([]) else mark(q)
  }

  /** What `decode_and_mark_params` leaves in the query string `q`, or the first error. */
  function MarkParams(q: seq<byte>): (r: Result<seq<byte>, RequestError>)
    ensures r.Err? ==> r.error == UrlEncodedNul || r.error == InvalidEncoding
  {
    MarkPiecesErrors(q);
    MarkPieces(q, MarkPair)
  }

  /** Marking the pieces fails only with the errors of marking one pair. */
  lemma {:induction false} MarkPiecesErrors(q: seq<byte>)
    ensures MarkPieces(q, MarkPair).Err? ==>
      MarkPieces(q, MarkPair).error == UrlEncodedNul || MarkPieces(q, MarkPair).error == InvalidEncoding
    decreases |q|
  {
    match Find(q, [AMPERSAND])
    case Some(i) =>
      MarkPiecesErrors(q[i + 1..]);
    case None =>
  }

  /** Marking a pair keeps its length and the `=` that separates name and value. */
  lemma MarkPairKeepsShape(p: seq<byte>)
    ensures MarkPair(p).Ok? ==> |MarkPair(p).value| == |p|
    ensures MarkPair(p).Ok? ==> forall k :: 0 <= k < |p| && p[k] == ASSIGN && ASSIGN !in p[..k] ==> MarkPair(p).value[k] == ASSIGN
  {
    var (nameLen, valueStart) := TrySplitTwo(p, [ASSIGN]);
    MarkComponentSpec(p[..nameLen]);
    if valueStart.Some? {
      MarkComponentSpec(p[valueStart.value..]);
      MatchesAtByte(p, ASSIGN, nameLen);
    }
    if valueStart.Some? {
      forall k | nameLen < k <= |p| ensures ASSIGN in p[..k] {
        assert p[..k][nameLen] == ASSIGN;
      }
    }
    if MarkPair(p).Ok? {
      forall k | 0 <= k < |p| && p[k] == ASSIGN && ASSIGN !in p[..k] ensures MarkPair(p).value[k] == ASSIGN {
        MatchesAtByte(p, ASSIGN, k);
        if valueStart.None? {
          assert false;
        } else if k < nameLen {
          assert false;
        }
      }
    }
  }

  /**
   * Marking a query string keeps its length and every `&` where it was, and
   * fails with the first piece's error, left to right.
   */
  lemma {:induction false} MarkParamsKeepsShape(q: seq<byte>)
    ensures MarkParams(q).Ok? ==> |MarkParams(q).value| == |q|
    ensures MarkParams(q).Ok? ==> forall k :: 0 <= k < |q| && q[k] == AMPERSAND ==> MarkParams(q).value[k] == AMPERSAND
    decreases |q|
  {
    match Find(q, [AMPERSAND])
    case Some(i) =>
      MarkPairKeepsShape(q[..i]);
      MarkParamsKeepsShape(q[i + 1..]);
      if MarkParams(q).Ok? {
        var pair, rest := MarkPair(q[..i]).value, MarkParams(q[i + 1..]).value;
        var m := MarkParams(q).value;
        assert m == pair + [AMPERSAND] + rest;
        forall k | 0 <= k < |q| && q[k] == AMPERSAND ensures m[k] == AMPERSAND {
          MatchesAtByte(q, AMPERSAND, k);
          if k < i {
            assert false;
          } else if k > i {
            assert q[k] == q[i + 1..][k - i - 1];
          }
        }
      }
    case None =>
      if q != [] {
        MarkPairKeepsShape(q);
        forall k | 0 <= k < |q| ensures q[k] != AMPERSAND {
          MatchesAtByte(q, AMPERSAND, k);
        }
      }
  }

  /** A lone name holding a literal NUL is refused with `UrlEncodedNul`: decoding keeps the NUL. */
  lemma MarkParamsRefusesNul(q: seq<byte>)
    requires NUL in q && AMPERSAND !in q && ASSIGN !in q
    ensures MarkParams(q) == Err(UrlEncodedNul)
  {
    forall k | 0 <= k ensures !MatchesAt(q, [AMPERSAND], k) {
      MatchesAtByte(q, AMPERSAND, k);
    }
    forall k | 0 <= k ensures !MatchesAt(q, [ASSIGN], k) {
      MatchesAtByte(q, ASSIGN, k);
    }
    assert q[..|q|] == q;
    NulSurvivesDecoding(q);
  }

  /** A literal NUL in the input is still there after decoding. */
  lemma NulSurvivesDecoding(s: seq<byte>)
    requires NUL in s
    ensures NUL in Decoded(s)
  {
    var i :| 0 <= i < |s| && s[i] == NUL;
    NulSurvivesFrom(s, 0, i);
  }

  lemma {:induction false} NulSurvivesFrom(s: seq<byte>, r: nat, i: nat)
    requires r <= i < |s| && s[i] == NUL
    ensures NUL in DecodedFrom(s, r)
    decreases |s| - r
  {
    var step := NextDecoded(s, r);
    assert HexDecodeDigit(NUL).None?;
    assert step.1 == 3 ==> s[r + 1] != NUL && s[r + 2] != NUL;
    if r < i {
      NulSurvivesFrom(s, r + step.1, i);
    }
  }

  /** The NUL-filling loop at the end of `decode_and_mark_component`. */
  method FillNul(a: array<byte>, lo: nat, hi: nat)
    requires lo <= hi <= a.Length
    modifies a
    ensures forall k :: 0 <= k < a.Length ==> a[k] == if lo <= k < hi then NUL else old(a[k])
  {
    for i := lo to hi
      invariant forall k :: 0 <= k < a.Length ==> a[k] == if lo <= k < i then NUL else old(a[k])
    {
      a[i] := NUL;
    }
  }

  /** A component whose first bytes are `m` and whose other bytes are NUL is `m` padded with NUL. */
  lemma PaddedLayout(x: seq<byte>, m: seq<byte>)
    requires |m| <= |x| && x[..|m|] == m
    requires forall k :: |m| <= k < |x| ==> x[k] == NUL
    ensures x == Padded(m, |x|)
  {
    assert x == x[..|m|] + x[|m|..];
  }

  /**
   * What an in-place marking of `before[lo..hi]` that reports `r` leaves
   * behind when the marking is specified by `expected`: the same outcome,
   * the expected bytes in the range on success, and every byte outside the
   * range as it was.
   */
  ghost predicate Marked(before: seq<byte>, after: seq<byte>, lo: nat, hi: nat,
                         r: Result<(), RequestError>, expected: Result<seq<byte>, RequestError>)
  {
    && lo <= hi <= |before| == |after|
    && after[..lo] == before[..lo] && after[hi..] == before[hi..]
    && (r.Ok? <==> expected.Ok?)
    && (r.Err? && expected.Err? ==> r.error == expected.error)
    && (r.Ok? && expected.Ok? ==> after[lo..hi] == expected.value)
  }

  /** A change confined to `[lo, hi)` leaves the slices on both sides as they were. */
  lemma FrameSlices(before: seq<byte>, after: seq<byte>, lo: nat, hi: nat)
    requires lo <= hi <= |before| == |after|
    requires forall k :: 0 <= k < |after| && !(lo <= k < hi) ==> after[k] == before[k]
    ensures after[..lo] == before[..lo] && after[hi..] == before[hi..]
  {
    assert forall k :: 0 <= k < lo ==> after[..lo][k] == before[..lo][k];
    assert forall k :: 0 <= k < |after| - hi ==> after[hi..][k] == before[hi..][k];
  }

  /**
   * `decode_and_mark_component` on the component `a[lo..hi]`: decodes it in
   * place, with the NUL marker when it holds an escape, checks the decoding
   * and pads with NUL; on success the component holds `MarkComponent` of
   * what it held. No byte outside the component changes.
   */
  method DecodeAndMarkComponent(a: array<byte>, lo: nat, hi: nat) returns (r: Result<(), RequestError>)
    requires lo <= hi <= a.Length
    modifies a
    ensures Marked(old(a[..]), a[..], lo, hi, r, MarkComponent(old(a[lo..hi])))
  {
    ghost var before := a[..];
    var escaped := ContainsPercentValues(a[lo..hi]);
    if escaped {
      r := MarkEscaped(a, lo, hi);
    } else {
      r := MarkPlain(a, lo, hi);
    }
    FrameSlices(before, a[..], lo, hi);
  }

  /** The branch of `decode_and_mark_component` for a component with an escape. */
  method MarkEscaped(a: array<byte>, lo: nat, hi: nat) returns (r: Result<(), RequestError>)
    requires lo <= hi <= a.Length && HasEscape(a[lo..hi])
    modifies a
    ensures r.Ok? <==> MarkComponent(old(a[lo..hi])).Ok?
    ensures r.Err? ==> r.error == MarkComponent(old(a[lo..hi])).error
    ensures r.Ok? ==> a[lo..hi] == MarkComponent(old(a[lo..hi])).value
    ensures forall k :: 0 <= k < a.Length && !(lo <= k < hi) ==> a[k] == old(a[k])
  {
    ghost var c := a[lo..hi];
    ghost var d := Decoded(c);
    DecodedLength(c);
    var start, end := DecodeAndMove1(a, lo, hi);
    var valid := ValidateComponent(a[start..end]);
    if valid.Err? {
      return Err(valid.error);
    }
    MarkAndPad(a, lo, end, hi, d);
    return Ok(());
  }

  /**
   * Puts the NUL marker in front of the decoding `m` that sits just after
   * `a[lo]` and fills the rest of the component `a[lo..hi]` with NUL.
   */
  method MarkAndPad(a: array<byte>, lo: nat, end: nat, hi: nat, ghost m: seq<byte>)
    requires lo < end <= hi <= a.Length && a[lo + 1..end] == m
    modifies a
    ensures a[lo..hi] == Padded([NUL] + m, hi - lo)
    ensures forall k :: 0 <= k < a.Length && !(lo <= k < hi) ==> a[k] == old(a[k])
  {
    a[lo] := NUL;
    assert a[lo..end] == [NUL] + m;
    ghost var mid := a[..];
    FillNul(a, end, hi);
    assert a[lo..end] == mid[lo..end];
    PaddedLayout(a[lo..hi], [NUL] + m);
  }

  /** The branch of `decode_and_mark_component` for a component without an escape. */
  method MarkPlain(a: array<byte>, lo: nat, hi: nat) returns (r: Result<(), RequestError>)
    requires lo <= hi <= a.Length && !HasEscape(a[lo..hi])
    modifies a
    ensures r.Ok? <==> MarkComponent(old(a[lo..hi])).Ok?
    ensures r.Err? ==> r.error == MarkComponent(old(a[lo..hi])).error
    ensures r.Ok? ==> a[lo..hi] == MarkComponent(old(a[lo..hi])).value
    ensures forall k :: 0 <= k < a.Length && !(lo <= k < hi) ==> a[k] == old(a[k])
  {
    ghost var c := a[lo..hi];
    DecodedLength(c);
    var start, end := Decode(a, lo, hi);
    var valid := ValidateComponent(a[start..end]);
    if valid.Err? {
      return Err(valid.error);
    }
    ghost var mid := a[..];
    FillNul(a, end, hi);
    assert a[lo..end] == mid[lo..end];
    PaddedLayout(a[lo..hi], Decoded(c));
    return Ok(());
  }

  /**
   * The body of the loop in `decode_and_mark_params` for the piece
   * `a[lo..hi]`: marks the name, then the value when there is an `=`; the
   * first error is returned. On success the piece holds `MarkPair` of what
   * it held.
   */
  method DecodeAndMarkPair(a: array<byte>, lo: nat, hi: nat) returns (r: Result<(), RequestError>)
    requires lo <= hi <= a.Length
    modifies a
    ensures Marked(old(a[..]), a[..], lo, hi, r, MarkPair(old(a[lo..hi])))
  {
    ghost var s0 := a[..];
    var (nameLen, valueStart) := TrySplitTwo(a[lo..hi], [ASSIGN]);
    var named := DecodeAndMarkComponent(a, lo, lo + nameLen);
    ghost var s1 := a[..];
    r := named;
    if named.Ok? && valueStart.Some? {
      r := DecodeAndMarkComponent(a, lo + valueStart.value, hi);
    }
    MarkedPair(s0, s1, a[..], lo, hi, nameLen, valueStart, named, r);
  }

  /** The two component markings of `DecodeAndMarkPair` make up the marking of the pair. */
  lemma MarkedPair(s0: seq<byte>, s1: seq<byte>, s2: seq<byte>, lo: nat, hi: nat,
                   nameLen: nat, valueStart: Option<nat>, named: Result<(), RequestError>, r: Result<(), RequestError>)
    requires lo <= hi <= |s0|
    requires (nameLen, valueStart) == TrySplitTwo(s0[lo..hi], [ASSIGN])
    requires Marked(s0, s1, lo, lo + nameLen, named, MarkComponent(s0[lo..lo + nameLen]))
    requires named.Ok? && valueStart.Some? ==>
      Marked(s1, s2, lo + valueStart.value, hi, r, MarkComponent(s1[lo + valueStart.value..hi]))
    requires !(named.Ok? && valueStart.Some?) ==> s2 == s1 && r == named
    ensures Marked(s0, s2, lo, hi, r, MarkPair(s0[lo..hi]))
  {
    var valueMark := if valueStart.Some? then MarkComponent(s1[lo + valueStart.value..hi]) else Ok([]);
    if valueStart.Some? {
      SameSuffix(s1, s0, lo + nameLen, lo + valueStart.value, hi);
    }
    MarkPairShape(s0, lo, hi, nameLen, valueStart, MarkComponent(s0[lo..lo + nameLen]), valueMark);
    ComposedMarks(s0, s1, s2, lo, hi, nameLen, valueStart, named, r,
                  MarkComponent(s0[lo..lo + nameLen]), valueMark, MarkPair(s0[lo..hi]));
  }

  /**
   * The layout argument of `MarkedPair`, for any markings of the name and
   * the value that combine into the marking of the pair as `MarkPair` does.
   */
  lemma ComposedMarks(s0: seq<byte>, s1: seq<byte>, s2: seq<byte>, lo: nat, hi: nat,
                      nameLen: nat, valueStart: Option<nat>, named: Result<(), RequestError>, r: Result<(), RequestError>,
                      nameMark: Result<seq<byte>, RequestError>, valueMark: Result<seq<byte>, RequestError>,
                      pairMark: Result<seq<byte>, RequestError>)
    requires lo <= hi <= |s0| && Composes(hi - lo, nameLen, valueStart, nameMark, valueMark, pairMark)
    requires valueStart.Some? ==> s0[lo + nameLen] == ASSIGN
    requires Marked(s0, s1, lo, lo + nameLen, named, nameMark)
    requires named.Ok? && valueStart.Some? ==> Marked(s1, s2, lo + valueStart.value, hi, r, valueMark)
    requires !(named.Ok? && valueStart.Some?) ==> s2 == s1 && r == named
    ensures Marked(s0, s2, lo, hi, r, pairMark)
  {
    if named.Ok? && valueStart.Some? {
      var v := valueStart.value;
      ChainedFrames(s0, s1, s2, lo, lo + nameLen, lo + v, hi);
      if r.Ok? {
        JoinedAtAssign(s0, s1, s2, lo, lo + nameLen, hi, nameMark.value, valueMark.value);
      }
    }
  }

  /**
   * Two in-place changes, of `[lo..mid]` and then of `[vlo..hi]` with
   * `mid <= vlo`, leave everything outside `[lo..hi]` as it was.
   */
  lemma ChainedFrames(s0: seq<byte>, s1: seq<byte>, s2: seq<byte>, lo: nat, mid: nat, vlo: nat, hi: nat)
    requires lo <= mid <= vlo <= hi <= |s0| == |s1| == |s2|
    requires s1[..lo] == s0[..lo] && s1[mid..] == s0[mid..]
    requires s2[..vlo] == s1[..vlo] && s2[hi..] == s1[hi..]
    ensures s2[..lo] == s0[..lo] && s2[hi..] == s0[hi..]
  {
    SamePrefix(s2, s1, vlo, 0, lo);
    SameSuffix(s1, s0, mid, hi, hi);
  }

  /**
   * A name marked in place as `x` in `[lo..eq]`, the `=` at `eq` and then a
   * value marked in place as `y` in `[eq + 1..hi]` make up `x + [=] + y`.
   */
  lemma JoinedAtAssign(s0: seq<byte>, s1: seq<byte>, s2: seq<byte>, lo: nat, eq: nat, hi: nat,
                       x: seq<byte>, y: seq<byte>)
    requires lo <= eq < hi <= |s0| == |s1| == |s2| && s0[eq] == ASSIGN
    requires s1[lo..eq] == x && s1[eq..] == s0[eq..]
    requires s2[..eq + 1] == s1[..eq + 1] && s2[eq + 1..hi] == y
    ensures s2[lo..hi] == x + [ASSIGN] + y
  {
    SamePrefix(s2, s1, eq + 1, lo, eq);
    SamePrefix(s2, s1, eq + 1, eq, eq + 1);
    SameSuffix(s1, s0, eq, eq, eq + 1);
    assert s2[eq..eq + 1] == [ASSIGN];
    assert s2[lo..hi] == s2[lo..eq] + s2[eq..eq + 1] + s2[eq + 1..hi];
  }

  /**
   * How the marking `pairMark` of an `n`-byte pair is made of the marking
   * `nameMark` of its first `nameLen` bytes and, when there is an `=`
   * (`valueStart` just after it), the marking `valueMark` of the bytes after
   * it: the first error, or the two markings around the `=`.
   */
  ghost predicate Composes(n: nat, nameLen: nat, valueStart: Option<nat>, nameMark: Result<seq<byte>, RequestError>,
                           valueMark: Result<seq<byte>, RequestError>, pairMark: Result<seq<byte>, RequestError>)
  {
    && (valueStart.None? ==> nameLen == n && pairMark == nameMark)
    && (valueStart.Some? ==> nameLen + 1 == valueStart.value <= n)
    && (valueStart.Some? && nameMark.Err? ==> pairMark == nameMark)
    && (valueStart.Some? && nameMark.Ok? && valueMark.Err? ==> pairMark == valueMark)
    && (valueStart.Some? && nameMark.Ok? && valueMark.Ok? ==>
          pairMark == Ok(nameMark.value + [ASSIGN] + valueMark.value))
  }

  /**
   * `MarkPair` is made of the marking of the name and of the value, split at
   * the first `=`; stated for the pair in `s[lo..hi]`.
   */
  lemma MarkPairShape(s: seq<byte>, lo: nat, hi: nat, nameLen: nat, valueStart: Option<nat>,
                      nameMark: Result<seq<byte>, RequestError>, valueMark: Result<seq<byte>, RequestError>)
    requires lo <= hi <= |s|
    requires (nameLen, valueStart) == TrySplitTwo(s[lo..hi], [ASSIGN])
    requires nameMark == MarkComponent(s[lo..lo + nameLen])
    requires valueStart.Some? ==> valueMark == MarkComponent(s[lo + valueStart.value..hi])
    ensures valueStart.Some? ==> s[lo + nameLen] == ASSIGN
    ensures Composes(hi - lo, nameLen, valueStart, nameMark, valueMark, MarkPair(s[lo..hi]))
  {
    var p := s[lo..hi];
    assert s[lo..lo + nameLen] == p[..nameLen];
    if valueStart.Some? {
      MatchesAtByte(p, ASSIGN, nameLen);
      assert s[lo + valueStart.value..hi] == p[valueStart.value..];
    }
  }

  /** An outcome with `done` put in front of a successful result; an error stays as it is. */
  function Prepend(done: seq<byte>, r: Result<seq<byte>, RequestError>): Result<seq<byte>, RequestError>
  {
    match r
    case Ok(m) => Ok(done + m)
    case Err(e) => Err(e)
  }

  /**
   * The loop of `decode_and_mark_params` so far, over the buffer `s`, when
   * marking the whole query string gives `full`: the query string was split
   * at `&` up to `p`, the pieces before `p` are marked and marking the rest
   * completes `full`; with no rest left, the query string holds `full`.
   */
  ghost predicate ParamsState(s: seq<byte>, lo: nat, hi: nat, full: Result<seq<byte>, RequestError>,
                              rest: Option<(nat, nat)>, mark: seq<byte> -> Result<seq<byte>, RequestError>)
  {
    && lo <= hi <= |s|
    && match rest
       case Some((p, h)) => h == hi && ParamsAt(s, lo, p, hi, full, mark)
       case None => full == Ok(s[lo..hi])
  }

  /** `ParamsState` while the split still has the rest `s[p..hi]`. */
  ghost predicate ParamsAt(s: seq<byte>, lo: nat, p: nat, hi: nat, full: Result<seq<byte>, RequestError>,
                           mark: seq<byte> -> Result<seq<byte>, RequestError>)
  {
    lo <= p <= hi <= |s| && full == Prepend(s[lo..p], MarkPieces(s[p..hi], mark))
  }

  /** Marking a query string with an `&`: the first piece, the `&`, then the rest. */
  lemma MarkPiecesAt(q: seq<byte>, i: nat, mark: seq<byte> -> Result<seq<byte>, RequestError>)
    requires Find(q, [AMPERSAND]) == Some(i)
    ensures mark(q[..i]).Err? ==> MarkPieces(q, mark) == mark(q[..i])
    ensures mark(q[..i]).Ok? ==>
      MarkPieces(q, mark) == Prepend(mark(q[..i]).value + [AMPERSAND], MarkPieces(q[i + 1..], mark))
  {
  }

  /** Putting two pieces in front one after the other puts their concatenation in front. */
  lemma PrependTwice(x: seq<byte>, y: seq<byte>, r: Result<seq<byte>, RequestError>)
    ensures Prepend(x, Prepend(y, r)) == Prepend(x + y, r)
  {
    if r.Ok? {
      assert x + (y + r.value) == (x + y) + r.value;
    }
  }

  /** Marking a piece that ends at an `&` moves the loop past that `&`. */
  lemma ParamsStep(before: seq<byte>, after: seq<byte>, lo: nat, p: nat, e: nat, hi: nat,
                   full: Result<seq<byte>, RequestError>, mark: seq<byte> -> Result<seq<byte>, RequestError>,
                   r: Result<(), RequestError>)
    requires ParamsAt(before, lo, p, hi, full, mark)
    requires p <= e <= hi && Find(before[p..hi], [AMPERSAND]) == Some(e - p)
    requires Marked(before, after, p, e, r, mark(before[p..e]))
    ensures e < hi && after[..lo] == before[..lo] && after[hi..] == before[hi..]
    ensures r.Err? ==> full == Err(r.error)
    ensures r.Ok? ==> ParamsAt(after, lo, e + 1, hi, full, mark)
  {
    var q := before[p..hi];
    MatchesAtByte(q, AMPERSAND, e - p);
    assert before[e] == q[e - p];
    StepLayout(before, after, lo, p, e, hi);
    PiecesStep(q, e - p, after[e + 1..hi], before[p..e], mark);
    PrependStep(full, MarkPieces(q, mark), mark(before[p..e]), MarkPieces(after[e + 1..hi], mark),
                before[lo..p], after[p..e], r);
  }

  /** `MarkPiecesAt` for a query string `q` whose first piece is `piece` and whose rest after the `&` is `tail`. */
  lemma PiecesStep(q: seq<byte>, i: nat, tail: seq<byte>, piece: seq<byte>, mark: seq<byte> -> Result<seq<byte>, RequestError>)
    requires Find(q, [AMPERSAND]) == Some(i) && i < |q| && q[..i] == piece && q[i + 1..] == tail
    ensures mark(piece).Err? ==> MarkPieces(q, mark) == mark(piece)
    ensures mark(piece).Ok? ==> MarkPieces(q, mark) == Prepend(mark(piece).value + [AMPERSAND], MarkPieces(tail, mark))
  {
    MarkPiecesAt(q, i, mark);
  }

  /** Where the bytes are once the piece `[p, e)`, which ends at an `&`, was changed in place. */
  lemma StepLayout(before: seq<byte>, after: seq<byte>, lo: nat, p: nat, e: nat, hi: nat)
    requires lo <= p <= e < hi <= |before| == |after| && before[e] == AMPERSAND
    requires after[..p] == before[..p] && after[e..] == before[e..]
    ensures after[..lo] == before[..lo] && after[hi..] == before[hi..]
    ensures after[lo..e + 1] == before[lo..p] + after[p..e] + [AMPERSAND]
    ensures after[e + 1..hi] == before[e + 1..hi]
  {
    SamePrefix(after, before, p, 0, lo);
    SamePrefix(after, before, p, lo, p);
    SameSuffix(after, before, e, hi, hi);
    SameSuffix(after, before, e, e + 1, hi);
    SameSuffix(after, before, e, e, e + 1);
    assert after[lo..e + 1] == after[lo..p] + after[p..e] + after[e..e + 1];
  }

  /** The bookkeeping of `ParamsStep` on outcomes alone. */
  lemma PrependStep(full: Result<seq<byte>, RequestError>, here: Result<seq<byte>, RequestError>,
                    pair: Result<seq<byte>, RequestError>, later: Result<seq<byte>, RequestError>,
                    done: seq<byte>, marked: seq<byte>, r: Result<(), RequestError>)
    requires full == Prepend(done, here)
    requires pair.Err? ==> here == pair
    requires pair.Ok? ==> here == Prepend(pair.value + [AMPERSAND], later)
    requires (r.Ok? <==> pair.Ok?) && (r.Err? && pair.Err? ==> r.error == pair.error)
    requires r.Ok? && pair.Ok? ==> marked == pair.value
    ensures r.Err? ==> full == Err(r.error)
    ensures r.Ok? ==> full == Prepend(done + marked + [AMPERSAND], later)
  {
    if r.Ok? {
      PrependTwice(done, marked + [AMPERSAND], later);
      assert done + (marked + [AMPERSAND]) == done + marked + [AMPERSAND];
    }
  }

  /** Marking the last piece, with no `&` in it, completes the loop. */
  lemma ParamsLast(before: seq<byte>, after: seq<byte>, lo: nat, p: nat, hi: nat,
                   full: Result<seq<byte>, RequestError>, mark: seq<byte> -> Result<seq<byte>, RequestError>,
                   r: Result<(), RequestError>)
    requires ParamsAt(before, lo, p, hi, full, mark)
    requires p < hi && Find(before[p..hi], [AMPERSAND]).None?
    requires Marked(before, after, p, hi, r, mark(before[p..hi]))
    ensures after[..lo] == before[..lo] && after[hi..] == before[hi..]
    ensures r.Err? ==> full == Err(r.error)
    ensures r.Ok? ==> full == Ok(after[lo..hi])
  {
    SamePrefix(after, before, p, 0, lo);
    if r.Ok? {
      SamePrefix(after, before, p, lo, p);
      assert after[lo..hi] == after[lo..p] + after[p..hi];
    }
  }

  /** Before the loop: nothing is marked and the whole query string is the rest. */
  lemma ParamsStart(s: seq<byte>, lo: nat, hi: nat, mark: seq<byte> -> Result<seq<byte>, RequestError>)
    requires lo <= hi <= |s|
    ensures ParamsState(s, lo, hi, MarkPieces(s[lo..hi], mark), Some((lo, hi)), mark)
  {
    assert s[lo..lo] == [];
    match MarkPieces(s[lo..hi], mark)
    case Ok(m) => assert [] + m == m;
    case Err(_) =>
  }

  /** With nothing left to split, the loop is complete. */
  lemma ParamsEnd(s: seq<byte>, lo: nat, hi: nat, full: Result<seq<byte>, RequestError>,
                  rest: Option<(nat, nat)>, mark: seq<byte> -> Result<seq<byte>, RequestError>)
    requires ParamsState(s, lo, hi, full, rest, mark)
    requires rest.Some? ==> rest.value.0 == hi
    ensures full == Ok(s[lo..hi])
  {
    if rest.Some? {
      assert s[hi..hi] == [];
      assert Find([], [AMPERSAND]).None?;
      assert s[lo..hi] + [] == s[lo..hi];
    }
  }

  /** How far the split of the query string still has to go. */
  function Remaining(rest: Option<(nat, nat)>, hi: nat): nat
  {
    if rest.Some? && rest.value.0 <= hi then hi - rest.value.0 + 1 else 0
  }

  /**
   * One turn of the loop of `decode_and_mark_params`: takes the next piece
   * from the split and marks it. The loop goes on (`more`) while pieces
   * remain and no error occurred; otherwise the outcome of the whole
   * marking is known.
   */
  method MarkNextPiece(a: array<byte>, params: SplitMutIterator, lo: nat, hi: nat,
                       ghost full: Result<seq<byte>, RequestError>, ghost mark: seq<byte> -> Result<seq<byte>, RequestError>)
    returns (r: Result<(), RequestError>, more: bool)
    requires forall p {:trigger MarkPair(p)} :: MarkPair(p) == mark(p)
    requires params.buffer == a && params.pattern == [AMPERSAND] && params.Valid()
    requires ParamsState(a[..], lo, hi, full, params.rest, mark)
    modifies a, params
    ensures params.Valid()
    ensures more ==> r.Ok? && ParamsState(a[..], lo, hi, full, params.rest, mark)
    ensures more ==> Remaining(params.rest, hi) < Remaining(old(params.rest), hi)
    ensures !more ==> (r.Ok? ==> full == Ok(a[lo..hi])) && (r.Err? ==> full == Err(r.error))
    ensures |a[..]| == |old(a[..])| && a[..lo] == old(a[..lo]) && a[hi..] == old(a[hi..])
  {
    ghost var before := a[..];
    ghost var rest0 := params.rest;
    var param := NextPiece(params);
    assert a[..] == before;
    match param
    case None =>
      ParamsEnd(before, lo, hi, full, rest0, mark);
      r, more := Ok(()), false;
    case Some((p, e)) =>
      r := MarkPiece(a, lo, p, e, hi, params.rest, full, mark);
      more := r.Ok? && params.rest.Some?;
  }

  /**
   * `next` on the split at `&`, with what the loop of
   * `decode_and_mark_params` needs to know of the piece it yields: where it
   * starts and ends, whether an `&` follows it, and where the split goes on.
   */
  method NextPiece(params: SplitMutIterator) returns (piece: Option<(nat, nat)>)
    requires params.pattern == [AMPERSAND] && params.Valid()
    modifies params
    ensures params.Valid()
    ensures piece.None? ==> params.rest.None?
    ensures piece.None? && old(params.rest).Some? ==> old(params.rest).value.0 == old(params.rest).value.1
    ensures piece.Some? ==>
      && old(params.rest).Some? && piece.value.0 == old(params.rest).value.0
      && piece.value.0 <= piece.value.1 <= old(params.rest).value.1
    ensures piece.Some? && params.rest.Some? ==>
      && params.rest.value.0 == piece.value.1 + 1 && params.rest.value.1 == old(params.rest).value.1
      && Find(params.buffer[piece.value.0..old(params.rest).value.1], [AMPERSAND]) == Some(piece.value.1 - piece.value.0)
    ensures piece.Some? && params.rest.None? ==>
      && piece.value.0 < piece.value.1 == old(params.rest).value.1
      && Find(params.buffer[piece.value.0..old(params.rest).value.1], [AMPERSAND]).None?
  {
    piece := params.Next();
  }

  /**
   * Marks the piece `a[p..e]` that the split just yielded, followed by an
   * `&` when the split has a `rest` or else the last one, and moves the
   * loop past it.
   */
  method MarkPiece(a: array<byte>, lo: nat, p: nat, e: nat, hi: nat, rest: Option<(nat, nat)>,
                   ghost full: Result<seq<byte>, RequestError>, ghost mark: seq<byte> -> Result<seq<byte>, RequestError>)
    returns (r: Result<(), RequestError>)
    requires forall q {:trigger MarkPair(q)} :: MarkPair(q) == mark(q)
    requires ParamsAt(a[..], lo, p, hi, full, mark) && p <= e <= hi
    requires rest.Some? ==> rest.value.0 == e + 1 && rest.value.1 == hi && Find(a[p..hi], [AMPERSAND]) == Some(e - p)
    requires rest.None? ==> p < e == hi && Find(a[p..hi], [AMPERSAND]).None?
    modifies a
    ensures r.Err? ==> full == Err(r.error)
    ensures r.Ok? ==> ParamsState(a[..], lo, hi, full, rest, mark)
    ensures |a[..]| == |old(a[..])| && a[..lo] == old(a[..lo]) && a[hi..] == old(a[hi..])
  {
    ghost var before := a[..];
    r := DecodeAndMarkPair(a, p, e);
    if rest.None? {
      ParamsLast(before, a[..], lo, p, hi, full, mark, r);
    } else {
      ParamsStep(before, a[..], lo, p, e, hi, full, mark, r);
    }
  }

  /**
   * `decode_and_mark_params` on the query string `a[lo..hi]`: splits it at
   * every `&` and marks each piece in turn, stopping at the first error. On
   * success the query string holds `MarkParams` of what it held; no byte
   * outside it changes.
   */
  method DecodeAndMarkParams(a: array<byte>, lo: nat, hi: nat) returns (r: Result<(), RequestError>)
    requires lo <= hi <= a.Length
    modifies a
    ensures Marked(old(a[..]), a[..], lo, hi, r, MarkParams(old(a[lo..hi])))
  {
    ghost var a0 := a[..];
    ghost var full := MarkParams(a[lo..hi]);
    var params := new SplitMutIterator(a, lo, hi, [AMPERSAND]);
    ParamsStart(a0, lo, hi, MarkPair);
    r := Ok(());
    var more := true;
    while more
      invariant params.buffer == a && params.pattern == [AMPERSAND] && params.Valid()
      invariant more ==> r.Ok? && ParamsState(a[..], lo, hi, full, params.rest, MarkPair)
      invariant !more ==> (r.Ok? ==> full == Ok(a[lo..hi])) && (r.Err? ==> full == Err(r.error))
      invariant |a[..]| == |a0| && a[..lo] == a0[..lo] && a[hi..] == a0[hi..]
      decreases more, Remaining(params.rest, hi)
    {
      r, more := MarkNextPiece(a, params, lo, hi, full, MarkPair);
    }
  }
}
