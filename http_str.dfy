/**
 * Byte-slice helpers of the HTTP parser (src/http/str.rs): whitespace,
 * trimming by a predicate, UTF-8 checking and splitting in two at a
 * separator.
 */
module HttpStr {
  import opened Wrappers
  import opened Bytes
  import opened Errors

  /** `is_whitespace`: space or horizontal tab, the optional whitespace of section 3.2.3 of RFC 7230. */
  predicate IsWhitespace(b: byte): (r: bool)
    ensures r ==> b <= 0x7F
  {
    b == 0x20 || b == 0x09
  }

  /** `position(|b| !p(b))`: the first index whose byte does not satisfy `p`. */
  function PositionNot(s: seq<byte>, p: byte -> bool): (r: Option<nat>)
    ensures r.Some? ==> r.value < |s| && !p(s[r.value]) && forall i :: 0 <= i < r.value ==> p(s[i])
    ensures r.None? ==> forall i :: 0 <= i < |s| ==> p(s[i])
  {
    if s == [] then None
    else if !p(s[0]) then Some(0)
    else match PositionNot(s[1..], p)
      case None => None
      case Some(i) => Some(i + 1)
  }

  /** `rposition(|b| !p(b))`: the last index whose byte does not satisfy `p`. */
  function RPositionNot(s: seq<byte>, p: byte -> bool): (r: Option<nat>)
    ensures r.Some? ==> r.value < |s| && !p(s[r.value]) && forall i :: r.value < i < |s| ==> p(s[i])
    ensures r.None? ==> forall i :: 0 <= i < |s| ==> p(s[i])
  {
    if s == [] then None
    else if !p(s[|s| - 1]) then Some(|s| - 1)
    else RPositionNot(s[..|s| - 1], p)
  }

  /**
   * `trim_left`: drops the longest prefix whose bytes satisfy `p`, except
   * that a slice whose every byte satisfies `p` comes back whole.
   */
  function TrimLeft(s: seq<byte>, p: byte -> bool): (r: seq<byte>)
    ensures (forall i :: 0 <= i < |s| ==> p(s[i])) ==> r == s
    ensures (exists i :: 0 <= i < |s| && !p(s[i])) ==>
      && 0 < |r| <= |s| && r == s[|s| - |r|..] && !p(r[0])
      && forall i :: 0 <= i < |s| - |r| ==> p(s[i])
  {
    match PositionNot(s, p)
    case Some(idx) => s[idx..]
    case None => s
  }

  /**
   * `trim_right`: drops the longest suffix whose bytes satisfy `p`, except
   * that a slice whose every byte satisfies `p` comes back whole.
   */
  function TrimRight(s: seq<byte>, p: byte -> bool): (r: seq<byte>)
    ensures (forall i :: 0 <= i < |s| ==> p(s[i])) ==> r == s
    ensures (exists i :: 0 <= i < |s| && !p(s[i])) ==>
      && 0 < |r| <= |s| && r == s[..|r|] && !p(r[|r| - 1])
      && forall i :: |r| <= i < |s| ==> p(s[i])
  {
    match RPositionNot(s, p)
    case Some(idx) => s[..idx + 1]
    case None => s
  }

  /** `trim`: `trim_right` after `trim_left`. */
  function Trim(s: seq<byte>, p: byte -> bool): (r: seq<byte>)
    ensures |r| <= |s|
    ensures (forall i :: 0 <= i < |s| ==> p(s[i])) ==> r == s
    ensures (exists i :: 0 <= i < |s| && !p(s[i])) ==> r != [] && !p(r[0]) && !p(r[|r| - 1])
  {
    TrimRight(TrimLeft(s, p), p)
  }

  /**
   * `trim` keeps one contiguous run `s[a..b]` of `s`: it starts and ends with
   * a byte not satisfying `p` and everything cut off on either side satisfies
   * `p`; when every byte satisfies `p`, it keeps all of `s`.
   */
  lemma TrimIsContiguous(s: seq<byte>, p: byte -> bool) returns (a: nat, b: nat)
    ensures a <= b <= |s| && Trim(s, p) == s[a..b]
    ensures (forall i :: 0 <= i < |s| ==> p(s[i])) ==> a == 0 && b == |s|
    ensures (exists i :: 0 <= i < |s| && !p(s[i])) ==>
      && a < b && !p(s[a]) && !p(s[b - 1])
      && (forall i :: 0 <= i < a ==> p(s[i])) && (forall i :: b <= i < |s| ==> p(s[i]))
  {
    if exists i :: 0 <= i < |s| && !p(s[i]) {
      var l := TrimLeft(s, p);
      a := |s| - |l|;
      assert l == s[a..];
      assert !p(l[0]);
      var r := TrimRight(l, p);
      b := a + |r|;
      assert r == s[a..b];
      forall i | b <= i < |s| ensures p(s[i]) {
        assert s[i] == l[i - a];
      }
    } else {
      a, b := 0, |s|;
      assert s[0..|s|] == s;
    }
  }

  /**
   * Where `trim` cuts `s`, as the bounds of the sub-slice it returns: the
   * first byte not satisfying `p` and one past the last, or all of `s`.
   */
  method TrimSpan(s: seq<byte>, p: byte -> bool) returns (a: nat, b: nat)
    ensures a <= b <= |s| && s[a..b] == Trim(s, p)
  {
    match PositionNot(s, p)
    case None =>
      a, b := 0, |s|;
      assert s[0..|s|] == s;
    case Some(lo) =>
      var l := s[lo..];
      assert l == TrimLeft(s, p);
      match RPositionNot(l, p)
      case None =>
        assert false;
      case Some(j) =>
        assert l[..j + 1] == s[lo..lo + j + 1];
        a, b := lo, lo + j + 1;
  }

  /** Trimming cuts exactly the runs of `p` bytes around a middle that starts and ends with other bytes. */
  lemma TrimKeepsMiddle(pre: seq<byte>, mid: seq<byte>, post: seq<byte>, p: byte -> bool)
    requires forall i :: 0 <= i < |pre| ==> p(pre[i])
    requires forall i :: 0 <= i < |post| ==> p(post[i])
    requires mid != [] && !p(mid[0]) && !p(mid[|mid| - 1])
    ensures Trim(pre + mid + post, p) == mid
  {
    var s := pre + mid + post;
    var a, b := TrimIsContiguous(s, p);
    assert !p(s[|pre|]);
    assert !p(s[|pre| + |mid| - 1]);
    assert a == |pre| && b == |pre| + |mid|;
    assert s[a..b] == mid;
  }

  /** Trimming ASCII bytes keeps UTF-8 text UTF-8. */
  lemma TrimKeepsUtf8(s: seq<byte>, p: byte -> bool)
    requires forall b: byte :: p(b) ==> b <= 0x7F
    requires IsUtf8(s)
    ensures IsUtf8(Trim(s, p))
  {
    var a, b := TrimIsContiguous(s, p);
    Utf8Middle(s, a, b);
  }

  /** The example from the module's tests: " \t hello \t " trims to "hello". */
  lemma TrimExample()
    ensures Trim([0x20, 0x09, 0x20, 0x68, 0x65, 0x6C, 0x6C, 0x6F, 0x20, 0x09, 0x20], IsWhitespace)
      == [0x68, 0x65, 0x6C, 0x6C, 0x6F]
  {
    var s: seq<byte> := [0x20, 0x09, 0x20, 0x68, 0x65, 0x6C, 0x6C, 0x6F, 0x20, 0x09, 0x20];
    assert !IsWhitespace(s[3]);
    var l := TrimLeft(s, IsWhitespace);
    assert |s| - |l| == 3 by {
      assert !IsWhitespace(l[0]);
      assert forall i :: 0 <= i < |s| - |l| ==> IsWhitespace(s[i]);
    }
    assert l == s[3..];
    assert !IsWhitespace(l[4]);
    var r := TrimRight(l, IsWhitespace);
    assert |r| == 5 by {
      assert !IsWhitespace(r[|r| - 1]);
      assert forall i :: |r| <= i < |l| ==> IsWhitespace(l[i]);
    }
  }

  /** `slice_to_str`: the slice as text when it is valid UTF-8 (RFC 3629 section 4), else `InvalidEncoding`. */
  function SliceToStr(s: seq<byte>): (r: Result<seq<byte>, RequestError>)
    ensures r.Ok? <==> IsUtf8(s)
    ensures r.Ok? ==> r.value == s
    ensures r.Err? ==> r.error == InvalidEncoding
  {
    if IsUtf8(s) then Ok(s) else Err(InvalidEncoding)
  }

  /**
   * `try_split_two_mut`: where the slice splits at the first occurrence of
   * `op`. The result is the length of the left part and the index where the
   * right part starts, which is always one byte after the left part, however
   * long `op` is; without an occurrence the left part is all of `s` and there
   * is no right part.
   */
  function TrySplitTwo(s: seq<byte>, op: seq<byte>): (r: (nat, Option<nat>))
    requires |op| > 0
    ensures r.1.Some? ==>
      (MatchesAt(s, op, r.0) && r.1.value == r.0 + 1 <= |s| && forall j :: 0 <= j < r.0 ==> !MatchesAt(s, op, j))
    ensures r.1.None? ==> r.0 == |s| && forall j :: 0 <= j ==> !MatchesAt(s, op, j)
  {
    match Find(s, op)
    case Some(idx) => (idx, Some(idx + 1))
    case None => (|s|, None)
  }
}
