/**
 * Reading one name or value back out of a query string that has been decoded
 * and marked in place (src/http/url_params/parse_decoded.rs). A component
 * that starts with NUL was percent-decoded: it runs from index 1 to the next
 * NUL, and `&` or `=` inside it are literal. Any other component runs to the
 * first `&`, or for a name to the first `&` or `=`.
 */
module UrlParamsParse {
  import opened Wrappers
  import opened Bytes

  datatype ComponentKind = Name | Value

  /** Whether the byte at `i` ends the component. */
  predicate EndsAt(b: seq<byte>, kind: ComponentKind, startsWithNul: bool, i: nat)
    requires i < |b|
  {
    if startsWithNul then b[i] == NUL
    else b[i] == AMPERSAND || (kind == Name && b[i] == ASSIGN)
  }

  /** The first index at or after `i` that ends the component, or the length. */
  function EndFrom(b: seq<byte>, kind: ComponentKind, startsWithNul: bool, i: nat): (e: nat)
    requires i <= |b|
    ensures i <= e <= |b|
    ensures e < |b| ==> EndsAt(b, kind, startsWithNul, e)
    ensures forall k :: i <= k < e ==> !EndsAt(b, kind, startsWithNul, k)
    decreases |b| - i
  {
    if i == |b| then |b|
    else if EndsAt(b, kind, startsWithNul, i) then i
    else EndFrom(b, kind, startsWithNul, i + 1)
  }

  /** `position(|b| b != NUL)`: the first non-NUL byte, or the length. */
  function SkipNul(b: seq<byte>): (p: nat)
    ensures p <= |b| && (p < |b| ==> b[p] != NUL)
    ensures forall k :: 0 <= k < p ==> b[k] == NUL
  {
    if b == [] then 0 else if b[0] != NUL then 0 else 1 + SkipNul(b[1..])
  }

  /**
   * `find_next_start`: skips the NUL padding, then one `=` after a name or
   * one `&` after a value.
   */
  function FindNextStart(b: seq<byte>, kind: ComponentKind): (n: nat)
    ensures n <= |b|
    ensures forall k :: 0 <= k < n ==> b[k] == NUL || (k == n - 1 && b[k] == (if kind == Name then ASSIGN else AMPERSAND))
  {
    var p := SkipNul(b);
    if p < |b| && ((b[p] == ASSIGN && kind == Name) || (b[p] == AMPERSAND && kind == Value)) then p + 1
    else p
  }

  /** The range of the component and where the next one starts, as `parse_decoded_component` computes them. */
  function ParsedComponent(b: seq<byte>, kind: ComponentKind): (r: (nat, nat, nat))
    ensures r.0 <= r.1 <= r.2 <= |b|
    ensures r.0 == 1 <==> |b| > 0 && b[0] == NUL
    ensures forall k :: r.1 <= k < r.2 ==> b[k] == NUL || (k == r.2 - 1 && b[k] == (if kind == Name then ASSIGN else AMPERSAND))
  {
    var startsWithNul := |b| > 0 && b[0] == NUL;
    var start := if startsWithNul then 1 else 0;
    var end := EndFrom(b, kind, startsWithNul, start);
    var next := FindNextStart(b[end..], kind);
    assert forall k :: end <= k < end + next ==> b[k] == b[end..][k - end];
    (start, end, end + next)
  }

  /**
   * A component marked by a leading NUL starts at 1 and ends at the next NUL
   * or the end of the buffer; `&` and `=` inside it do not end it.
   */
  lemma ParsedMarkedComponent(b: seq<byte>, kind: ComponentKind)
    requires |b| > 0 && b[0] == NUL
    ensures ParsedComponent(b, kind).0 == 1
    ensures ParsedComponent(b, kind).1 < |b| ==> b[ParsedComponent(b, kind).1] == NUL
    ensures forall k :: 1 <= k < ParsedComponent(b, kind).1 ==> b[k] != NUL
  {
    var end := ParsedComponent(b, kind).1;
    forall k | 1 <= k < end ensures b[k] != NUL {
      assert !EndsAt(b, kind, true, k);
    }
  }

  /**
   * Any other component starts at 0 and ends at the first `&`, or for a
   * name at the first `&` or `=`, or at the end of the buffer.
   */
  lemma ParsedPlainComponent(b: seq<byte>, kind: ComponentKind)
    requires !(|b| > 0 && b[0] == NUL)
    ensures ParsedComponent(b, kind).0 == 0
    ensures var end := ParsedComponent(b, kind).1;
      end < |b| ==> b[end] == AMPERSAND || (kind == Name && b[end] == ASSIGN)
    ensures forall k :: 0 <= k < ParsedComponent(b, kind).1 ==>
      b[k] != AMPERSAND && (kind == Name ==> b[k] != ASSIGN)
  {
    var end := ParsedComponent(b, kind).1;
    forall k | 0 <= k < end ensures b[k] != AMPERSAND && (kind == Name ==> b[k] != ASSIGN) {
      assert !EndsAt(b, kind, false, k);
    }
  }

  /**
   * Between the end of the component and the start of the next lie the NUL
   * padding and then at most one `=` (after a name) or `&` (after a value).
   */
  lemma ParsedComponentGap(b: seq<byte>, kind: ComponentKind)
    ensures var (end, next) := (ParsedComponent(b, kind).1, ParsedComponent(b, kind).2);
      && end <= |b| && end + SkipNul(b[end..]) <= next <= end + SkipNul(b[end..]) + 1
      && (forall k :: end <= k < end + SkipNul(b[end..]) ==> b[k] == NUL)
      && (next == end + SkipNul(b[end..]) + 1 ==> b[next - 1] == (if kind == Name then ASSIGN else AMPERSAND))
  {
    var end := ParsedComponent(b, kind).1;
    var tail := b[end..];
    forall k | end <= k < end + SkipNul(tail) ensures b[k] == NUL {
      assert b[k] == tail[k - end];
    }
  }

  /** A byte that does not end the component passes the search on to the next one. */
  lemma EndFromStep(b: seq<byte>, kind: ComponentKind, startsWithNul: bool, i: nat)
    requires i < |b|
    ensures !EndsAt(b, kind, startsWithNul, i) ==> EndFrom(b, kind, startsWithNul, i) == EndFrom(b, kind, startsWithNul, i + 1)
    ensures EndsAt(b, kind, startsWithNul, i) ==> EndFrom(b, kind, startsWithNul, i) == i
  {
  }

  /**
   * The body of the scan in `parse_decoded_component` for the byte at `i`:
   * a NUL at index 0 marks the component, and the scan stops at a byte that
   * ends the component once the marker is known. `prevNul` (a NUL just
   * before, not at index 0) never holds in a marked component, because its
   * first NUL after index 0 already stops the scan.
   */
  method ScanByte(buffer: seq<byte>, kind: ComponentKind, i: nat, startsWithNul: bool, start: nat, prevNul: bool)
    returns (stop: bool, startsWithNul': bool, start': nat, prevNul': bool)
    requires i < |buffer| && startsWithNul == (i > 0 && buffer[0] == NUL)
    requires start == (if startsWithNul then 1 else 0) && (prevNul ==> !startsWithNul)
    ensures startsWithNul' == (buffer[0] == NUL) && start' == (if startsWithNul' then 1 else 0)
    ensures stop <==> start' <= i && EndsAt(buffer, kind, startsWithNul', i)
    ensures !stop ==> (prevNul' ==> !startsWithNul')
  {
    startsWithNul', start' := startsWithNul, start;
    stop := false;
    var chr := buffer[i];
    if chr == NUL {
      if i == 0 {
        startsWithNul' := true;
        start' := 1;
      } else if startsWithNul {
        stop := true;
      }
    } else if chr == AMPERSAND || (chr == ASSIGN && kind == Name) {
      if (startsWithNul && prevNul) || !startsWithNul {
        stop := true;
      }
    }
    prevNul' := i != 0 && chr == NUL;
  }

  /**
   * `parse_decoded_component`: a single scan that finds the component's
   * range, then `find_next_start` on what follows it.
   */
  method ParseDecodedComponent(buffer: seq<byte>, kind: ComponentKind) returns (start: nat, end: nat, nextStart: nat)
    ensures (start, end, nextStart) == ParsedComponent(buffer, kind)
  {
    start := 0;
    var endIdx: Option<nat> := None;
    var startsWithNul := false;
    var prevNul := false;
    var i := 0;
    while i < |buffer|
      invariant 0 <= i <= |buffer| && endIdx.None?
      invariant startsWithNul == (i > 0 && buffer[0] == NUL)
      invariant start == if startsWithNul then 1 else 0
      invariant i > 0 ==> EndFrom(buffer, kind, startsWithNul, start) == EndFrom(buffer, kind, startsWithNul, i)
      invariant prevNul ==> !startsWithNul
    {
      var stop;
      stop, startsWithNul, start, prevNul := ScanByte(buffer, kind, i, startsWithNul, start, prevNul);
      if stop {
        endIdx := Some(i);
        break;
      }
      EndFromStep(buffer, kind, startsWithNul, i);
      i := i + 1;
    }
    end := if endIdx.Some? then endIdx.value else |buffer|;
    nextStart := end + FindNextStart(buffer[end..], kind);
  }
}
