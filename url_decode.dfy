/**
 * Percent-decoding in place (src/http/url_decode.rs): `+` becomes a space and
 * `%XY` with two hexadecimal digits becomes the byte 0xXY, as in the
 * application/x-www-form-urlencoded parser of section 5.1 of the WHATWG URL
 * Standard and the percent-encoding of section 2.1 of RFC 3986. A `%` that is
 * not followed by two hexadecimal digits is kept as it is.
 */
module UrlDecode {
  import opened Wrappers
  import opened Bytes

  const PLUS: byte := 0x2B
  const SPACE: byte := 0x20
  const PERCENT: byte := 0x25

  /** The hexadecimal digits for the values 0..15, lower and upper case. */
  const LowerHexDigits: seq<byte> :=
    [0x30, 0x31, 0x32, 0x33, 0x34, 0x35, 0x36, 0x37, 0x38, 0x39, 0x61, 0x62, 0x63, 0x64, 0x65, 0x66]
  const UpperHexDigits: seq<byte> :=
    [0x30, 0x31, 0x32, 0x33, 0x34, 0x35, 0x36, 0x37, 0x38, 0x39, 0x41, 0x42, 0x43, 0x44, 0x45, 0x46]

  /** `c` is a hexadecimal digit (either case) for the value `v`. */
  predicate IsHexDigitOf(c: byte, v: int)
  {
    0 <= v < 16 && (c == LowerHexDigits[v] || c == UpperHexDigits[v])
  }

  /** `hi` `lo` spell the byte `b` in hexadecimal. */
  predicate IsHexPairOf(hi: byte, lo: byte, b: byte)
  {
    IsHexDigitOf(hi, b / 16) && IsHexDigitOf(lo, b % 16)
  }

  /** `hex_decode_digit`: the value of one hexadecimal digit. */
  function HexDecodeDigit(c: byte): (r: Option<byte>)
    ensures r.Some? ==> r.value < 16 && IsHexDigitOf(c, r.value)
  {
    if 0x61 <= c <= 0x66 then Some(10 + (c - 0x61))
    else if 0x41 <= c <= 0x46 then Some(10 + (c - 0x41))
    else if 0x30 <= c <= 0x39 then Some(c - 0x30)
    else None
  }

  /**
   * `hex_to_byte`: the byte two hexadecimal digits spell. The source writes
   * `(upper << 4) | lower`, which for two values below 16 is `upper * 16 + lower`.
   */
  function HexToByte(hi: byte, lo: byte): (r: Option<byte>)
    ensures r.None? <==> HexDecodeDigit(hi).None? || HexDecodeDigit(lo).None?
    ensures r.Some? ==> r.value / 16 == HexDecodeDigit(hi).value && r.value % 16 == HexDecodeDigit(lo).value
  {
    match (HexDecodeDigit(hi), HexDecodeDigit(lo))
    case (Some(u), Some(l)) => Some(u * 16 + l)
    case _ => None
  }

  /** A digit decodes to `v` exactly when it is the digit for `v` in the tables above. */
  lemma HexDecodeDigitTable(c: byte)
    ensures forall v :: 0 <= v < 16 ==> (HexDecodeDigit(c) == Some(v) <==> IsHexDigitOf(c, v))
    ensures HexDecodeDigit(c).None? <==> forall v :: 0 <= v < 16 ==> !IsHexDigitOf(c, v)
  {
    if HexDecodeDigit(c).Some? {
      var v := HexDecodeDigit(c).value;
      assert IsHexDigitOf(c, v);
    }
  }

  /** Two digits decode to `b` exactly when they spell `b` in hexadecimal. */
  lemma HexToByteTable(hi: byte, lo: byte)
    ensures forall b: byte :: HexToByte(hi, lo) == Some(b) <==> IsHexPairOf(hi, lo, b)
    ensures HexToByte(hi, lo).None? <==> forall b: byte :: !IsHexPairOf(hi, lo, b)
  {
    HexDecodeDigitTable(hi);
    HexDecodeDigitTable(lo);
    if HexToByte(hi, lo).None? {
      forall b: byte ensures !IsHexPairOf(hi, lo, b) {
        assert 0 <= b / 16 < 16 && 0 <= b % 16 < 16;
      }
    } else {
      var u, l := HexDecodeDigit(hi).value, HexDecodeDigit(lo).value;
      forall b: byte ensures HexToByte(hi, lo) == Some(b) <==> IsHexPairOf(hi, lo, b) {
        assert 0 <= b / 16 < 16 && 0 <= b % 16 < 16;
        assert b == u * 16 + l <==> (b / 16 == u && b % 16 == l);
      }
    }
  }

  /** An escape `%XY` starts at index `i` of `s`. */
  predicate EscapeAt(s: seq<byte>, i: nat)
  {
    i + 2 < |s| && s[i] == PERCENT && HexToByte(s[i + 1], s[i + 2]).Some?
  }

  /** `s` holds at least one valid percent escape. */
  predicate HasEscape(s: seq<byte>)
  {
    exists i: nat :: i < |s| && EscapeAt(s, i)
  }

  /**
   * What the decoder makes of the input at index `r`: the byte it produces
   * and how many input bytes that takes (three for an escape, otherwise one).
   */
  function NextDecoded(s: seq<byte>, r: nat): (step: (byte, nat))
    requires r < |s|
    ensures 1 <= step.1 && r + step.1 <= |s|
  {
    if s[r] == PLUS then (SPACE, 1)
    else if EscapeAt(s, r) then (HexToByte(s[r + 1], s[r + 2]).value, 3)
    else (s[r], 1)
  }

  /** The decoding of `s[r..]`, read left to right. */
  function DecodedFrom(s: seq<byte>, r: nat): (d: seq<byte>)
    requires r <= |s|
    decreases |s| - r
  {
    if r == |s| then []
    else
      var (b, k) := NextDecoded(s, r);
      [b] + DecodedFrom(s, r + k)
  }

  /** The decoded form of `s`: the value both decoding entry points are proved against. */
  function Decoded(s: seq<byte>): seq<byte>
  {
    DecodedFrom(s, 0)
  }

  /** Replaces every `+` by a space and keeps every other byte. */
  function PlusToSpace(s: seq<byte>): (r: seq<byte>)
    ensures |r| == |s|
    ensures forall i :: 0 <= i < |s| ==> r[i] == (if s[i] == PLUS then SPACE else s[i])
  {
    if s == [] then [] else [if s[0] == PLUS then SPACE else s[0]] + PlusToSpace(s[1..])
  }

  /** Some valid escape starts at or after index `r`. */
  predicate EscapeFrom(s: seq<byte>, r: nat)
  {
    exists i: nat :: r <= i < |s| && EscapeAt(s, i)
  }

  /** Moving past a byte that starts no escape does not change whether one follows. */
  lemma EscapeFromNext(s: seq<byte>, r: nat)
    requires r < |s| && !EscapeAt(s, r)
    ensures EscapeFrom(s, r) <==> EscapeFrom(s, r + 1)
  {
    if EscapeFrom(s, r) {
      var i: nat :| r <= i < |s| && EscapeAt(s, i);
      assert r + 1 <= i;
    }
  }

  lemma {:induction false} DecodedFromWithoutEscape(s: seq<byte>, r: nat)
    requires r <= |s| && !EscapeFrom(s, r)
    ensures DecodedFrom(s, r) == PlusToSpace(s[r..])
    decreases |s| - r
  {
    if r < |s| {
      assert !EscapeAt(s, r);
      EscapeFromNext(s, r);
      DecodedFromWithoutEscape(s, r + 1);
      assert s[r..][1..] == s[r + 1..];
    }
  }

  /** Without an escape, decoding only turns `+` into spaces. */
  lemma DecodedWithoutEscape(s: seq<byte>)
    requires !HasEscape(s)
    ensures Decoded(s) == PlusToSpace(s)
  {
    assert !EscapeFrom(s, 0);
    DecodedFromWithoutEscape(s, 0);
    assert s[0..] == s;
  }

  /** Input with no `%` and no `+` decodes to itself. */
  lemma DecodedIdentity(s: seq<byte>)
    requires PERCENT !in s && PLUS !in s
    ensures Decoded(s) == s
  {
    assert !HasEscape(s) by {
      forall i: nat | i < |s| ensures !EscapeAt(s, i) { assert s[i] in s; }
    }
    DecodedWithoutEscape(s);
  }

  lemma {:induction false} DecodedFromLength(s: seq<byte>, r: nat)
    requires r <= |s|
    ensures !EscapeFrom(s, r) ==> |DecodedFrom(s, r)| == |s| - r
    ensures EscapeFrom(s, r) ==> |DecodedFrom(s, r)| <= |s| - r - 2
    decreases |s| - r
  {
    if r < |s| {
      var k := NextDecoded(s, r).1;
      assert |DecodedFrom(s, r)| == 1 + |DecodedFrom(s, r + k)|;
      if k == 3 {
        DecodedFromLength(s, r + 3);
        assert EscapeAt(s, r);
      } else {
        assert !EscapeAt(s, r);
        EscapeFromNext(s, r);
        DecodedFromLength(s, r + 1);
      }
    }
  }

  /** Decoding keeps the length exactly when there is no escape, and drops at least two bytes otherwise. */
  lemma DecodedLength(s: seq<byte>)
    ensures !HasEscape(s) ==> |Decoded(s)| == |s|
    ensures HasEscape(s) ==> |Decoded(s)| <= |s| - 2
  {
    DecodedFromLength(s, 0);
    assert HasEscape(s) <==> EscapeFrom(s, 0);
  }

  /** `buffer.get(i)`. */
  function Get(s: seq<byte>, i: nat): (r: Option<byte>)
    ensures r.Some? <==> i < |s|
    ensures r.Some? ==> r.value == s[i]
  {
    if i < |s| then Some(s[i]) else None
  }

  /**
   * The `match` in the decoding loop: the byte that the input byte `b` and the
   * two bytes after it (`buffer.get(read_idx + 1)` and `+ 2`) decode to, and
   * how many input bytes that takes.
   */
  function DecodeAt(b: byte, upper: Option<byte>, lower: Option<byte>): (byte, nat)
  {
    if b == PLUS then (SPACE, 1)
    else if b == PERCENT then
      var decodedByte :=
        if upper.Some? && lower.Some? then HexToByte(upper.value, lower.value) else None;
      if decodedByte.Some? then (decodedByte.value, 3) else (PERCENT, 1)
    else (b, 1)
  }

  /** The loop's `match` agrees with the step of the specification. */
  lemma DecodeAtIsNextDecoded(s: seq<byte>, r: nat)
    requires r < |s|
    ensures DecodeAt(s[r], Get(s, r + 1), Get(s, r + 2)) == NextDecoded(s, r)
  {
  }

  /**
   * One pass of the decoding loop's `match`, on the byte read ahead
   * (`current`) and the two bytes after it, which the array still holds
   * unchanged: the byte they decode to and how many input bytes that takes.
   */
  method DecodeOne(a: array<byte>, lo: nat, hi: nat, r: nat, current: byte, ghost s: seq<byte>)
    returns (next: byte, consumed: nat)
    requires lo + r < hi <= a.Length && |s| == hi - lo && current == s[r]
    requires forall k :: lo + r < k < hi ==> a[k] == s[k - lo]
    ensures 1 <= consumed && r + consumed <= |s|
    ensures DecodedFrom(s, r) == [next] + DecodedFrom(s, r + consumed)
  {
    var upper := if lo + r + 1 < hi then Some(a[lo + r + 1]) else None;
    var lower := if lo + r + 2 < hi then Some(a[lo + r + 2]) else None;
    assert upper == Get(s, r + 1) && lower == Get(s, r + 2);
    DecodeAtIsNextDecoded(s, r);
    next, consumed := DecodeAt(current, upper, lower).0, DecodeAt(current, upper, lower).1;
  }

  /**
   * The state of the buffer during decoding: `a[start..w]` holds the first
   * bytes of the decoding `target`, every other byte is as it was (`orig`).
   */
  ghost predicate Written(a: array<byte>, start: nat, w: nat, target: seq<byte>, orig: seq<byte>)
    reads a
  {
    |orig| == a.Length && start <= w <= a.Length && w - start <= |target| &&
    (forall k :: start <= k < w ==> a[k] == target[k - start]) &&
    (forall k :: 0 <= k < a.Length && !(start <= k < w) ==> a[k] == orig[k])
  }

  lemma WrittenSlice(a: array<byte>, start: nat, w: nat, target: seq<byte>, orig: seq<byte>)
    requires Written(a, start, w, target, orig)
    ensures a[start..w] == target[..w - start]
    ensures forall k :: 0 <= k < a.Length && (k < start || w <= k) ==> a[k] == orig[k]
  {
    forall j | 0 <= j < w - start ensures a[start..w][j] == target[j] {
      assert a[start..w][j] == a[start + j];
    }
  }

  /** One decoding step consumes the next byte of the target. */
  lemma TargetStep(target: seq<byte>, count: nat, s: seq<byte>, r: nat, next: byte, consumed: nat)
    requires r + consumed <= |s| && count <= |target|
    requires target[count..] == DecodedFrom(s, r)
    requires DecodedFrom(s, r) == [next] + DecodedFrom(s, r + consumed)
    ensures count < |target| && target[count] == next
    ensures target[count + 1..] == DecodedFrom(s, r + consumed)
  {
    assert target[count..][0] == next;
    assert target[count..][1..] == target[count + 1..];
  }

  /** Once the input is used up, the whole target has been produced. */
  lemma DecodedTail(target: seq<byte>, count: nat, s: seq<byte>)
    requires count <= |target| && target[count..] == DecodedFrom(s, |s|)
    ensures count == |target| && target[..|target|] == target
  {
  }

  /** The write at the end of the loop body: `buffer[write_idx] = new_byte`. */
  method WriteNext(a: array<byte>, start: nat, w: nat, ghost target: seq<byte>, ghost orig: seq<byte>, next: byte)
    requires Written(a, start, w, target, orig) && w < a.Length
    requires w - start < |target| && target[w - start] == next
    modifies a
    ensures Written(a, start, w + 1, target, orig)
  {
    a[w] := next;
  }

  /**
   * What `url_decode_with_offset_flag` knows between turns of its loop, apart
   * from the buffer: it reads at `r` (the byte there is `current`), writes at
   * `w`, and has decoded `count` bytes of `target`, the decoding of `s`.
   */
  predicate DecodeState(lo: nat, hi: nat, offset: nat, r: nat, w: nat, current: byte,
                        count: nat, s: seq<byte>, target: seq<byte>)
  {
    && lo <= r <= hi && lo <= offset <= lo + 1 && offset <= w <= hi
    && count <= r - lo && count <= |target|
    && w == (if offset + count <= hi then offset + count else hi)
    && |s| == hi - lo && target[count..] == DecodedFrom(s, r - lo)
    && (r < hi ==> current == s[r - lo])
  }

  /** The loop invariant of `url_decode_with_offset_flag`. */
  ghost predicate DecodeInv(a: array<byte>, lo: nat, hi: nat, offset: nat, r: nat, w: nat, current: byte,
                            count: nat, s: seq<byte>, target: seq<byte>, orig: seq<byte>)
    reads a
  {
    && hi <= a.Length && DecodeState(lo, hi, offset, r, w, current, count, s, target)
    && |orig| == a.Length && s == orig[lo..hi]
    && Written(a, offset, w, target, orig)
  }

  /** The bytes not yet read are still the input's. */
  lemma UnreadIntact(a: array<byte>, lo: nat, hi: nat, offset: nat, r: nat, w: nat, current: byte,
                     count: nat, s: seq<byte>, target: seq<byte>, orig: seq<byte>)
    requires DecodeInv(a, lo, hi, offset, r, w, current, count, s, target, orig)
    ensures forall k :: r < k < hi ==> a[k] == s[k - lo]
  {
    forall k | r < k < hi ensures a[k] == s[k - lo] {
      assert a[k] == orig[k];
    }
  }

  /** One turn of the loop keeps `DecodeState`: `consumed` bytes read, `next` decoded. */
  lemma DecodeStateStep(lo: nat, hi: nat, offset: nat, r: nat, w: nat, current: byte, count: nat,
                        s: seq<byte>, target: seq<byte>, next: byte, consumed: nat, current': byte)
    requires DecodeState(lo, hi, offset, r, w, current, count, s, target) && r < hi
    requires 1 <= consumed && r - lo + consumed <= |s|
    requires DecodedFrom(s, r - lo) == [next] + DecodedFrom(s, r - lo + consumed)
    requires r + consumed < hi ==> current' == s[r + consumed - lo]
    ensures count < |target| && target[count] == next
    ensures DecodeState(lo, hi, offset, r + consumed, if w < hi then w + 1 else w, current', count + 1, s, target)
  {
    TargetStep(target, count, s, r - lo, next, consumed);
  }

  /** The reading half of a turn of the decoding loop: decode at `r` and look at the byte after. */
  method ReadNext(a: array<byte>, lo: nat, hi: nat, offset: nat, r: nat, w: nat, current: byte,
                  ghost count: nat, ghost s: seq<byte>, ghost target: seq<byte>, ghost orig: seq<byte>)
    returns (r': nat, current': byte, next: byte)
    requires DecodeInv(a, lo, hi, offset, r, w, current, count, s, target, orig) && r < hi
    ensures r < r' && count < |target| && target[count] == next
    ensures DecodeState(lo, hi, offset, r', if w < hi then w + 1 else w, current', count + 1, s, target)
  {
    UnreadIntact(a, lo, hi, offset, r, w, current, count, s, target, orig);
    var consumed;
    next, consumed := DecodeOne(a, lo, hi, r - lo, current, s);
    r' := r + consumed;
    current' := current;
    if r' < hi {
      current' := a[r'];
    }
    DecodeStateStep(lo, hi, offset, r, w, current, count, s, target, next, consumed, current');
  }

  /** One turn of the decoding loop: decode at `r`, then write at `w` while there is room. */
  method DecodeStep(a: array<byte>, lo: nat, hi: nat, offset: nat, r: nat, w: nat, current: byte,
                    ghost count: nat, ghost s: seq<byte>, ghost target: seq<byte>, ghost orig: seq<byte>)
    returns (r': nat, w': nat, current': byte, ghost count': nat)
    requires DecodeInv(a, lo, hi, offset, r, w, current, count, s, target, orig) && r < hi
    modifies a
    ensures DecodeInv(a, lo, hi, offset, r', w', current', count', s, target, orig) && r < r'
  {
    var next;
    r', current', next := ReadNext(a, lo, hi, offset, r, w, current, count, s, target, orig);
    count' := count + 1;
    w' := if w < hi then w + 1 else w;
    if w < hi {
      WriteNext(a, offset, w, target, orig, next);
    }
  }

  /**
   * `url_decode_with_offset_flag` on the slice `a[lo..hi]`: decodes in place,
   * writing from the slice's first byte, or from its second when
   * `writeOffset1` holds, and returns the written part `a[start..end]`. With
   * the offset the slice's first byte is never written and the decoding is cut
   * to the room left, one byte short of the slice. No byte outside the
   * returned part changes.
   */
  method UrlDecodeWithOffsetFlag(a: array<byte>, lo: nat, hi: nat, writeOffset1: bool)
    returns (start: nat, end: nat)
    requires lo <= hi <= a.Length
    modifies a
    ensures lo <= start <= end <= hi
    ensures lo == hi ==> start == lo && end == hi
    ensures lo < hi ==> start == lo + (if writeOffset1 then 1 else 0)
    ensures var d := DecodedFrom(old(a[lo..hi]), 0);
      a[start..end] == if |d| <= hi - start then d else d[..hi - start]
    ensures forall k :: 0 <= k < a.Length && (k < start || end <= k) ==> a[k] == old(a[k])
  {
    if hi == lo {
      return lo, hi;
    }
    ghost var orig := a[..];
    ghost var s := a[lo..hi];
    ghost var target := DecodedFrom(s, 0);
    var offset: nat := if writeOffset1 then lo + 1 else lo;
    var w: nat := offset;
    var r := lo;
    var current := a[lo];
    ghost var count: nat := 0;
    while r < hi
      invariant DecodeInv(a, lo, hi, offset, r, w, current, count, s, target, orig)
      decreases hi - r
    {
      r, w, current, count := DecodeStep(a, lo, hi, offset, r, w, current, count, s, target, orig);
    }
    WrittenSlice(a, offset, w, target, orig);
    DecodedTail(target, count, s);
    return offset, w;
  }

  /** `url_decode`: decodes `a[lo..hi]` in place from its first byte. */
  method Decode(a: array<byte>, lo: nat, hi: nat) returns (start: nat, end: nat)
    requires lo <= hi <= a.Length
    modifies a
    ensures start == lo && start <= end <= hi
    ensures a[start..end] == Decoded(old(a[lo..hi]))
    ensures forall k :: 0 <= k < a.Length && (k < start || end <= k) ==> a[k] == old(a[k])
  {
    DecodedLength(a[lo..hi]);
    start, end := UrlDecodeWithOffsetFlag(a, lo, hi, false);
  }

  /**
   * `url_decode_and_move_1`: decodes `a[lo..hi]` in place from its second
   * byte, leaving the first for a marker. With an escape the whole decoding
   * fits; without one it loses its last byte.
   */
  method DecodeAndMove1(a: array<byte>, lo: nat, hi: nat) returns (start: nat, end: nat)
    requires lo < hi <= a.Length
    modifies a
    ensures start == lo + 1 && start <= end <= hi
    ensures HasEscape(old(a[lo..hi])) ==> a[start..end] == Decoded(old(a[lo..hi]))
    ensures !HasEscape(old(a[lo..hi])) ==>
      a[start..end] == PlusToSpace(old(a[lo..hi]))[..hi - lo - 1]
    ensures forall k :: 0 <= k < a.Length && (k < start || end <= k) ==> a[k] == old(a[k])
  {
    ghost var s := a[lo..hi];
    DecodedLength(s);
    if !HasEscape(s) { DecodedWithoutEscape(s); }
    start, end := UrlDecodeWithOffsetFlag(a, lo, hi, true);
  }

  /** The counter `contains_percent_values` keeps after reading `s[..i]`. */
  function PendingDigits(s: seq<byte>, i: nat): int
    requires i <= |s|
  {
    if i >= 1 && s[i - 1] == PERCENT then 2
    else if i >= 2 && s[i - 2] == PERCENT && HexDecodeDigit(s[i - 1]).Some? then 1
    else 0
  }

  /** `contains_percent_values`: a single scan that tells whether `s` holds an escape. */
  method ContainsPercentValues(s: seq<byte>) returns (found: bool)
    ensures found == HasEscape(s)
  {
    var matchHexDigits := 0;
    var i := 0;
    while i < |s|
      invariant 0 <= i <= |s|
      invariant matchHexDigits == PendingDigits(s, i)
      invariant forall j: nat :: j + 2 < i ==> !EscapeAt(s, j)
    {
      var b := s[i];
      if matchHexDigits != 0 {
        if HexDecodeDigit(b).None? {
          matchHexDigits := 0;
        } else {
          matchHexDigits := matchHexDigits - 1;
          if matchHexDigits == 0 {
            assert EscapeAt(s, i - 2);
            return true;
          }
        }
      }
      if b == PERCENT {
        matchHexDigits := 2;
      }
      i := i + 1;
    }
    return false;
  }

  /** The escape `%XY` for `b`, with upper-case digits. */
  function EscapeOf(b: byte): (e: seq<byte>)
    ensures |e| == 3 && e[0] == PERCENT && IsHexPairOf(e[1], e[2], b)
  {
    [PERCENT, UpperHexDigits[b / 16], UpperHexDigits[b % 16]]
  }

  /** Percent-encodes every byte of `s`: the inverse that `Decoded` undoes. */
  function Encoded(s: seq<byte>): (e: seq<byte>)
    ensures |e| == 3 * |s|
  {
    if s == [] then [] else EscapeOf(s[0]) + Encoded(s[1..])
  }

  /** The decoder reads the same step at `r` in `q` and at `|p| + r` in `p + q`. */
  lemma NextDecodedShift(p: seq<byte>, q: seq<byte>, r: nat)
    requires r < |q|
    ensures NextDecoded(p + q, |p| + r) == NextDecoded(q, r)
  {
    var pq := p + q;
    assert pq[|p| + r] == q[r];
    if r + 2 < |q| {
      assert pq[|p| + r + 1] == q[r + 1] && pq[|p| + r + 2] == q[r + 2];
    }
    assert EscapeAt(pq, |p| + r) == EscapeAt(q, r);
  }

  /** Decoding from an index never looks back: a prefix does not change it. */
  lemma {:induction false} DecodedFromShift(p: seq<byte>, q: seq<byte>, r: nat)
    requires r <= |q|
    ensures DecodedFrom(p + q, |p| + r) == DecodedFrom(q, r)
    decreases |q| - r
  {
    if r < |q| {
      var pq := p + q;
      NextDecodedShift(p, q, r);
      var step := NextDecoded(q, r);
      assert DecodedFrom(pq, |p| + r) == [step.0] + DecodedFrom(pq, |p| + r + step.1);
      DecodedFromShift(p, q, r + step.1);
    }
  }

  /** The two digits of an escape decode to the escaped byte. */
  lemma EscapeOfDecodes(b: byte)
    ensures HexToByte(EscapeOf(b)[1], EscapeOf(b)[2]) == Some(b)
  {
    HexToByteTable(EscapeOf(b)[1], EscapeOf(b)[2]);
  }

  /** Decoding undoes percent-encoding: every byte sequence survives the round trip. */
  lemma {:induction false} DecodedEncoded(s: seq<byte>)
    ensures Decoded(Encoded(s)) == s
  {
    if s != [] {
      var e := EscapeOf(s[0]);
      var rest := Encoded(s[1..]);
      EscapeOfDecodes(s[0]);
      assert Encoded(s) == e + rest;
      assert (e + rest)[1] == e[1] && (e + rest)[2] == e[2];
      assert NextDecoded(e + rest, 0) == (s[0], 3);
      DecodedFromShift(e, rest, 0);
      DecodedEncoded(s[1..]);
      calc {
        Decoded(Encoded(s));
        DecodedFrom(e + rest, 0);
        [s[0]] + DecodedFrom(e + rest, 3);
        [s[0]] + Decoded(rest);
        s;
      }
    }
  }

  /** `%%31` decodes to `%1`: a `%` that starts no escape is kept as it is. */
  lemma DecodeExamplePercentPercent()
    ensures Decoded([PERCENT, PERCENT, 0x33, 0x31]) == [PERCENT, 0x31]
  {
    var s: seq<byte> := [PERCENT, PERCENT, 0x33, 0x31];
    assert !EscapeAt(s, 0);
    assert EscapeAt(s, 1);
    assert DecodedFrom(s, 1) == [0x31];
  }

  /** `%20h` decodes to ` h`; an incomplete escape such as `h%5` is kept. */
  lemma DecodeExampleEscapes()
    ensures Decoded([PERCENT, 0x32, 0x30, 0x68]) == [SPACE, 0x68]
    ensures Decoded([0x68, PERCENT, 0x35]) == [0x68, PERCENT, 0x35]
  {
    var s: seq<byte> := [PERCENT, 0x32, 0x30, 0x68];
    assert EscapeAt(s, 0);
    assert DecodedFrom(s, 3) == [0x68];
    var t: seq<byte> := [0x68, PERCENT, 0x35];
    assert DecodedFrom(t, 2) == [0x35];
    assert DecodedFrom(t, 1) == [PERCENT, 0x35];
  }
}
