/**
 * Reading the names and values back out of a query string that has been
 * decoded and marked in place (src/http/url_params/iterator.rs). The
 * iterator keeps the bytes that remain; each call reads a name and a value
 * with `parse_decoded_component` and drops what they took up.
 *
 * The main result, `MarkedParamsReadBack`, closes the loop with
 * `decode_and_mark_params`: over an accepted query string the iterator
 * yields one pair per `&`-separated piece, its name and value decoded.
 */
module UrlParamsIterator {
  import opened Wrappers
  import opened Bytes
  import opened Errors
  import opened UrlDecode
  import opened HttpStr
  import opened UrlParamsParse
  import opened UrlParamsDecode

  /** `Param`: a name and its value, both slices of the marked buffer. */
  datatype Param = Param(name: seq<byte>, value: seq<byte>)

  /**
   * What one call of `next` makes of the remaining bytes `b`: the name read
   * from `b`, the value read from what follows the name, and how many bytes
   * the two took up; nothing once no byte remains.
   */
  function NextParam(b: seq<byte>): (r: Option<(Param, nat)>)
    ensures r.None? <==> b == []
    ensures r.Some? ==> r.value.1 <= |b|
  {
    if b == [] then None
    else
      var name := ParsedComponent(b, Name);
      var rest := b[name.2..];
      var value := ParsedComponent(rest, Value);
      Some((Param(b[name.0..name.1], rest[value.0..value.1]), name.2 + value.2))
  }

  /**
   * Every call on bytes that remain drops at least one, so the iteration
   * ends. A name that takes up nothing starts with `&` (a NUL would be a
   * marker and `=` would be swallowed), and the value swallows that `&`.
   */
  lemma NextParamAdvances(b: seq<byte>)
    requires b != []
    ensures NextParam(b).value.1 > 0
  {
    var name := ParsedComponent(b, Name);
    if name.2 == 0 {
      assert b[0..] == b;
      assert EndsAt(b, Name, false, 0);
      assert b[0] == AMPERSAND;
      assert ParsedComponent(b, Value).2 == 1;
    }
  }

  /** Everything the iterator yields from `b`, in order; at most one pair per byte. */
  function ParamsOf(b: seq<byte>): (ps: seq<Param>)
    ensures |ps| <= |b|
    decreases |b|
  {
    match NextParam(b)
    case None => []
    case Some((p, n)) =>
      NextParamAdvances(b);
      [p] + ParamsOf(b[n..])
  }

  /**
   * The pair that the piece `p` of a query string stands for: the decoding
   * of what comes before its first `=` and of what comes after it, or an
   * empty value when it has no `=`.
   */
  function PairOf(p: seq<byte>): Param
  {
    var (nameLen, valueStart) := TrySplitTwo(p, [ASSIGN]);
    Param(Decoded(p[..nameLen]), if valueStart.Some? then Decoded(p[valueStart.value..]) else [])
  }

  /**
   * The pairs of the query string `q`: one for each piece between `&`s, in
   * order, except an empty piece at the very end.
   */
  function DecodedParams(q: seq<byte>): seq<Param>
    decreases |q|
  {
    match Find(q, [AMPERSAND])
    case Some(i) => [PairOf(q[..i])] + DecodedParams(q[i + 1..])
    case None => if q == [] then [] else [PairOf(q)]
  }

  /** Whether `find_next_start` swallows the first byte of `t` after a component of this kind. */
  function Swallowed(t: seq<byte>, kind: ComponentKind): nat
  {
    if t != [] && ((t[0] == ASSIGN && kind == Name) || (t[0] == AMPERSAND && kind == Value)) then 1 else 0
  }

  /** What may follow a component of this kind in a marked query string. */
  predicate Follows(t: seq<byte>, kind: ComponentKind)
  {
    t == [] || t[0] == AMPERSAND || (kind == Name && t[0] == ASSIGN)
  }

  /** The first NUL-free byte of `z + t` is the first of `t` when `z` is all NUL. */
  lemma SkipPadding(z: seq<byte>, t: seq<byte>)
    requires forall k :: 0 <= k < |z| ==> z[k] == NUL
    requires t == [] || t[0] != NUL
    ensures SkipNul(z + t) == |z|
  {
    forall k | 0 <= k < |z| ensures (z + t)[k] == NUL {
      assert (z + t)[k] == z[k];
    }
    if t != [] {
      assert (z + t)[|z|] == t[0];
    }
  }

  /** The search for the end of a component stops at the first byte that ends it. */
  lemma EndFromIs(b: seq<byte>, kind: ComponentKind, startsWithNul: bool, i: nat, e: nat)
    requires i <= e <= |b|
    requires forall k :: i <= k < e ==> !EndsAt(b, kind, startsWithNul, k)
    requires e < |b| ==> EndsAt(b, kind, startsWithNul, e)
    ensures EndFrom(b, kind, startsWithNul, i) == e
  {
  }

  /**
   * A component left in place, free of NUL, of `&` and, for a name, of `=`,
   * reads back whole, and the next component starts right after it and the
   * separator of its kind.
   */
  lemma PlainReadBack(m: seq<byte>, kind: ComponentKind, t: seq<byte>)
    requires NUL !in m && AMPERSAND !in m && (kind == Name ==> ASSIGN !in m)
    requires Follows(t, kind)
    ensures ParsedComponent(m + t, kind).0 == 0
    ensures ParsedComponent(m + t, kind).1 == |m|
    ensures ParsedComponent(m + t, kind).2 == |m| + Swallowed(t, kind)
  {
    var b := m + t;
    assert !(|b| > 0 && b[0] == NUL) by {
      if |m| > 0 {
        assert b[0] == m[0];
      } else if |b| > 0 {
        assert b[0] == t[0];
      }
    }
    forall k | 0 <= k < |m| ensures !EndsAt(b, kind, false, k) {
      assert b[k] == m[k];
    }
    if |m| < |b| {
      assert b[|m|] == t[0];
    }
    EndFromIs(b, kind, false, 0, |m|);
    assert b[|m|..] == t;
    SkipPadding([], t);
    assert [] + t == t;
  }

  /**
   * A component marked by a leading NUL, holding the NUL-free decoding `d`
   * and then at least one NUL, reads back as `d`, and the next component
   * starts after its padding and the separator of its kind.
   */
  lemma MarkedReadBack(m: seq<byte>, d: seq<byte>, kind: ComponentKind, t: seq<byte>)
    requires |d| + 2 <= |m| && m[0] == NUL && m[1..|d| + 1] == d && NUL !in d
    requires forall k :: |d| + 1 <= k < |m| ==> m[k] == NUL
    requires Follows(t, kind)
    ensures ParsedComponent(m + t, kind).0 == 1
    ensures ParsedComponent(m + t, kind).1 == |d| + 1
    ensures ParsedComponent(m + t, kind).2 == |m| + Swallowed(t, kind)
  {
    var b := m + t;
    assert b[0] == m[0];
    forall k | 1 <= k < |d| + 1 ensures !EndsAt(b, kind, true, k) {
      assert b[k] == m[1..|d| + 1][k - 1];
    }
    assert b[|d| + 1] == m[|d| + 1];
    EndFromIs(b, kind, true, 1, |d| + 1);
    var z := m[|d| + 1..];
    assert b[|d| + 1..] == z + t;
    SkipPadding(z, t);
    if t != [] {
      assert (z + t)[|z|] == t[0];
    }
  }

  /**
   * `b` starts with a component of this kind that reads as `d`, and the next
   * component starts at `next`.
   */
  predicate ReadsAs(b: seq<byte>, kind: ComponentKind, d: seq<byte>, next: nat)
  {
    var r := ParsedComponent(b, kind);
    b[r.0..r.1] == d && r.2 == next
  }

  /**
   * A component `c` that `decode_and_mark_component` accepted, followed by
   * what may follow it, reads back as the decoding of `c`, and the next
   * component starts after `c` and the separator of its kind.
   */
  lemma ComponentReadBack(c: seq<byte>, kind: ComponentKind, t: seq<byte>)
    requires MarkComponent(c).Ok?
    requires AMPERSAND !in c && (kind == Name ==> ASSIGN !in c)
    requires Follows(t, kind)
    ensures |MarkComponent(c).value| == |c|
    ensures ReadsAs(MarkComponent(c).value + t, kind, Decoded(c), |c| + Swallowed(t, kind))
  {
    MarkComponentSpec(c);
    var m, d := MarkComponent(c).value, Decoded(c);
    var b := m + t;
    if HasEscape(c) {
      MarkedReadBack(m, d, kind, t);
      assert b[1..|d| + 1] == m[1..|d| + 1];
    } else {
      DecodedWithoutEscape(c);
      forall k | 0 <= k < |m| ensures m[k] != AMPERSAND && (kind == Name ==> m[k] != ASSIGN) {
        assert c[k] in c;
      }
      PlainReadBack(m, kind, t);
      assert b[0..|m|] == m;
    }
  }

  /** A name that reads as `name` followed by a value that reads as `value` make one call of `next`. */
  lemma NextParamReads(b: seq<byte>, name: seq<byte>, nameNext: nat, value: seq<byte>, valueNext: nat)
    requires b != [] && nameNext <= |b|
    requires ReadsAs(b, Name, name, nameNext) && ReadsAs(b[nameNext..], Value, value, valueNext)
    ensures NextParam(b).Some?
    ensures NextParam(b).value.0 == Param(name, value)
    ensures NextParam(b).value.1 == nameNext + valueNext
  {
  }

  /**
   * A marked name with no `=` after it, followed by nothing or by `&`, is
   * read as that name with an empty value.
   */
  lemma NameOnlyReadBack(c: seq<byte>, t: seq<byte>)
    requires MarkComponent(c).Ok? && AMPERSAND !in c && ASSIGN !in c
    requires t == [] || t[0] == AMPERSAND
    requires c != [] || t != []
    ensures NextParam(MarkComponent(c).value + t).Some?
    ensures NextParam(MarkComponent(c).value + t).value.0 == Param(Decoded(c), [])
    ensures NextParam(MarkComponent(c).value + t).value.1 == |c| + Swallowed(t, Value)
  {
    ComponentReadBack(c, Name, t);
    ComponentReadBack([], Value, t);
    NameOnlyAt(MarkComponent(c).value, t, Decoded(c), Swallowed(t, Value));
  }

  /** A name reading as `name` up to nothing or an `&` makes one call of `next` with an empty value. */
  lemma NameOnlyAt(m: seq<byte>, t: seq<byte>, name: seq<byte>, valueNext: nat)
    requires m + t != [] && (t == [] || t[0] == AMPERSAND)
    requires ReadsAs(m + t, Name, name, |m|)
    requires ReadsAs(MarkComponent([]).value + t, Value, Decoded([]), valueNext)
    ensures NextParam(m + t).Some?
    ensures NextParam(m + t).value.0 == Param(name, [])
    ensures NextParam(m + t).value.1 == |m| + valueNext
  {
    assert Decoded([]) == [] && MarkComponent([]).value == [] by {
      MarkComponentSpec([]);
    }
    assert (m + t)[|m|..] == [] + t;
    NextParamReads(m + t, name, |m|, [], valueNext);
  }

  /** A name reading as `name` up to an `=`, then a value reading as `value`, make one call of `next`. */
  lemma NameValueAt(m: seq<byte>, mv: seq<byte>, t: seq<byte>, name: seq<byte>, value: seq<byte>, valueNext: nat)
    requires ReadsAs(m + ([ASSIGN] + mv + t), Name, name, |m| + 1)
    requires ReadsAs(mv + t, Value, value, valueNext)
    ensures NextParam(m + [ASSIGN] + mv + t).Some?
    ensures NextParam(m + [ASSIGN] + mv + t).value.0 == Param(name, value)
    ensures NextParam(m + [ASSIGN] + mv + t).value.1 == |m| + 1 + valueNext
  {
    var b := m + [ASSIGN] + mv + t;
    assert b == m + ([ASSIGN] + mv + t);
    assert b[|m| + 1..] == mv + t;
    NextParamReads(b, name, |m| + 1, value, valueNext);
  }

  /**
   * A piece `p` that `decode_and_mark_params` accepted, followed by the
   * rest of the marked string (nothing, or an `&` and more), is read as the
   * pair it stands for, taking up the piece and its `&`.
   */
  lemma PairReadBack(p: seq<byte>, t: seq<byte>)
    requires MarkPair(p).Ok? && AMPERSAND !in p
    requires t == [] || t[0] == AMPERSAND
    requires p != [] || t != []
    ensures NextParam(MarkPair(p).value + t).Some?
    ensures NextParam(MarkPair(p).value + t).value.0 == PairOf(p)
    ensures NextParam(MarkPair(p).value + t).value.1 == |p| + Swallowed(t, Value)
  {
    var (nameLen, valueStart) := TrySplitTwo(p, [ASSIGN]);
    PieceParts(p);
    if valueStart.None? {
      assert p[..nameLen] == p;
      NameOnlyReadBack(p, t);
    } else {
      NameValueReadBack(p[..nameLen], p[nameLen + 1..], t);
    }
  }

  /** In a piece without `&`, the name holds no `=` and the value starts just after the first `=`. */
  lemma PieceParts(p: seq<byte>)
    requires AMPERSAND !in p
    ensures var nameLen, valueStart := TrySplitTwo(p, [ASSIGN]).0, TrySplitTwo(p, [ASSIGN]).1;
      && AMPERSAND !in p[..nameLen] && ASSIGN !in p[..nameLen]
      && (valueStart.None? ==> nameLen == |p|)
      && (valueStart.Some? ==> valueStart.value == nameLen + 1 <= |p| && AMPERSAND !in p[nameLen + 1..])
  {
    var (nameLen, valueStart) := TrySplitTwo(p, [ASSIGN]);
    FindByte(p, ASSIGN);
    forall k | 0 <= k < nameLen ensures p[..nameLen][k] != AMPERSAND {
      assert p[k] in p;
    }
    if valueStart.Some? {
      var v := p[nameLen + 1..];
      forall j | 0 <= j < |v| ensures v[j] != AMPERSAND {
        assert v[j] == p[nameLen + 1 + j];
        assert p[nameLen + 1 + j] in p;
      }
    }
  }

  /**
   * A marked name, `=` and a marked value, followed by nothing or by `&`,
   * are read as that name and value.
   */
  lemma NameValueReadBack(c: seq<byte>, v: seq<byte>, t: seq<byte>)
    requires MarkComponent(c).Ok? && AMPERSAND !in c && ASSIGN !in c
    requires MarkComponent(v).Ok? && AMPERSAND !in v
    requires t == [] || t[0] == AMPERSAND
    ensures var b := MarkComponent(c).value + [ASSIGN] + MarkComponent(v).value + t;
      && NextParam(b).Some?
      && NextParam(b).value.0 == Param(Decoded(c), Decoded(v))
      && NextParam(b).value.1 == |c| + 1 + |v| + Swallowed(t, Value)
  {
    var mn, mv := MarkComponent(c).value, MarkComponent(v).value;
    ComponentReadBack(v, Value, t);
    ComponentReadBack(c, Name, [ASSIGN] + mv + t);
    NameValueAt(mn, mv, t, Decoded(c), Decoded(v), |v| + Swallowed(t, Value));
    assert |mn| + 1 + |v| + Swallowed(t, Value) == |c| + 1 + |v| + Swallowed(t, Value);
  }

  /**
   * Over a query string `q` that `decode_and_mark_params` accepted, the
   * iterator yields exactly the decoded pairs of `q`: one per piece between
   * `&`s, in order, apart from an empty piece at the end.
   */
  lemma {:induction false} MarkedParamsReadBack(q: seq<byte>)
    requires MarkParams(q).Ok?
    ensures ParamsOf(MarkParams(q).value) == DecodedParams(q)
    decreases |q|
  {
    match Find(q, [AMPERSAND])
    case Some(i) =>
      MarkPiecesAt(q, i, MarkPair);
      MarkedParamsReadBack(q[i + 1..]);
      ReadBackPiece(q, i);
    case None =>
      ReadBackLast(q);
  }

  /** The step of `MarkedParamsReadBack` for a piece that ends at the `&` at `i`. */
  lemma ReadBackPiece(q: seq<byte>, i: nat)
    requires Find(q, [AMPERSAND]) == Some(i)
    requires MarkPair(q[..i]).Ok? && MarkParams(q[i + 1..]).Ok?
    requires MarkParams(q) == Ok(MarkPair(q[..i]).value + [AMPERSAND] + MarkParams(q[i + 1..]).value)
    requires ParamsOf(MarkParams(q[i + 1..]).value) == DecodedParams(q[i + 1..])
    ensures ParamsOf(MarkParams(q).value) == DecodedParams(q)
  {
    FindByte(q, AMPERSAND);
    ReadBackJoin(q[..i], MarkParams(q[i + 1..]).value);
  }

  /** A marked piece, `&` and the marked rest are read as the piece's pair and then the rest. */
  lemma ReadBackJoin(x: seq<byte>, rest: seq<byte>)
    requires MarkPair(x).Ok? && AMPERSAND !in x
    ensures ParamsOf(MarkPair(x).value + [AMPERSAND] + rest) == [PairOf(x)] + ParamsOf(rest)
  {
    MarkPairKeepsShape(x);
    var m := MarkPair(x).value;
    Associate(m, [AMPERSAND], rest);
    PairReadBack(x, [AMPERSAND] + rest);
    ParamsOfStep(m + ([AMPERSAND] + rest), PairOf(x), |x| + 1, rest);
  }

  lemma Associate(x: seq<byte>, y: seq<byte>, z: seq<byte>)
    ensures x + y + z == x + (y + z)
    ensures |x + y| <= |x + y + z| && (x + y + z)[|x + y|..] == z
  {
  }

  /** The last step of `MarkedParamsReadBack`, once no `&` is left. */
  lemma ReadBackLast(q: seq<byte>)
    requires Find(q, [AMPERSAND]).None? && MarkParams(q).Ok?
    ensures ParamsOf(MarkParams(q).value) == DecodedParams(q)
  {
    if q != [] {
      FindByte(q, AMPERSAND);
      assert MarkParams(q) == MarkPair(q);
      PairReadBack(q, []);
      MarkPairKeepsShape(q);
      var m := MarkPair(q).value;
      assert m + [] == m;
      ParamsOfStep(m, PairOf(q), |q|, []);
    }
  }

  /** When a call of `next` yields `p` and leaves `rest`, the iteration is `p` followed by that of `rest`. */
  lemma ParamsOfStep(b: seq<byte>, p: Param, n: nat, rest: seq<byte>)
    requires NextParam(b).Some? && NextParam(b).value.0 == p && NextParam(b).value.1 == n
    requires n <= |b| && b[n..] == rest
    ensures ParamsOf(b) == [p] + ParamsOf(rest)
  {
  }

  /** `UrlEncodedParams`: the buffer after `decode_and_mark_params` accepted it. */
  datatype UrlEncodedParams = UrlEncodedParams(decodedParams: seq<byte>)
  {
    /** `iter`: a fresh iterator over the whole buffer, so the pairs can be read again. */
    method Iter() returns (it: UrlEncodedParamsIterator)
      ensures fresh(it) && it.remaining == decodedParams
    {
      it := new UrlEncodedParamsIterator(decodedParams);
    }
  }

  /**
   * `decode_and_create` on the query string `a[lo..hi]`: decodes and marks
   * it and keeps it for reading, or passes on the error. No byte outside
   * the query string changes.
   */
  method DecodeAndCreate(a: array<byte>, lo: nat, hi: nat) returns (r: Result<UrlEncodedParams, RequestError>)
    requires lo <= hi <= a.Length
    modifies a
    ensures r.Err? <==> MarkParams(old(a[lo..hi])).Err?
    ensures r.Err? ==> r.error == MarkParams(old(a[lo..hi])).error
    ensures r.Ok? ==> a[lo..hi] == MarkParams(old(a[lo..hi])).value && r.value.decodedParams == a[lo..hi]
    ensures r.Ok? ==> ParamsOf(r.value.decodedParams) == DecodedParams(old(a[lo..hi]))
    ensures a[..lo] == old(a[..lo]) && a[hi..] == old(a[hi..])
  {
    ghost var q := a[lo..hi];
    var marked := DecodeAndMarkParams(a, lo, hi);
    if marked.Err? {
      return Err(marked.error);
    }
    MarkedParamsReadBack(q);
    r := Ok(UrlEncodedParams(a[lo..hi]));
  }

  /** `UrlEncodedParamsIterator`: the bytes of the marked buffer not read yet. */
  class UrlEncodedParamsIterator {
    var remaining: seq<byte>

    constructor (params: seq<byte>)
      ensures remaining == params
    {
      remaining := params;
    }

    /**
     * `next`: nothing once no byte remains; otherwise the next pair, and
     * what it took up is dropped. What it yields followed by what it will
     * yield is everything the bytes before the call hold.
     */
    method Next() returns (param: Option<Param>)
      modifies this
      ensures param.None? <==> old(remaining) == []
      ensures param.None? ==> remaining == old(remaining)
      ensures param.Some? ==> var next := NextParam(old(remaining)).value;
        param.value == next.0 && remaining == old(remaining)[next.1..] && |remaining| < |old(remaining)|
      ensures ParamsOf(old(remaining)) == (if param.Some? then [param.value] + ParamsOf(remaining) else [])
    {
      if |remaining| == 0 {
        return None;
      }
      var beforeName := remaining;
      var nameStart, nameEnd, nameNext := ParseDecodedComponent(beforeName, Name);
      var beforeValue := beforeName[nameNext..];
      var valueStart, valueEnd, valueNext := ParseDecodedComponent(beforeValue, Value);
      param := Some(Param(beforeName[nameStart..nameEnd], beforeValue[valueStart..valueEnd]));
      NextParamAdvances(beforeName);
      remaining := remaining[nameNext + valueNext..];
    }
  }
}
