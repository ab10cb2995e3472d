/**
 * `decode` (src/encoding/base64.rs): Base64 (section 4 of RFC 4648)
 * decoded in place. Every character is mapped to six bits, every second,
 * third and fourth character of a group of four completes one output byte,
 * written back into the same buffer behind the character being read, and
 * the output ends where the first `=` says the input ends.
 */
module Base64 {
  import opened Wrappers

  /** `=` */
  const PAD: bv8 := 0x3D

  /**
   * The six bits of a character: `A`-`Z`, `a`-`z`, `0`-`9`, `+`, `/` in
   * that order, and `=` (padding) as zero; `None` for any other byte.
   */
  function Sextet(c: bv8): (r: Option<bv8>)
    ensures r.Some? ==> r.value < 64
  {
    if 65 <= c <= 90 then Some(c - 65)
    else if 97 <= c <= 122 then Some(c - 97 + 26)
    else if 48 <= c <= 57 then Some(c + 4)
    else if c == 43 then Some(62)
    else if c == 47 then Some(63)
    else if c == PAD then Some(0)
    else None
  }

  predicate IsBase64(c: bv8)
  {
    Sextet(c).Some?
  }

  predicate AllBase64(s: seq<bv8>)
  {
    forall j :: 0 <= j < |s| ==> IsBase64(s[j])
  }

  /**
   * The output byte completed by the character with six bits `cur` at
   * position `phase` (1, 2 or 3) of its group, the previous character
   * having six bits `prev`; the shifts drop the bits that leave a `u8`.
   */
  function Combine(phase: nat, prev: bv8, cur: bv8): bv8
    requires 1 <= phase <= 3
  {
    if phase == 1 then (prev << 2) | ((cur & 0x30) >> 4)
    else if phase == 2 then (prev << 4) | ((cur & 0x3C) >> 2)
    else (prev << 6) | (cur & 0x3F)
  }

  /** The three bytes a group of four characters stands for. */
  function GroupBytes(q: seq<bv8>): (r: seq<bv8>)
    requires |q| == 4 && AllBase64(q)
    ensures |r| == 3
  {
    var a, b, c, d := Sextet(q[0]).value, Sextet(q[1]).value, Sextet(q[2]).value, Sextet(q[3]).value;
    [Combine(1, a, b), Combine(2, b, c), Combine(3, c, d)]
  }

  /** The bytes all the groups of four stand for, in order. */
  function Groups(s: seq<bv8>): (r: seq<bv8>)
    requires |s| % 4 == 0 && AllBase64(s)
    ensures |r| == |s| / 4 * 3
  {
    if s == [] then [] else GroupBytes(s[..4]) + Groups(s[4..])
  }

  /** The number of characters before the first one outside the alphabet. */
  function ValidPrefix(s: seq<bv8>): (r: nat)
    ensures r <= |s| && (r < |s| ==> !IsBase64(s[r]))
    ensures forall j :: 0 <= j < r ==> IsBase64(s[j])
  {
    if s == [] || !IsBase64(s[0]) then 0 else 1 + ValidPrefix(s[1..])
  }

  /** The index of the first `=`, or the length when there is none (`input_len`). */
  function FirstPad(s: seq<bv8>): (r: nat)
    ensures r <= |s| && (r < |s| ==> s[r] == PAD)
    ensures forall j :: 0 <= j < r ==> s[j] != PAD
  {
    if s == [] || s[0] == PAD then 0 else 1 + FirstPad(s[1..])
  }

  /**
   * `output_len`: three bytes per whole group before the first `=`, and
   * one byte fewer than the characters of a partial group
   * (`saturating_sub`, so none for a lone character).
   */
  function OutputLength(p: nat): nat
  {
    p / 4 * 3 + if p % 4 >= 1 then p % 4 - 1 else 0
  }

  /** What `decode` returns, as a value: `None`, or the decoded bytes. */
  function Decoded(s: seq<bv8>): (r: Option<seq<bv8>>)
    ensures r.Some? ==> |s| > 0 && |s| % 4 == 0 && AllBase64(s)
    ensures r.Some? ==> |r.value| <= |s| / 4 * 3 && r.value == Groups(s)[..|r.value|]
  {
    if |s| == 0 || |s| % 4 != 0 || ValidPrefix(s) < |s| then None
    else
      var p := FirstPad(s);
      if |s| - p == 3 then None
      else
        assert OutputLength(p) <= |s| / 4 * 3;
        Some(Groups(s)[..OutputLength(p)])
  }

  /** The position of the character that completes output byte `m`: character `m % 3 + 1` of group `m / 3`. */
  function Writer(m: nat): nat
  {
    4 * (m / 3) + m % 3 + 1
  }

  /**
   * The character at `i`, if not the first of its group, completes the
   * byte at `i - i / 4 - 1`; no other character writes there, and every
   * byte is written by a character after it.
   */
  lemma WriterOf(i: nat)
    requires i % 4 != 0
    ensures i / 4 + 1 <= i && Writer(i - i / 4 - 1) == i && (i - i / 4 - 1) % 3 + 1 == i % 4
  {
    var m := i - i / 4 - 1;
    assert m / 3 == i / 4 && m % 3 == i % 4 - 1;
  }

  /** A byte is written once, by a character after it that is not the first of its group. */
  lemma WriterAhead(m: nat)
    ensures m < Writer(m) && Writer(m) % 4 != 0 && Writer(m) - Writer(m) / 4 - 1 == m
  {
    assert Writer(m) / 4 == m / 3;
  }

  /** The byte at `m` once the character that completes it has been read. */
  function OutputByte(s: seq<bv8>, m: nat): bv8
    requires Writer(m) < |s| && IsBase64(s[Writer(m) - 1]) && IsBase64(s[Writer(m)])
  {
    Combine(m % 3 + 1, Sextet(s[Writer(m) - 1]).value, Sextet(s[Writer(m)]).value)
  }

  /** Byte `m` of the decoded groups is the byte completed by its writer. */
  lemma {:induction false} GroupsAt(s: seq<bv8>, m: nat)
    requires |s| % 4 == 0 && AllBase64(s) && m < |s| / 4 * 3
    ensures Writer(m) < |s| && Groups(s)[m] == OutputByte(s, m)
    decreases |s|
  {
    var rest := s[4..];
    assert Groups(s) == GroupBytes(s[..4]) + Groups(rest);
    if m < 3 {
      FirstGroup(s, m);
    } else {
      GroupsAt(rest, m - 3);
      NextGroup(s, m);
    }
  }

  /** The bytes of the first group are those its characters complete. */
  lemma FirstGroup(s: seq<bv8>, m: nat)
    requires 4 <= |s| && AllBase64(s[..4]) && m < 3
    ensures Writer(m) == m + 1 && GroupBytes(s[..4])[m] == OutputByte(s, m)
  {
    assert Writer(m) == m + 1 && m % 3 == m;
    assert s[..4][m] == s[m] && s[..4][m + 1] == s[m + 1];
  }

  /** Dropping a group moves every later byte and its writer back by one group. */
  lemma NextGroup(s: seq<bv8>, m: nat)
    requires 3 <= m && Writer(m - 3) < |s| - 4 && AllBase64(s)
    ensures Writer(m) < |s| && OutputByte(s[4..], m - 3) == OutputByte(s, m)
  {
    var w := Writer(m - 3);
    assert Writer(m) == w + 4 && m % 3 == (m - 3) % 3;
    assert s[4..][w - 1] == s[w + 3] && s[4..][w] == s[w + 4];
  }

  /** The number of characters the loop of `decode` reads in full before it stops. */
  function Processed(s: seq<bv8>): nat
  {
    if |s| == 0 || |s| % 4 != 0 then 0 else ValidPrefix(s)
  }

  /**
   * The buffer after the first `i` characters of `s` were read: every byte
   * whose writer is among them is completed, the rest is still `s`.
   */
  ghost predicate WrittenUpTo(a: seq<bv8>, s: seq<bv8>, i: nat)
  {
    && |a| == |s| && i <= |s| && (forall j :: 0 <= j < i ==> IsBase64(s[j]))
    && forall m {:trigger a[m]} :: 0 <= m < |s| ==> a[m] == if Writer(m) < i then OutputByte(s, m) else s[m]
  }

  /** Where the first `=` among the first `i` characters is, if any (`first_padding_idx`). */
  ghost predicate PaddingSoFar(s: seq<bv8>, i: nat, firstPadding: Option<nat>)
  {
    && i <= |s|
    && (firstPadding.None? ==> forall j :: 0 <= j < i ==> s[j] != PAD)
    && (firstPadding.Some? ==> firstPadding.value == FirstPad(s) < i)
  }

  /**
   * `decode`: `None` for an empty input or one whose length is not a
   * multiple of four, for a character outside the alphabet, and for three
   * padding characters; otherwise the length of the prefix of `src` that
   * holds the decoded bytes. The bytes before the read position are
   * rewritten even when the call fails part way.
   */
  method Decode(src: array<bv8>) returns (r: Option<nat>)
    modifies src
    ensures WrittenUpTo(src[..], old(src[..]), Processed(old(src[..])))
    ensures r.None? <==> Decoded(old(src[..])).None?
    ensures r.Some? ==> r.value <= src.Length && src[..r.value] == Decoded(old(src[..])).value
  {
    ghost var s := src[..];
    if src.Length == 0 || src.Length % 4 != 0 {
      return None;
    }
    var previous: bv8 := 0;
    var firstPadding: Option<nat> := None;
    var i := 0;
    while i < src.Length
      invariant WrittenUpTo(src[..], s, i)
      invariant PaddingSoFar(s, i, firstPadding)
      invariant 0 < i ==> Sextet(s[i - 1]) == Some(previous)
    {
      var ok;
      ok, previous, firstPadding := DecodeStep(src, s, i, previous, firstPadding);
      if !ok {
        return None;
      }
      i := i + 1;
    }
    var inputLen := if firstPadding.Some? then firstPadding.value else src.Length;
    if src.Length - inputLen == 3 {
      return None;
    }
    r := Some(OutputLength(inputLen));
    Output(src[..], s, inputLen);
  }

  /** The body of the loop of `decode` for the character at `i`. */
  method DecodeStep(src: array<bv8>, ghost s: seq<bv8>, i: nat, previous: bv8, firstPadding: Option<nat>)
    returns (ok: bool, current6: bv8, padding: Option<nat>)
    requires i < src.Length && WrittenUpTo(src[..], s, i) && PaddingSoFar(s, i, firstPadding)
    requires 0 < i ==> Sextet(s[i - 1]) == Some(previous)
    modifies src
    ensures !ok ==> src[..] == old(src[..]) && ValidPrefix(s) == i
    ensures ok ==> WrittenUpTo(src[..], s, i + 1) && PaddingSoFar(s, i + 1, padding)
    ensures ok ==> Sextet(s[i]) == Some(current6)
  {
    var current := src[i];
    WriterAhead(i);
    assert current == s[i];
    var decoded := Sextet(current);
    if decoded.None? {
      PrefixStops(s, i);
      return false, 0, firstPadding;
    }
    padding := firstPadding;
    if current == PAD && padding.None? {
      padding := Some(i);
    }
    var phase := i % 4;
    if phase != 0 {
      var index := i - i / 4 - 1;
      WriterOf(i);
      assert Combine(phase, previous, decoded.value) == OutputByte(s, index);
      StepWrite(src[..], s, i, index);
      src[index] := Combine(phase, previous, decoded.value);
    } else {
      StepSkip(src[..], s, i);
    }
    return true, decoded.value, padding;
  }

  /** The loop stops at the first character outside the alphabet. */
  lemma PrefixStops(s: seq<bv8>, i: nat)
    requires i < |s| && !IsBase64(s[i]) && forall j :: 0 <= j < i ==> IsBase64(s[j])
    ensures ValidPrefix(s) == i
  {
  }

  /** The first character of a group completes no byte. */
  lemma StepSkip(a: seq<bv8>, s: seq<bv8>, i: nat)
    requires WrittenUpTo(a, s, i) && i < |s| && IsBase64(s[i]) && i % 4 == 0
    ensures WrittenUpTo(a, s, i + 1)
  {
    forall m | 0 <= m < |s|
      ensures Writer(m) != i
    {
      WriterAhead(m);
    }
  }

  /** Any other character completes the byte at `index`, and only that one. */
  lemma StepWrite(a: seq<bv8>, s: seq<bv8>, i: nat, index: nat)
    requires WrittenUpTo(a, s, i) && i < |s| && IsBase64(s[i]) && i % 4 != 0
    requires index == i - i / 4 - 1 && Writer(index) == i
    ensures WrittenUpTo(a[index := OutputByte(s, index)], s, i + 1)
  {
    var b := a[index := OutputByte(s, index)];
    forall m | 0 <= m < |s|
      ensures b[m] == if Writer(m) < i + 1 then OutputByte(s, m) else s[m]
    {
      WriterAhead(m);
      if m != index {
        assert Writer(m) != i;
      }
    }
  }

  /** A successful decoding is the decoded groups up to the output length. */
  lemma DecodedGroups(s: seq<bv8>)
    requires |s| > 0 && |s| % 4 == 0 && AllBase64(s) && |s| - FirstPad(s) != 3
    ensures OutputLength(FirstPad(s)) <= |s| / 4 * 3
    ensures Decoded(s) == Some(Groups(s)[..OutputLength(FirstPad(s))])
  {
    assert ValidPrefix(s) == |s|;
  }

  /** Once every character is read, the buffer starts with the decoded groups. */
  lemma BufferIsGroups(a: seq<bv8>, s: seq<bv8>)
    requires |s| % 4 == 0 && WrittenUpTo(a, s, |s|)
    ensures |s| / 4 * 3 <= |a| && a[..|s| / 4 * 3] == Groups(s)
  {
    var k, g := |s| / 4 * 3, Groups(s);
    forall m | 0 <= m < k
      ensures a[..k][m] == g[m]
    {
      BufferByte(a, s, m);
    }
    assert a[..k] == g;
  }

  lemma BufferByte(a: seq<bv8>, s: seq<bv8>, m: nat)
    requires |s| % 4 == 0 && WrittenUpTo(a, s, |s|) && m < |s| / 4 * 3
    ensures |s| / 4 * 3 <= |a| && a[..|s| / 4 * 3][m] == Groups(s)[m]
  {
    GroupsAt(s, m);
  }

  /** After the loop: the first `OutputLength(p)` bytes of the buffer are those of `Decoded`. */
  lemma Output(a: seq<bv8>, s: seq<bv8>, p: nat)
    requires |s| > 0 && |s| % 4 == 0 && WrittenUpTo(a, s, |s|) && p == FirstPad(s) && |s| - p != 3
    ensures OutputLength(p) <= |a| && Decoded(s) == Some(a[..OutputLength(p)])
  {
    DecodedGroups(s);
    BufferIsGroups(a, s);
    PrefixOfPrefix(a, |s| / 4 * 3, OutputLength(p));
  }

  lemma PrefixOfPrefix(a: seq<bv8>, k: nat, n: nat)
    requires n <= k <= |a|
    ensures a[..n] == a[..k][..n]
  {
  }

  /** The character for six bits, as section 4 of RFC 4648 lists them. */
  function Alphabet(v: bv8): bv8
    requires v < 64
  {
    if v < 26 then v + 65
    else if v < 52 then v - 26 + 97
    else if v < 62 then v - 52 + 48
    else if v == 62 then 43
    else 47
  }

  /** Reading a character of the alphabet gives back its six bits; none of them is `=`. */
  lemma AlphabetSextet(v: bv8)
    requires v < 64
    ensures Sextet(Alphabet(v)) == Some(v) && Alphabet(v) != PAD
  {
  }

  /** The four characters for the 24 bits of three bytes, most significant first. */
  function Quad(x0: bv8, x1: bv8, x2: bv8): (r: seq<bv8>)
    ensures |r| == 4
  {
    [Alphabet(x0 >> 2), Alphabet(((x0 & 3) << 4) | (x1 >> 4)), Alphabet(((x1 & 15) << 2) | (x2 >> 6)), Alphabet(x2 & 63)]
  }

  /**
   * Base64 encoding (section 4 of RFC 4648): three bytes to four
   * characters; a final one or two bytes are padded with zero bits and
   * the group is filled up with `=`.
   */
  function Encode(x: seq<bv8>): (r: seq<bv8>)
    ensures |r| == 4 * ((|x| + 2) / 3)
  {
    if |x| == 0 then []
    else if |x| == 1 then Quad(x[0], 0, 0)[..2] + [PAD, PAD]
    else if |x| == 2 then Quad(x[0], x[1], 0)[..3] + [PAD]
    else Quad(x[0], x[1], x[2]) + Encode(x[3..])
  }

  /** The characters of a whole group are in the alphabet, none is `=`, and they decode to the three bytes. */
  lemma QuadDecodes(x0: bv8, x1: bv8, x2: bv8)
    ensures var q := Quad(x0, x1, x2);
      && AllBase64(q) && PAD !in q && GroupBytes(q) == [x0, x1, x2]
  {
    var q := Quad(x0, x1, x2);
    var a, b, c, d := x0 >> 2, ((x0 & 3) << 4) | (x1 >> 4), ((x1 & 15) << 2) | (x2 >> 6), x2 & 63;
    AlphabetSextet(a);
    AlphabetSextet(b);
    AlphabetSextet(c);
    AlphabetSextet(d);
    assert Combine(1, a, b) == x0 && Combine(2, b, c) == x1 && Combine(3, c, d) == x2;
  }

  /** A padded group decodes to its one or two bytes first; `=` stands for zero bits. */
  lemma PaddedDecodes(x0: bv8, x1: bv8)
    ensures var q := Quad(x0, 0, 0)[..2] + [PAD, PAD];
      && AllBase64(q) && PAD !in q[..2] && GroupBytes(q)[0] == x0
    ensures var q := Quad(x0, x1, 0)[..3] + [PAD];
      && AllBase64(q) && PAD !in q[..3] && GroupBytes(q)[..2] == [x0, x1]
  {
    QuadDecodes(x0, 0, 0);
    QuadDecodes(x0, x1, 0);
    assert Quad(x0, 0, 0)[2] == Alphabet(0) && Quad(x0, x1, 0)[3] == Alphabet(0);
  }

  /** `FirstPad` is the first `=`: any index before which there is none and at which there is one (or the end). */
  lemma FirstPadAt(s: seq<bv8>, k: nat)
    requires k <= |s| && (k < |s| ==> s[k] == PAD) && forall j :: 0 <= j < k ==> s[j] != PAD
    ensures FirstPad(s) == k
  {
  }

  /** Where the padding of the encoding of `n` bytes starts: after the characters that carry bits. */
  function PadStart(n: nat): nat
  {
    4 * (n / 3) + if n % 3 == 0 then 0 else n % 3 + 1
  }

  /** `e` looks like the encoding of `n` bytes: in the alphabet, whole groups, `=` exactly from `PadStart(n)`. */
  ghost predicate Shaped(e: seq<bv8>, n: nat)
  {
    && AllBase64(e) && |e| % 4 == 0 && PadStart(n) <= |e|
    && (PadStart(n) < |e| ==> e[PadStart(n)] == PAD)
    && (forall j :: 0 <= j < PadStart(n) ==> e[j] != PAD)
  }

  /** Three more bytes move the first `=` one group further. */
  lemma PadStartStep(n: nat)
    ensures PadStart(n + 3) == 4 + PadStart(n)
  {
  }

  /** Text in the alphabet followed by text in the alphabet. */
  lemma AllBase64Concat(a: seq<bv8>, b: seq<bv8>)
    requires AllBase64(a) && AllBase64(b)
    ensures AllBase64(a + b)
  {
    forall j | 0 <= j < |a + b|
      ensures IsBase64((a + b)[j])
    {
      if j >= |a| {
        assert (a + b)[j] == b[j - |a|];
      } else {
        assert (a + b)[j] == a[j];
      }
    }
  }

  /** No `=` before `k` in `a`, then none before `|a| + k` in `a + b` when `a` has none. */
  lemma NoPadBefore(a: seq<bv8>, b: seq<bv8>, k: nat)
    requires PAD !in a && k <= |b| && forall j :: 0 <= j < k ==> b[j] != PAD
    ensures forall j :: 0 <= j < |a| + k ==> (a + b)[j] != PAD
  {
    forall j | 0 <= j < |a| + k
      ensures (a + b)[j] != PAD
    {
      if j >= |a| {
        assert (a + b)[j] == b[j - |a|];
      } else {
        assert (a + b)[j] == a[j];
      }
    }
  }

  /** A whole group without `=` in front of the encoding of `n` bytes is shaped like that of `n + 3`. */
  lemma ShapedStep(q: seq<bv8>, rest: seq<bv8>, n: nat)
    requires |q| == 4 && AllBase64(q) && PAD !in q && Shaped(rest, n)
    ensures Shaped(q + rest, n + 3)
  {
    PadStartStep(n);
    AllBase64Concat(q, rest);
    NoPadBefore(q, rest, PadStart(n));
    if PadStart(n) < |rest| {
      assert (q + rest)[4 + PadStart(n)] == rest[PadStart(n)];
    }
  }

  /** The groups of a group followed by more groups. */
  lemma GroupsConcat(q: seq<bv8>, rest: seq<bv8>)
    requires |q| == 4 && AllBase64(q) && |rest| % 4 == 0 && AllBase64(rest)
    ensures |q + rest| % 4 == 0 && AllBase64(q + rest)
    ensures Groups(q + rest) == GroupBytes(q) + Groups(rest)
  {
    AllBase64Concat(q, rest);
    var e := q + rest;
    assert e[..4] == q && e[4..] == rest;
  }

  /** A byte string of three or more bytes is its first three, then the rest. */
  lemma FirstThree(x: seq<bv8>)
    requires |x| >= 3
    ensures x == [x[0], x[1], x[2]] + x[3..]
  {
  }

  /** A prefix of `g` stays a prefix behind `a`. */
  lemma PrefixBehind(a: seq<bv8>, g: seq<bv8>, xs: seq<bv8>)
    requires |xs| <= |g| && g[..|xs|] == xs
    ensures |a| + |xs| <= |a + g| && (a + g)[..|a| + |xs|] == a + xs
  {
    assert (a + g)[..|a| + |xs|] == a + g[..|xs|];
  }

  /** The encoding of one or two bytes. */
  lemma ShortEncoding(x: seq<bv8>)
    requires 1 <= |x| <= 2
    ensures Shaped(Encode(x), |x|) && |x| <= |Groups(Encode(x))| && Groups(Encode(x))[..|x|] == x
  {
    var e := Encode(x);
    PaddedDecodes(x[0], if |x| == 2 then x[1] else 0);
    assert e[..4] == e && e[4..] == [];
    assert Groups(e) == GroupBytes(e);
  }

  /** Three or more bytes: a whole group, then the encoding of the rest. */
  lemma EncodeGroup(x: seq<bv8>)
    requires |x| >= 3
    ensures Encode(x) == Quad(x[0], x[1], x[2]) + Encode(x[3..])
  {
  }

  /** The encoding is shaped like one. */
  lemma {:induction false} EncodeShaped(x: seq<bv8>)
    ensures Shaped(Encode(x), |x|)
  {
    if 1 <= |x| <= 2 {
      ShortEncoding(x);
    } else if |x| >= 3 {
      EncodeGroup(x);
      EncodeShaped(x[3..]);
      QuadDecodes(x[0], x[1], x[2]);
      ShapedStep(Quad(x[0], x[1], x[2]), Encode(x[3..]), |x| - 3);
    }
  }

  /** The groups of the encoding decode to the bytes, followed by zero bytes for the padding. */
  lemma {:induction false} EncodeGroups(x: seq<bv8>)
    ensures |Encode(x)| % 4 == 0 && AllBase64(Encode(x))
    ensures |x| <= |Groups(Encode(x))| && Groups(Encode(x))[..|x|] == x
  {
    if 1 <= |x| <= 2 {
      ShortEncoding(x);
    } else if |x| >= 3 {
      var q, rest, xs := Quad(x[0], x[1], x[2]), Encode(x[3..]), x[3..];
      EncodeGroup(x);
      EncodeGroups(xs);
      QuadDecodes(x[0], x[1], x[2]);
      GroupsConcat(q, rest);
      PrefixBehind(GroupBytes(q), Groups(rest), xs);
      FirstThree(x);
    }
  }

  /** Decoding gives back every non-empty byte string that was encoded. */
  lemma DecodeEncode(x: seq<bv8>)
    requires x != []
    ensures Decoded(Encode(x)) == Some(x)
  {
    var e := Encode(x);
    EncodeShaped(x);
    EncodeGroups(x);
    FirstPadAt(e, PadStart(|x|));
    assert ValidPrefix(e) == |e|;
    PaddingLength(|x|);
  }

  /** The padding leaves fewer than three characters, and the output length is the number of bytes. */
  lemma PaddingLength(n: nat)
    requires n > 0
    ensures 4 * ((n + 2) / 3) - PadStart(n) != 3 && OutputLength(PadStart(n)) == n
  {
  }

  /**
   * The empty string, which section 10 of RFC 4648 encodes as the empty
   * string, is refused, as is every length that is not a multiple of four.
   */
  lemma LengthsRefused(s: seq<bv8>)
    ensures Encode([]) == [] && Decoded([]) == None
    ensures |s| % 4 != 0 ==> Decoded(s) == None
  {
  }

  /** `a===`: three padding characters are refused. */
  lemma ThreePadsRefused()
    ensures Decoded([0x61, PAD, PAD, PAD]) == None
  {
    FirstPadAt([0x61, PAD, PAD, PAD], 1);
  }

  /** `?` is outside the alphabet. */
  lemma InvalidCharRefused()
    ensures Decoded([0x3F, 0x3F, 0x3F, 0x3F]) == None
  {
    assert !IsBase64(0x3F);
  }

  /** `YQ==`, `YWI=` and `YWJj` decode to `a`, `ab` and `abc`. */
  lemma ShortExamples()
    ensures Decoded([0x59, 0x51, PAD, PAD]) == Some([0x61])
    ensures Decoded([0x59, 0x57, 0x49, PAD]) == Some([0x61, 0x62])
    ensures Decoded([0x59, 0x57, 0x4A, 0x6A]) == Some([0x61, 0x62, 0x63])
  {
    EncodeShort();
    DecodeEncode([0x61]);
    DecodeEncode([0x61, 0x62]);
    DecodeEncode([0x61, 0x62, 0x63]);
  }

  lemma EncodeShort()
    ensures Encode([0x61]) == [0x59, 0x51, PAD, PAD]
    ensures Encode([0x61, 0x62]) == [0x59, 0x57, 0x49, PAD]
    ensures Encode([0x61, 0x62, 0x63]) == [0x59, 0x57, 0x4A, 0x6A]
  {
    assert [0x61, 0x62, 0x63][3..] == [];
  }

  /** A whole group of three bytes is encoded on its own, in front of the rest. */
  lemma EncodeConcat(g: seq<bv8>, rest: seq<bv8>)
    requires |g| == 3
    ensures Encode(g + rest) == Encode(g) + Encode(rest)
  {
    var x := g + rest;
    assert x[3..] == rest && g[3..] == [];
    assert x[0] == g[0] && x[1] == g[1] && x[2] == g[2];
    EncodeGroup(x);
    EncodeGroup(g);
  }

  /** `abcd`, `abcde` and `abcdef` encode to `YWJjZA==`, `YWJjZGU=` and `YWJjZGVm`. */
  lemma EncodeMedium()
    ensures Encode([0x61, 0x62, 0x63, 0x64]) == [0x59, 0x57, 0x4A, 0x6A, 0x5A, 0x41, PAD, PAD]
    ensures Encode([0x61, 0x62, 0x63, 0x64, 0x65]) == [0x59, 0x57, 0x4A, 0x6A, 0x5A, 0x47, 0x55, PAD]
    ensures Encode([0x61, 0x62, 0x63, 0x64, 0x65, 0x66]) == [0x59, 0x57, 0x4A, 0x6A, 0x5A, 0x47, 0x56, 0x6D]
  {
    var abc: seq<bv8> := [0x61, 0x62, 0x63];
    EncodeShort();
    EncodeConcat(abc, [0x64]);
    EncodeConcat(abc, [0x64, 0x65]);
    EncodeConcat(abc, [0x64, 0x65, 0x66]);
    assert Encode([0x64]) == [0x5A, 0x41, PAD, PAD];
    assert Encode([0x64, 0x65]) == [0x5A, 0x47, 0x55, PAD];
    assert Encode([0x64, 0x65, 0x66]) == [0x5A, 0x47, 0x56, 0x6D] by {
      assert [0x64, 0x65, 0x66][3..] == [];
    }
    assert abc + [0x64] == [0x61, 0x62, 0x63, 0x64];
    assert abc + [0x64, 0x65] == [0x61, 0x62, 0x63, 0x64, 0x65];
    assert abc + [0x64, 0x65, 0x66] == [0x61, 0x62, 0x63, 0x64, 0x65, 0x66];
  }

  /** `YWJjZA==`, `YWJjZGU=` and `YWJjZGVm` decode to `abcd`, `abcde` and `abcdef`. */
  lemma MediumExamples()
    ensures Decoded([0x59, 0x57, 0x4A, 0x6A, 0x5A, 0x41, PAD, PAD]) == Some([0x61, 0x62, 0x63, 0x64])
    ensures Decoded([0x59, 0x57, 0x4A, 0x6A, 0x5A, 0x47, 0x55, PAD]) == Some([0x61, 0x62, 0x63, 0x64, 0x65])
    ensures Decoded([0x59, 0x57, 0x4A, 0x6A, 0x5A, 0x47, 0x56, 0x6D]) == Some([0x61, 0x62, 0x63, 0x64, 0x65, 0x66])
  {
    EncodeMedium();
    DecodeEncode([0x61, 0x62, 0x63, 0x64]);
    DecodeEncode([0x61, 0x62, 0x63, 0x64, 0x65]);
    DecodeEncode([0x61, 0x62, 0x63, 0x64, 0x65, 0x66]);
  }
}
