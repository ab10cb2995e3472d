/**
 * The examples that come with the first request parser (src/headers.rs),
 * stated on its specification functions.
 */
module HeadersExamples {
  import opened Wrappers
  import opened Bytes
  import opened Headers

  /** A word followed by spaces and then the words of the rest. */
  lemma WordThenSpaces(x: seq<byte>, n: nat, rest: seq<byte>)
    requires x != [] && SPACE !in x && n > 0
    ensures Words(x + Spaces(n) + rest) == [x] + Words(rest)
  {
    LeadingSpaces(n - 1, rest);
    assert x + Spaces(n) + rest == x + [SPACE] + (Spaces(n - 1) + rest);
    WordsAfter(x, Spaces(n - 1) + rest);
  }

  function Spaces(n: nat): (r: seq<byte>)
    ensures |r| == n && forall i :: 0 <= i < n ==> r[i] == SPACE
  {
    if n == 0 then [] else [SPACE] + Spaces(n - 1)
  }

  /** Spaces before the first word make no words of their own. */
  lemma {:induction false} LeadingSpaces(n: nat, rest: seq<byte>)
    ensures Words(Spaces(n) + rest) == Words(rest)
  {
    if n > 0 {
      assert Spaces(n) + rest == [] + [SPACE] + (Spaces(n - 1) + rest);
      WordsAfter([], Spaces(n - 1) + rest);
      LeadingSpaces(n - 1, rest);
    } else {
      assert Spaces(n) + rest == rest;
    }
  }

  lemma Regroup(a: seq<byte>, b: seq<byte>, c: seq<byte>, d: seq<byte>, e: seq<byte>)
    ensures a + b + c + d + e == a + b + (c + d + e)
  {
  }

  /** Three words however many spaces stand between them. */
  lemma ThreeWords(x: seq<byte>, m: nat, y: seq<byte>, n: nat, z: seq<byte>)
    requires x != [] && y != [] && z != [] && m > 0 && n > 0
    requires SPACE !in x && SPACE !in y && SPACE !in z
    ensures Words(x + Spaces(m) + y + Spaces(n) + z) == [x, y, z]
  {
    WordsOfWord(z);
    WordThenSpaces(y, n, z);
    Regroup(x, Spaces(m), y, Spaces(n), z);
    WordThenSpaces(x, m, y + Spaces(n) + z);
  }

  const Get: seq<byte> := [0x47, 0x45, 0x54]
  const GetLower: seq<byte> := [0x67, 0x65, 0x74]
  const Foo: seq<byte> := [0x2F, 0x66, 0x6F, 0x6F]
  const Http11: seq<byte> := [0x48, 0x54, 0x54, 0x50, 0x2F, 0x31, 0x2E, 0x31]

  /**
   * `GET  /foo   HTTP/1.1` is accepted: method `GET`, URI `/foo` and
   * version `1.1`.
   */
  lemma RequestLineExample()
    ensures AcceptsRequestLine(Get + Spaces(2) + Foo + Spaces(3) + Http11)
    ensures Words(Get + Spaces(2) + Foo + Spaces(3) + Http11) == [Get, Foo, Http11]
    ensures UpperAll(Get) == Get && Http11[5..] == [0x31, 0x2E, 0x31]
  {
    ThreeWords(Get, 2, Foo, 3, Http11);
  }

  /** `get /foo HTTP/1.1` is accepted and its method uppercased to `GET`. */
  lemma LowercaseMethodExample()
    ensures Words(GetLower + Spaces(1) + Foo + Spaces(1) + Http11) == [GetLower, Foo, Http11]
    ensures AcceptsRequestLine(GetLower + Spaces(1) + Foo + Spaces(1) + Http11)
    ensures UpperAll(GetLower) == Get
  {
    ThreeWords(GetLower, 1, Foo, 1, Http11);
  }

  /** The first `b` of a text stands right after a prefix without one. */
  lemma IndexOfAfter(pre: seq<byte>, b: byte, rest: seq<byte>)
    requires b !in pre
    ensures IndexOf(pre + [b] + rest, b) == Some(|pre|)
  {
    var s := pre + [b] + rest;
    assert s[|pre|] == b && s[..|pre|] == pre;
  }

  /** A name without `-` whose second byte starts a character can be Title-Cased. */
  lemma OneWordIsSafe(w: seq<byte>)
    requires HYPHEN !in w && (|w| > 1 ==> !Tail(w[1]))
    ensures SafeStrWords(w)
  {
    forall i | 0 <= i < |w| && WordStart(w, i)
      ensures w[i] != HYPHEN && (i + 1 < |w| ==> !Tail(w[i + 1]))
    {
    }
  }

  const AcceptName: seq<byte> := [0x61, 0x43, 0x43, 0x45, 0x50, 0x54, 0x20]
  const Accept: seq<byte> := [0x41, 0x63, 0x63, 0x65, 0x70, 0x74]
  const AcceptTitled: seq<byte> := [0x41, 0x63, 0x63, 0x65, 0x70, 0x74, 0x20]
  const TextPlain: seq<byte> := [0x74, 0x65, 0x78, 0x74, 0x2F, 0x70, 0x6C, 0x61, 0x69, 0x6E]

  lemma AcceptWordExample()
    ensures TitleCased(AcceptName) == AcceptTitled
  {
    TitleCasedWord(AcceptName);
    assert LowerAll(AcceptName[1..]) == AcceptTitled[1..];
  }

  /** `aCCEPT : text/plain`: the colon at 7 and a name that can be Title-Cased. */
  lemma AcceptLineExample()
    ensures IndexOf(AcceptName + [COLON, SPACE] + TextPlain, COLON) == Some(7)
    ensures SafeStrWords(AcceptName)
  {
    assert COLON !in AcceptName && HYPHEN !in AcceptName;
    IndexOfAfter(AcceptName, COLON, [SPACE] + TextPlain);
    assert AcceptName + [COLON] + ([SPACE] + TextPlain) == AcceptName + [COLON, SPACE] + TextPlain;
    OneWordIsSafe(AcceptName);
  }

  /** `aCCEPT : text/plain`: the name is `Accept`. */
  lemma AcceptNameExample()
    ensures StrTrim(TitleCased(AcceptName)) == Accept
  {
    AcceptWordExample();
    StrTrimKeepsMiddle([], Accept, [SPACE]);
    assert [] + Accept + [SPACE] == AcceptTitled;
  }

  /** `aCCEPT : text/plain`: the value is `text/plain`. */
  lemma TextPlainValueExample()
    ensures StrTrim([SPACE] + TextPlain) == TextPlain
  {
    StrTrimKeepsMiddle([SPACE], TextPlain, []);
    assert [SPACE] + TextPlain + [] == [SPACE] + TextPlain;
  }

  const Content: seq<byte> := [0x43, 0x4F, 0x4E, 0x54, 0x45, 0x4E, 0x54]
  const TypeWord: seq<byte> := [0x74, 0x79, 0x70, 0x65]

  const ContentTitled: seq<byte> := [0x43, 0x6F, 0x6E, 0x74, 0x65, 0x6E, 0x74]
  const TypeTitled: seq<byte> := [0x54, 0x79, 0x70, 0x65]

  lemma ContentWordExample()
    ensures TitleCased(Content) == ContentTitled
  {
    TitleCasedWord(Content);
    assert LowerAll(Content[1..]) == ContentTitled[1..];
  }

  lemma TypeWordExample()
    ensures TitleCased(TypeWord) == TypeTitled
  {
    TitleCasedWord(TypeWord);
    assert LowerAll(TypeWord[1..]) == TypeTitled[1..];
  }

  /** `CONTENT-type` can be Title-Cased, to `Content-Type`. */
  lemma ContentTypeExample()
    ensures SafeStrWords(Content + [HYPHEN] + TypeWord)
    ensures TitleCased(Content + [HYPHEN] + TypeWord) == ContentTitled + [HYPHEN] + TypeTitled
  {
    var s := Content + [HYPHEN] + TypeWord;
    forall i | 0 <= i < |s| && WordStart(s, i)
      ensures s[i] != HYPHEN && (i + 1 < |s| ==> !Tail(s[i + 1]))
    {
      assert i == 0 || i == 8;
    }
    TitleCasedWords(Content, TypeWord);
    ContentWordExample();
    TypeWordExample();
  }
}
