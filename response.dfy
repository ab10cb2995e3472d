/**
 * `BufferResponse` (src/http/response.rs): an HTTP response written into a
 * fixed buffer of 4096 bytes. Each write appends formatted text at
 * `write_offset` and moves it past the text; the status line and header
 * fields follow section 3.1.2 and section 3.2 of RFC 7230, and the empty
 * line before the body follows section 3 of RFC 7230.
 */
module HttpResponses {
  import opened Wrappers
  import opened Bytes
  import opened Arith
  import HttpHeaders
  import HeaderBodySplitter

  /** The size of the buffer a response is written into. */
  const BufferSize: nat := 4096


  const CR: byte := 0x0D
  const LF: byte := 0x0A
  const SP: byte := 0x20
  const COLON: byte := 0x3A
  const CRLF: seq<byte> := [CR, LF]

  /** `HTTP/1.1 ` */
  const VersionPrefix: seq<byte> := [0x48, 0x54, 0x54, 0x50, 0x2F, 0x31, 0x2E, 0x31, SP]

  /** The text of `"HTTP/1.1 {} {}"`: the status in decimal, then the description. */
  function StatusLine(status: u16, description: seq<byte>): seq<byte>
  {
    VersionPrefix + HttpHeaders.Decimal(status) + [SP] + description
  }

  /** The text of `"\r\n{}:{}"`. */
  function HeaderLine(name: seq<byte>, value: seq<byte>): seq<byte>
  {
    CRLF + name + [COLON] + value
  }

  /** The text of `"\r\n\r\n{}"`. */
  function BodyText(body: seq<byte>): seq<byte>
  {
    CRLF + CRLF + body
  }

  /** A response written into a buffer of `BufferSize` bytes, up to `writeOffset`. */
  class BufferResponse {
    const buffer: array<byte>
    var writeOffset: nat

    ghost predicate Valid()
      reads this
    {
      buffer.Length == BufferSize && writeOffset <= BufferSize
    }

    /** `as_slice`: what has been written so far. */
    function Contents(): (r: seq<byte>)
      reads this, buffer
      requires Valid()
      ensures |r| == writeOffset
    {
      buffer[..writeOffset]
    }

    /** `new`: a zeroed buffer with nothing written. */
    constructor ()
      ensures Valid() && fresh(buffer) && Contents() == []
    {
      buffer := new byte[BufferSize](_ => 0);
      writeOffset := 0;
    }

    /** `as_slice`. */
    method AsSlice() returns (s: seq<byte>)
      requires Valid()
      ensures s == Contents()
    {
      s := buffer[..writeOffset];
    }

    /**
     * `write!` into `buffer[write_offset..]`, then `write_offset` moved
     * past the text. Text that does not fit makes `unwrap` panic.
     */
    method Append(text: seq<byte>)
      requires Valid() && writeOffset + |text| <= BufferSize
      modifies this, buffer
      ensures Valid() && writeOffset == old(writeOffset) + |text|
      ensures Contents() == old(Contents()) + text
      ensures buffer[writeOffset..] == old(buffer[..])[writeOffset..]
    {
      forall i | 0 <= i < |text| {
        buffer[writeOffset + i] := text[i];
      }
      writeOffset := writeOffset + |text|;
    }

    /** `write_head`. */
    method WriteHead(status: u16, description: seq<byte>)
      requires Valid() && writeOffset + |StatusLine(status, description)| <= BufferSize
      modifies this, buffer
      ensures Valid() && Contents() == old(Contents()) + StatusLine(status, description)
    {
      Append(StatusLine(status, description));
    }

    /** `write_header`. */
    method WriteHeader(name: seq<byte>, value: seq<byte>)
      requires Valid() && writeOffset + |HeaderLine(name, value)| <= BufferSize
      modifies this, buffer
      ensures Valid() && Contents() == old(Contents()) + HeaderLine(name, value)
    {
      Append(HeaderLine(name, value));
    }

    /** `write_body_str`. */
    method WriteBodyStr(body: seq<byte>)
      requires Valid() && writeOffset + |BodyText(body)| <= BufferSize
      modifies this, buffer
      ensures Valid() && Contents() == old(Contents()) + BodyText(body)
    {
      Append(BodyText(body));
    }
  }

  /** A header field as the server writes it: its name and value. */
  datatype Field = Field(name: seq<byte>, value: seq<byte>)

  /** The header lines of `fields`, in order. */
  function HeaderLines(fields: seq<Field>): seq<byte>
  {
    if fields == [] then []
    else HeaderLines(fields[..|fields| - 1]) + HeaderLine(fields[|fields| - 1].name, fields[|fields| - 1].value)
  }

  /** The status line and the header lines: what `write_head` and `write_header` write. */
  function Head(status: u16, description: seq<byte>, fields: seq<Field>): seq<byte>
  {
    StatusLine(status, description) + HeaderLines(fields)
  }

  /** A whole response: `write_head`, one `write_header` per field, then `write_body_str`. */
  function ResponseText(status: u16, description: seq<byte>, fields: seq<Field>, body: seq<byte>): seq<byte>
  {
    Head(status, description, fields) + BodyText(body)
  }

  /** The texts a caller passes hold no CR. */
  predicate NoCR(fields: seq<Field>)
  {
    forall k :: 0 <= k < |fields| ==> CR !in fields[k].name && CR !in fields[k].value
  }

  /**
   * Every CR of `h` is followed by LF and then by a byte other than CR, so
   * CR LF CR LF cannot start anywhere in `h`.
   */
  ghost predicate CRsFollowed(h: seq<byte>)
  {
    forall j {:trigger h[j]} :: 0 <= j < |h| && h[j] == CR ==> j + 2 < |h| && h[j + 1] == LF && h[j + 2] != CR
  }

  /** Text without CR has none to follow. */
  lemma NoCRFollowed(h: seq<byte>)
    requires CR !in h
    ensures CRsFollowed(h)
  {
    forall j | 0 <= j < |h|
      ensures h[j] != CR
    {
      assert h[j] in h;
    }
  }

  /** The property survives concatenation. */
  lemma FollowedConcat(a: seq<byte>, b: seq<byte>)
    requires CRsFollowed(a) && CRsFollowed(b)
    ensures CRsFollowed(a + b)
  {
    var h := a + b;
    forall j | 0 <= j < |h| && h[j] == CR
      ensures j + 2 < |h| && h[j + 1] == LF && h[j + 2] != CR
    {
      if j < |a| {
        assert a[j] == h[j];
        assert h[j + 1] == a[j + 1] && h[j + 2] == a[j + 2];
      } else {
        assert b[j - |a|] == h[j];
        assert h[j + 1] == b[j + 1 - |a|] && h[j + 2] == b[j + 2 - |a|];
      }
    }
  }

  /** A status line whose description has no CR has no CR at all. */
  lemma StatusLineFollowed(status: u16, description: seq<byte>)
    requires CR !in description
    ensures CRsFollowed(StatusLine(status, description))
  {
    var d := HttpHeaders.Decimal(status);
    var h := StatusLine(status, description);
    forall j | 0 <= j < |h|
      ensures h[j] != CR
    {
      if j < |VersionPrefix| {
        assert h[j] == VersionPrefix[j];
      } else if j < |VersionPrefix| + |d| {
        assert h[j] == d[j - |VersionPrefix|];
        assert HttpHeaders.IsDigit(d[j - |VersionPrefix|]);
      } else if j == |VersionPrefix| + |d| {
        assert h[j] == SP;
      } else {
        assert h[j] == description[j - |VersionPrefix| - |d| - 1];
      }
    }
    assert CR !in h;
    NoCRFollowed(h);
  }

  /** A header line's only CR starts it, followed by LF and then the name or `:`. */
  lemma HeaderLineFollowed(name: seq<byte>, value: seq<byte>)
    requires CR !in name && CR !in value
    ensures CRsFollowed(HeaderLine(name, value))
  {
    var h := HeaderLine(name, value);
    var rest := name + [COLON] + value;
    assert h == CRLF + rest;
    forall j | 2 <= j < |h|
      ensures h[j] != CR
    {
      assert h[j] == rest[j - 2];
      if j - 2 < |name| {
        assert rest[j - 2] == name[j - 2];
        assert name[j - 2] in name;
      } else if j - 2 > |name| {
        assert rest[j - 2] == value[j - 3 - |name|];
        assert value[j - 3 - |name|] in value;
      }
    }
    if name != [] {
      assert h[2] == name[0];
    } else {
      assert h[2] == COLON;
    }
  }

  /** The header lines of fields without CR keep every CR followed. */
  lemma {:induction false} HeaderLinesFollowed(fields: seq<Field>)
    requires NoCR(fields)
    ensures CRsFollowed(HeaderLines(fields))
  {
    if fields == [] {
      NoCRFollowed([]);
    } else {
      var init, last := fields[..|fields| - 1], fields[|fields| - 1];
      assert NoCR(init) by {
        forall k | 0 <= k < |init|
          ensures CR !in init[k].name && CR !in init[k].value
        {
          assert init[k] == fields[k];
        }
      }
      HeaderLinesFollowed(init);
      HeaderLineFollowed(last.name, last.value);
      FollowedConcat(HeaderLines(init), HeaderLine(last.name, last.value));
    }
  }

  /** CR LF CR LF cannot start inside text whose every CR is followed. */
  lemma NoEndInside(h: seq<byte>, tail: seq<byte>, j: nat)
    requires CRsFollowed(h) && j < |h|
    ensures !MatchesAt(h + tail, HeaderBodySplitter.HeaderEnd, j)
  {
    var s := h + tail;
    assert s[j] == h[j];
    if h[j] == CR {
      assert s[j + 2] == h[j + 2];
    }
  }

  /**
   * The response the server writes reads back through the server's own
   * header/body splitter: when the description, header names and values
   * hold no CR, the first CR LF CR LF is the one `write_body_str` writes,
   * so the head is everything before it and the body everything after.
   */
  lemma ResponseSplits(status: u16, description: seq<byte>, fields: seq<Field>, body: seq<byte>)
    requires CR !in description && NoCR(fields)
    ensures var text, head := ResponseText(status, description, fields, body), Head(status, description, fields);
      && HeaderBodySplitter.SplitFrom(text, 0) == Some(|head|)
      && text[..|head|] == head && text[|head| + 4..] == body
  {
    var head := Head(status, description, fields);
    StatusLineFollowed(status, description);
    HeaderLinesFollowed(fields);
    FollowedConcat(StatusLine(status, description), HeaderLines(fields));
    FirstEndAt(head, body);
    assert ResponseText(status, description, fields, body) == head + HeaderBodySplitter.HeaderEnd + body;
  }

  /** The splitter finds the CR LF CR LF that follows text whose every CR is followed. */
  lemma FirstEndAt(head: seq<byte>, body: seq<byte>)
    requires CRsFollowed(head)
    ensures var text := head + HeaderBodySplitter.HeaderEnd + body;
      && HeaderBodySplitter.SplitFrom(text, 0) == Some(|head|)
      && text[..|head|] == head && text[|head| + 4..] == body
  {
    var text := head + HeaderBodySplitter.HeaderEnd + body;
    assert text[|head|..|head| + 4] == HeaderBodySplitter.HeaderEnd;
    assert MatchesAt(text, HeaderBodySplitter.HeaderEnd, |head|);
    forall j | 0 <= j < |head|
      ensures !MatchesAt(text, HeaderBodySplitter.HeaderEnd, j)
    {
      assert text == head + (HeaderBodySplitter.HeaderEnd + body);
      NoEndInside(head, HeaderBodySplitter.HeaderEnd + body, j);
    }
    var r := HeaderBodySplitter.SplitFrom(text, 0);
    assert r.Some?;
    assert r.value == |head|;
  }

  /** The status line of `200 OK` is `HTTP/1.1 200 OK`. */
  lemma StatusLineExample()
    ensures StatusLine(200, [0x4F, 0x4B]) == VersionPrefix + [0x32, 0x30, 0x30, SP, 0x4F, 0x4B]
  {
    assert HttpHeaders.Decimal(200) == [0x32, 0x30, 0x30];
  }
}
