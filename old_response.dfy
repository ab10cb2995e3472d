/**
 * The older response builder (src/old/http/response.rs): a `ResponseBuffer`
 * of 4096 bytes implementing `Write`, a `BufferResponse` that writes the
 * status line and header fields into it, a `Body` that counts the bytes
 * written after the empty line, and the `FinishedBufferResponse` that is
 * sent.
 */
module OldHttpResponses {
  import opened Wrappers
  import opened Bytes
  import opened HttpResponses
  import opened Arith

  /** What `write_all` can fail with here: `WriteZero`, once the buffer is full. */
  datatype WriteError = WriteZero

  /** `ResponseBuffer`: a fixed buffer and the offset of the first free byte. */
  class ResponseBuffer {
    const buffer: array<byte>
    var writeOffset: nat

    ghost predicate Valid()
      reads this
    {
      buffer.Length == BufferSize && writeOffset <= BufferSize
    }

    /** `as_slice`: the bytes written so far. */
    function Contents(): (r: seq<byte>)
      reads this, buffer
      requires Valid()
      ensures |r| == writeOffset
    {
      buffer[..writeOffset]
    }

    /** `len`: the room left, `4096 - write_offset`, not the number of bytes written. */
    function Len(): (r: nat)
      reads this
      requires Valid()
      ensures r + writeOffset == BufferSize
    {
      buffer.Length - writeOffset
    }

    /** `new`: a zeroed buffer with nothing written. */
    constructor ()
      ensures Valid() && fresh(buffer) && Contents() == [] && Len() == BufferSize
    {
      buffer := new byte[BufferSize](_ => 0);
      writeOffset := 0;
    }

    /** `as_slice`. */
    method AsSlice() returns (s: seq<byte>)
      requires Valid()
      ensures s == Contents()
    {
      s := buffer[..writeOffset];
    }

    /**
     * `write`: writing into `buffer[write_offset..]` copies as much of `src`
     * as fits, which is none once the buffer is full, and moves
     * `write_offset` past it; it never fails.
     */
    method Write(src: seq<byte>) returns (n: nat)
      requires Valid()
      modifies this, buffer
      ensures Valid() && n == Min(|src|, old(Len()))
      ensures n <= |src| && Contents() == old(Contents()) + src[..n]
      ensures buffer[writeOffset..] == old(buffer[..])[writeOffset..]
    {
      n := Min(|src|, buffer.Length - writeOffset);
      forall i | 0 <= i < n {
        buffer[writeOffset + i] := src[i];
      }
      writeOffset := writeOffset + n;
    }

    /**
     * `write_all`, which `write!` calls: `write` until everything is
     * written, failing with `WriteZero` when `write` makes no progress. The
     * text that fits is written even when the call fails.
     */
    method WriteAll(text: seq<byte>) returns (r: Result<(), WriteError>)
      requires Valid()
      modifies this, buffer
      ensures Valid()
      ensures r.Ok? <==> |text| <= old(Len())
      ensures Contents() == old(Contents()) + text[..Min(|text|, old(Len()))]
    {
      var rest := text;
      ghost var written := 0;
      while rest != []
        invariant Valid() && written <= |text| && rest == text[written..]
        invariant written <= old(Len()) && writeOffset == old(writeOffset) + written
        invariant Contents() == old(Contents()) + text[..written]
        decreases |rest|
      {
        var n := Write(rest);
        if n == 0 {
          return Err(WriteZero);
        }
        assert text[..written + n] == text[..written] + rest[..n];
        rest := rest[n..];
        written := written + n;
      }
      return Ok(());
    }

    /** `write!(..).unwrap()`: the text must fit, or the call panics. */
    method WriteText(text: seq<byte>)
      requires Valid() && |text| <= Len()
      modifies this, buffer
      ensures Valid() && Contents() == old(Contents()) + text
    {
      var r := WriteAll(text);
      assert text[..Min(|text|, old(Len()))] == text;
    }
  }

  /** `BufferResponse`: a response whose status line has been written. */
  class BufferResponse {
    const buffer: ResponseBuffer

    ghost predicate Valid()
      reads this, buffer
    {
      buffer.Valid()
    }

    /** `new`: the status line `HTTP/1.1 <status> <description>`; a line that does not fit panics. */
    constructor (status: u16, description: seq<byte>)
      requires |StatusLine(status, description)| <= BufferSize
      ensures Valid() && fresh(buffer) && fresh(buffer.buffer)
      ensures buffer.Contents() == StatusLine(status, description)
    {
      var b := new ResponseBuffer();
      b.WriteText(StatusLine(status, description));
      buffer := b;
    }

    /** `set_header`: appends `\r\n<name>:<value>`. */
    method SetHeader(name: seq<byte>, value: seq<byte>)
      requires Valid() && |HeaderLine(name, value)| <= buffer.Len()
      modifies buffer, buffer.buffer
      ensures Valid() && buffer.Contents() == old(buffer.Contents()) + HeaderLine(name, value)
    {
      buffer.WriteText(HeaderLine(name, value));
    }

    /** `into_body`: appends the empty line and hands the buffer to a `Body`. */
    method IntoBody() returns (body: Body)
      requires Valid() && |CRLF + CRLF| <= buffer.Len()
      modifies buffer, buffer.buffer
      ensures fresh(body) && body.Valid() && body.buffer == buffer && body.written == []
      ensures body.head == old(buffer.Contents()) + CRLF + CRLF
    {
      buffer.WriteText(CRLF + CRLF);
      body := new Body(buffer);
    }
  }

  /** `BufferResponse::ok`: `200 OK`. */
  method OkResponse() returns (r: BufferResponse)
    ensures r.Valid() && fresh(r.buffer) && r.buffer.Contents() == StatusLine(200, [0x4F, 0x4B])
  {
    r := new BufferResponse(200, [0x4F, 0x4B]);
  }

  /** `Bad request` */
  const BadRequestText: seq<byte> := [0x42, 0x61, 0x64, 0x20, 0x72, 0x65, 0x71, 0x75, 0x65, 0x73, 0x74]

  /** `Internal server error` */
  const InternalServerErrorText: seq<byte> :=
    [0x49, 0x6E, 0x74, 0x65, 0x72, 0x6E, 0x61, 0x6C, 0x20, 0x73, 0x65, 0x72, 0x76, 0x65, 0x72, 0x20, 0x65, 0x72, 0x72, 0x6F, 0x72]

  /** `BufferResponse::bad_request`: `400 Bad request`. */
  method BadRequest() returns (r: BufferResponse)
    ensures r.Valid() && fresh(r.buffer) && r.buffer.Contents() == StatusLine(400, BadRequestText)
  {
    r := new BufferResponse(400, BadRequestText);
  }

  /** `BufferResponse::internal_server_error`: `500 Internal server error`. */
  method InternalServerError() returns (r: BufferResponse)
    ensures r.Valid() && fresh(r.buffer) && r.buffer.Contents() == StatusLine(500, InternalServerErrorText)
  {
    r := new BufferResponse(500, InternalServerErrorText);
  }

  /**
   * `Body`: the buffer after the empty line, and `len_before_body`, the room
   * that was left when the body started. `head` and `written` are what was
   * written before and after that point.
   */
  class Body {
    const buffer: ResponseBuffer
    const lenBeforeBody: nat
    ghost const head: seq<byte>
    ghost var written: seq<byte>

    ghost predicate Valid()
      reads this, buffer, buffer.buffer
    {
      && buffer.Valid()
      && buffer.Contents() == head + written
      && lenBeforeBody == BufferSize - |head|
    }

    /** `Body::new`: remembers `buffer.len()`. */
    constructor (b: ResponseBuffer)
      requires b.Valid()
      ensures Valid() && buffer == b && head == b.Contents() && written == []
    {
      buffer := b;
      lenBeforeBody := b.Len();
      head := b.Contents();
      written := [];
    }

    /** `write`: forwarded to the buffer; the bytes that fit become part of the body. */
    method Write(src: seq<byte>) returns (n: nat)
      requires Valid()
      modifies this, buffer, buffer.buffer
      ensures Valid() && n <= |src| && written == old(written) + src[..n]
      ensures n == Min(|src|, old(buffer.Len()))
    {
      n := buffer.Write(src);
      written := written + src[..n];
    }

    /**
     * `finish`: the Content-Length it reports, `len_before_body -
     * buffer.len()`, is the number of body bytes written; the response is
     * the head followed by the body.
     */
    method Finish() returns (response: FinishedBufferResponse, contentLength: int)
      requires Valid()
      ensures contentLength == |written|
      ensures response.buffer == buffer && response.Valid()
      ensures response.buffer.Contents() == head + written
    {
      contentLength := lenBeforeBody - buffer.Len();
      response := new FinishedBufferResponse(buffer);
    }
  }

  /** `FinishedBufferResponse`: the response to send. */
  class FinishedBufferResponse {
    const buffer: ResponseBuffer

    ghost predicate Valid()
      reads this, buffer
    {
      buffer.Valid()
    }

    constructor (b: ResponseBuffer)
      requires b.Valid()
      ensures Valid() && buffer == b
    {
      buffer := b;
    }

    /** `as_slice`: everything written. */
    method AsSlice() returns (s: seq<byte>)
      requires Valid()
      ensures s == buffer.Contents()
    {
      s := buffer.AsSlice();
    }
  }
}
