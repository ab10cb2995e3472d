/**
 * The connection handlers that write a response out
 * (src/io/handlers/buffer.rs, src/io/handlers/buffer/writer.rs and
 * src/io/handlers/file.rs). Each is called on the events of its
 * connection, sends what remains of its bytes to a non-blocking socket,
 * and returns `None` while it is not done and `Some` once it is.
 *
 * Sockets are those of `SocketIo`; the kernel's answers to the file
 * reader's submissions and completions are parameters.
 */
module Handlers {
  import opened Wrappers
  import opened Bytes
  import opened SocketIo
  import opened ReadRanges
  import FileSource

  /**
   * `BufferResponder`: sends a buffer to the socket of the context,
   * remembering how much went out in earlier calls.
   */
  class BufferResponder {
    const buffer: seq<byte>
    var bytesWritten: nat

    ghost predicate Valid()
      reads this
    {
      bytesWritten <= |buffer|
    }

    /** `BufferResponder::new`: nothing written yet. */
    constructor(buffer: seq<byte>)
      ensures Valid() && this.buffer == buffer && bytesWritten == 0
    {
      this.buffer := buffer;
      bytesWritten := 0;
    }

    /**
     * `handle_event`: an event of another source changes nothing.
     * Otherwise the unsent bytes `buffer[bytesWritten..]` are sent; a
     * partial send is counted and the handler goes on, a complete one
     * finishes with the whole length, and a send error finishes with the
     * count of the earlier calls (bytes written before the error in this
     * call are not counted). Nothing sent (also when nothing remains)
     * goes on.
     */
    method HandleEvent(fromSocket: bool, socket: Socket) returns (r: Option<nat>)
      requires Valid()
      modifies this, socket
      ensures Valid()
      ensures !fromSocket ==> r.None? && bytesWritten == old(bytesWritten) && unchanged(socket)
      ensures fromSocket ==>
        var rest := buffer[old(bytesWritten)..];
        var run := Send(old(socket.writes), |rest|);
        && socket.sent == old(socket.sent) + rest[..run.written]
        && (run.stop == Failed ==> r == Some(old(bytesWritten)) && bytesWritten == old(bytesWritten))
        && (run.stop != Failed && run.written == |rest| > 0 ==>
              r == Some(|buffer|) && bytesWritten == old(bytesWritten))
        && (run.stop != Failed && !(run.written == |rest| > 0) ==>
              r.None? && bytesWritten == old(bytesWritten) + run.written)
    {
      if !fromSocket {
        return None;
      }
      var rest := buffer[bytesWritten..];
      var report := SendBufferReport(socket, rest);
      match report {
        case Ok(Partial(n)) =>
          bytesWritten := bytesWritten + n;
          r := None;
        case Ok(Complete(n)) =>
          r := Some(bytesWritten + n);
        case Ok(Empty) =>
          r := None;
        case Err(_) =>
          r := Some(bytesWritten);
      }
    }
  }

  /**
   * `BufferWriter`: sends a buffer to a writer of its own whenever that
   * writer becomes writable.
   */
  class BufferWriter {
    const buffer: seq<byte>
    const writer: Socket
    var bytesWritten: nat

    ghost predicate Valid()
      reads this
    {
      bytesWritten <= |buffer|
    }

    /** `BufferWriter::new`: nothing written yet. */
    constructor(buffer: seq<byte>, writer: Socket)
      ensures Valid() && this.buffer == buffer && this.writer == writer && bytesWritten == 0
    {
      this.buffer := buffer;
      this.writer := writer;
      bytesWritten := 0;
    }

    /**
     * `writable`: sends `buffer[bytesWritten..]`. When the writer would
     * block, the bytes it took are counted and the handler goes on; when
     * all went out, every byte is counted and it is done; after an error
     * it is done with the count unchanged.
     */
    method Writable() returns (r: Option<()>)
      requires Valid()
      modifies this, writer
      ensures Valid()
      ensures var rest := buffer[old(bytesWritten)..];
        var run := Send(old(writer.writes), |rest|);
        && writer.sent == old(writer.sent) + rest[..run.written]
        && (run.stop == Blocked ==> r.None? && bytesWritten == old(bytesWritten) + run.written)
        && (run.stop == Done ==> r == Some(()) && bytesWritten == |buffer|)
        && (run.stop == Failed ==> r == Some(()) && bytesWritten == old(bytesWritten))
    {
      var rest := buffer[bytesWritten..];
      var result := SendBuffer(writer, rest);
      match result {
        case WouldBlockAfter(n) =>
          bytesWritten := bytesWritten + n;
          r := None;
        case Consumed =>
          bytesWritten := bytesWritten + |rest|;
          r := Some(());
        case IoError =>
          r := Some(());
      }
    }
  }

  /** A readiness event: the token it was registered with, and whether it says writable. */
  datatype Event = Event(token: nat, writable: bool)

  /**
   * `FileResponder`: sends the bytes of a file reader to a socket, one
   * finished read at a time.
   */
  class FileResponder {
    const reader: FileSource.Reader
    const socket: Socket
    const readerToken: nat
    const socketToken: nat
    var totalBytesSent: nat
    var bufferBytesSent: nat
    var socketWriteable: bool

    ghost predicate Valid()
      reads this, reader
    {
      reader.Valid()
    }

    /**
     * The slice `&buffer[buffer_bytes_sent..]` does not panic: the bytes
     * the reader would hand out are at least as many as were already sent.
     */
    ghost predicate CanSlice(completion: Result<(), FileSource.IoError>)
      reads this, reader
      requires Valid()
    {
      var got := FileSource.GetReadBytes(reader.state, reader.file, completion).1;
      got.Ok? ==> bufferBytesSent <= |got.value|
    }

    constructor(socket: Socket, reader: FileSource.Reader, socketToken: nat, readerToken: nat)
      ensures this.socket == socket && this.reader == reader
      ensures this.socketToken == socketToken && this.readerToken == readerToken
      ensures totalBytesSent == 0 && bufferBytesSent == 0 && socketWriteable
    {
      this.socket := socket;
      this.reader := reader;
      this.socketToken := socketToken;
      this.readerToken := readerToken;
      totalBytesSent := 0;
      bufferBytesSent := 0;
      socketWriteable := true;
    }

    /**
     * `FileResponder::start`: queues the first read; if that fails its
     * error is returned, otherwise a responder with both counters 0 and
     * the socket taken as writable.
     */
    static method Start(socket: Socket, reader: FileSource.Reader, socketToken: nat, readerToken: nat,
                        submit: Result<(), FileSource.IoError>)
      returns (r: Result<FileResponder, FileSource.IoError>)
      requires reader.Valid()
      modifies reader
      ensures reader.Valid()
      ensures var (state, queued) := old(FileSource.QueueRead(reader.state, reader.file, submit));
        && reader.state == state
        && (r.Err? <==> queued.Err?)
        && (r.Err? ==> r.error == queued.error)
      ensures r.Ok? ==>
        && fresh(r.value) && r.value.Valid()
        && r.value.reader == reader && r.value.socket == socket
        && r.value.socketToken == socketToken && r.value.readerToken == readerToken
        && r.value.totalBytesSent == 0 && r.value.bufferBytesSent == 0 && r.value.socketWriteable
    {
      var queued := reader.TryQueueRead(submit);
      if queued.Err? {
        return Err(queued.error);
      }
      var responder := new FileResponder(socket, reader, socketToken, readerToken);
      r := Ok(responder);
    }

    /**
     * `send_and_request_data`: takes the reader's bytes, if it has any,
     * and sends those after `bufferBytesSent`. Would-block counts what
     * went out and marks the socket not writable; an error finishes.
     * Once a buffer went out whole the next read is queued, and the
     * responder then finishes unless the reader reports its end. The total
     * is never increased, and the count into the buffer is never reset.
     */
    method SendAndRequestData(completion: Result<(), FileSource.IoError>, submit: Result<(), FileSource.IoError>)
      returns (r: Option<nat>)
      requires Valid() && CanSlice(completion)
      modifies this, reader, socket
      ensures Valid() && totalBytesSent == old(totalBytesSent)
      ensures Responded(old(reader.state), reader.file, old(socket.writes), old(bufferBytesSent), old(socketWriteable),
                        completion, submit, reader.state, old(socket.sent), socket.sent, bufferBytesSent, socketWriteable,
                        r.Some?)
      ensures r.Some? ==> r.value == totalBytesSent
    {
      var got := reader.TryGetReadBytes(completion);
      if got.Err? {
        return None;
      }
      var rest := got.value[bufferBytesSent..];
      var sent := SendBuffer(socket, rest);
      match sent {
        case WouldBlockAfter(n) =>
          socketWriteable := false;
          bufferBytesSent := bufferBytesSent + n;
          return None;
        case Consumed =>
          bufferBytesSent := bufferBytesSent + |rest|;
        case IoError =>
          return Some(totalBytesSent);
      }
      var queued := reader.TryQueueRead(submit);
      if queued.Err? || queued.value {
        return Some(totalBytesSent);
      }
      r := None;
    }

    /**
     * `handle_event`: a writable event of the socket marks it writable;
     * an event of the socket or of the reader sends and requests data, as
     * `SendAndRequestData` does from there; any other event changes
     * nothing.
     */
    method HandleEvent(event: Event, completion: Result<(), FileSource.IoError>, submit: Result<(), FileSource.IoError>)
      returns (r: Option<nat>)
      requires Valid() && CanSlice(completion)
      modifies this, reader, socket
      ensures Valid() && totalBytesSent == old(totalBytesSent)
      ensures event.token != socketToken && event.token != readerToken ==>
        r.None? && unchanged(this, reader, socket)
      ensures event.token == socketToken || event.token == readerToken ==>
        Responded(old(reader.state), reader.file, old(socket.writes), old(bufferBytesSent),
                  old(socketWriteable) || (event.token == socketToken && event.writable),
                  completion, submit, reader.state, old(socket.sent), socket.sent, bufferBytesSent, socketWriteable,
                  r.Some?)
      ensures r.Some? ==> r.value == totalBytesSent
    {
      if event.token == socketToken && event.writable {
        socketWriteable := true;
      }
      if event.token == socketToken || event.token == readerToken {
        r := SendAndRequestData(completion, submit);
      } else {
        r := None;
      }
    }
  }

  /**
   * One `send_and_request_data` from reader state `before`, socket
   * outcomes `writes` and the counters `bufferBytesSent0` and
   * `writeable0` to the reader state `after`, the bytes the socket holds
   * (`sent0` before, `sent` after), the new counters and whether the
   * responder `finished`:
   *  - without bytes from the reader, only the reader changes;
   *  - otherwise the socket gets a prefix of the bytes after
   *    `bufferBytesSent0`, and would-block, an error or a whole send
   *    decide the rest as `send_and_request_data` says.
   */
  ghost predicate Responded(before: Option<FileSource.OperationState>, file: seq<byte>, writes: seq<WriteOutcome>,
                            bufferBytesSent0: nat, writeable0: bool,
                            completion: Result<(), FileSource.IoError>, submit: Result<(), FileSource.IoError>,
                            after: Option<FileSource.OperationState>, sent0: seq<byte>, sent: seq<byte>,
                            bufferBytesSent: nat, writeable: bool, finished: bool)
    requires FileSource.StateValid(before, file)
  {
    var (fetched, got) := FileSource.GetReadBytes(before, file, completion);
    && (got.Err? ==>
          && after == fetched && sent == sent0 && !finished
          && bufferBytesSent == bufferBytesSent0 && writeable == writeable0)
    && (got.Ok? ==>
          && bufferBytesSent0 <= |got.value|
          && var rest := got.value[bufferBytesSent0..];
          && var run := Send(writes, |rest|);
          && sent == sent0 + rest[..run.written]
          && (run.stop == Blocked ==>
                && after == fetched && !finished && !writeable
                && bufferBytesSent == bufferBytesSent0 + run.written)
          && (run.stop == Failed ==>
                && after == fetched && finished
                && bufferBytesSent == bufferBytesSent0 && writeable == writeable0)
          && (run.stop == Done ==>
                && FileSource.StateValid(fetched, file)
                && var (queued, q) := FileSource.QueueRead(fetched, file, submit);
                && after == queued && (finished <==> q != Ok(false))
                && bufferBytesSent == |got.value| && writeable == writeable0))
  }

  /**
   * After a buffer went out whole, the responder finishes exactly when
   * the read range has a further window, and carries on (with the reader
   * at its end) after the last one: the reader's `Ok(true)`, a read in
   * flight, is taken for the end of the file.
   */
  lemma FinishesWhileMoreToRead(before: Option<FileSource.OperationState>, file: seq<byte>,
                                completion: Result<(), FileSource.IoError>, submit: Result<(), FileSource.IoError>)
    requires FileSource.StateValid(before, file)
    requires FileSource.GetReadBytes(before, file, completion).1.Ok?
    ensures var fetched := FileSource.GetReadBytes(before, file, completion).0;
      && fetched.Some? && fetched.value.Ready? && FileSource.StateValid(fetched, file)
      && (FileSource.QueueRead(fetched, file, submit).1 != Ok(false) <==> Next(fetched.value.range).Some?)
      && (Next(fetched.value.range).None? ==> FileSource.QueueRead(fetched, file, submit).0.None?)
  {
  }
}
