/**
 * Sending a buffer to a non-blocking socket and receiving into one
 * (src/io/handlers/send_buffer.rs and src/io/handlers/buffer_io.rs). The
 * socket is modelled by what its next calls do: a finite list of outcomes
 * for `write` and one for `read`; once a list runs out, the socket would
 * block. The bytes a socket accepted are recorded.
 */
module SocketIo {
  import opened Wrappers
  import opened Bytes
  import opened Arith

  /** The `io::ErrorKind`s the loops tell apart. */
  datatype ErrorKind = Interrupted | WouldBlock | Other

  /** What one `write` call does: accept up to `n` bytes, or fail. */
  datatype WriteOutcome = Accepts(n: nat) | WriteFails(kind: ErrorKind)

  /** What one `read` call does: deliver bytes (none at the end of the stream), or fail. */
  datatype ReadOutcome = Delivers(data: seq<byte>) | ReadFails(kind: ErrorKind)

  /** The result of one `write` of `len` bytes: never more than offered. */
  function WriteResult(writes: seq<WriteOutcome>, len: nat): (r: Result<nat, ErrorKind>)
    ensures r.Ok? ==> r.value <= len
  {
    if writes == [] then Err(WouldBlock)
    else match writes[0]
      case Accepts(n) => Ok(Min(n, len))
      case WriteFails(k) => Err(k)
  }

  /** The result of one `read` into `room` bytes: never more than fit. */
  function ReadResult(arrivals: seq<ReadOutcome>, room: nat): (r: Result<seq<byte>, ErrorKind>)
    ensures r.Ok? ==> |r.value| <= room
  {
    if arrivals == [] then Err(WouldBlock)
    else match arrivals[0]
      case Delivers(d) => Ok(d[..Min(|d|, room)])
      case ReadFails(k) => Err(k)
  }

  function Rest<T>(s: seq<T>): seq<T>
  {
    if s == [] then [] else s[1..]
  }

  /** A socket: what its next writes and reads do, and the bytes it has accepted. */
  class Socket {
    var writes: seq<WriteOutcome>
    var arrivals: seq<ReadOutcome>
    var sent: seq<byte>

    constructor (writes: seq<WriteOutcome>, arrivals: seq<ReadOutcome>)
      ensures this.writes == writes && this.arrivals == arrivals && sent == []
    {
      this.writes := writes;
      this.arrivals := arrivals;
      sent := [];
    }

    /** `write`: the next outcome; the accepted bytes are the first ones of `buf`. */
    method Write(buf: seq<byte>) returns (r: Result<nat, ErrorKind>)
      modifies this
      ensures r == WriteResult(old(writes), |buf|) && writes == Rest(old(writes)) && arrivals == old(arrivals)
      ensures sent == old(sent) + (if r.Ok? then buf[..r.value] else [])
    {
      r := WriteResult(writes, |buf|);
      writes := Rest(writes);
      if r.Ok? {
        sent := sent + buf[..r.value];
      }
    }

    /** `read` into `room` bytes: the next outcome. */
    method Read(room: nat) returns (r: Result<seq<byte>, ErrorKind>)
      modifies this
      ensures r == ReadResult(old(arrivals), room) && arrivals == Rest(old(arrivals))
      ensures writes == old(writes) && sent == old(sent)
    {
      r := ReadResult(arrivals, room);
      arrivals := Rest(arrivals);
    }
  }

  /** How a send loop ends: everything written, the socket would block, or a hard error. */
  datatype SendStop = Done | Blocked | Failed

  /** A send loop's end, the bytes it wrote and the socket outcomes it used. */
  datatype SendRun = SendRun(stop: SendStop, written: nat, used: nat)

  /**
   * The send loop over `rest` bytes: each accepted count advances, an
   * interruption retries the same bytes, would-block and any other error
   * stop it. It ends `Done` exactly when every byte was written.
   */
  function Send(writes: seq<WriteOutcome>, rest: nat): (r: SendRun)
    ensures r.written <= rest && r.used <= |writes|
    ensures r.stop == Done <==> r.written == rest
    decreases |writes|
  {
    if rest == 0 then SendRun(Done, 0, 0)
    else match WriteResult(writes, rest)
      case Ok(k) =>
        var r := Send(writes[1..], rest - k);
        SendRun(r.stop, r.written + k, r.used + 1)
      case Err(Interrupted) =>
        var r := Send(writes[1..], rest);
        SendRun(r.stop, r.written, r.used + 1)
      case Err(WouldBlock) => SendRun(Blocked, 0, if writes == [] then 0 else 1)
      case Err(Other) => SendRun(Failed, 0, 1)
  }

  /**
   * The loop of both `send_buffer`s: write what remains until nothing
   * does, retrying interruptions, stopping on would-block or another error.
   * The socket receives the first `written` bytes of the buffer.
   */
  method SendLoop(socket: Socket, buffer: seq<byte>) returns (stop: SendStop, written: nat)
    modifies socket
    ensures var run := Send(old(socket.writes), |buffer|);
      && stop == run.stop && written == run.written && socket.writes == old(socket.writes)[run.used..]
    ensures written <= |buffer| && socket.sent == old(socket.sent) + buffer[..written]
    ensures socket.arrivals == old(socket.arrivals)
  {
    written := 0;
    ghost var used := 0;
    ghost var writes0, sent0 := socket.writes, socket.sent;
    while written < |buffer|
      invariant written <= |buffer| && used <= |writes0|
      invariant socket.writes == writes0[used..] && socket.sent == sent0 + buffer[..written]
      invariant socket.arrivals == old(socket.arrivals)
      invariant SendFrom(writes0, |buffer|, used, written)
      decreases |writes0| - used
    {
      var r;
      r, written, used := SendStep(socket, buffer, written, writes0, sent0, used);
      if r.Err? && r.error != Interrupted {
        stop := if r.error == WouldBlock then Blocked else Failed;
        return;
      }
    }
    SendFinished(writes0, |buffer|, used, written);
    stop := Done;
  }

  /** One turn of the send loop: a `write` of what remains, and where the loop stands after it. */
  method SendStep(socket: Socket, buffer: seq<byte>, written: nat, ghost writes0: seq<WriteOutcome>,
                  ghost sent0: seq<byte>, ghost used: nat)
    returns (r: Result<nat, ErrorKind>, written': nat, ghost used': nat)
    requires written < |buffer| && SendFrom(writes0, |buffer|, used, written)
    requires socket.writes == writes0[used..] && socket.sent == sent0 + buffer[..written]
    modifies socket
    ensures socket.arrivals == old(socket.arrivals)
    ensures r.Err? && r.error != Interrupted ==>
      var run := Send(writes0, |buffer|);
      && run.stop == (if r.error == WouldBlock then Blocked else Failed)
      && run.written == written == written' && socket.writes == writes0[run.used..]
      && socket.sent == sent0 + buffer[..run.written]
    ensures !(r.Err? && r.error != Interrupted) ==>
      && used < used' <= |writes0| && written <= written' <= |buffer|
      && socket.writes == writes0[used'..] && socket.sent == sent0 + buffer[..written']
      && SendFrom(writes0, |buffer|, used', written')
  {
    r := socket.Write(buffer[written..]);
    written', used' := written, used + 1;
    if r.Ok? {
      SendAccepted(writes0, |buffer|, used, written, r.value);
      PrefixGrows(buffer, written, r.value);
      written' := written + r.value;
    } else if r.error == Interrupted {
      SendInterrupted(writes0, |buffer|, used, written);
    } else {
      SendStopped(writes0, |buffer|, used, written);
    }
  }

  lemma PrefixGrows(buffer: seq<byte>, written: nat, n: nat)
    requires written + n <= |buffer|
    ensures buffer[..written + n] == buffer[..written] + buffer[written..][..n]
  {
  }

  /**
   * The loop has used `used` outcomes and written `written` of `total`
   * bytes, and the rest of the run is the run from there.
   */
  ghost predicate SendFrom(writes: seq<WriteOutcome>, total: nat, used: nat, written: nat)
  {
    && used <= |writes| && written <= total
    && var r := Send(writes[used..], total - written);
    Send(writes, total) == SendRun(r.stop, r.written + written, r.used + used)
  }

  lemma SendAccepted(writes: seq<WriteOutcome>, total: nat, used: nat, written: nat, k: nat)
    requires SendFrom(writes, total, used, written) && written < total
    requires WriteResult(writes[used..], total - written) == Ok(k)
    ensures used < |writes| && SendFrom(writes, total, used + 1, written + k)
  {
    assert writes[used..][1..] == writes[used + 1..];
  }

  lemma SendInterrupted(writes: seq<WriteOutcome>, total: nat, used: nat, written: nat)
    requires SendFrom(writes, total, used, written) && written < total
    requires WriteResult(writes[used..], total - written) == Err(Interrupted)
    ensures used < |writes| && SendFrom(writes, total, used + 1, written)
  {
    assert writes[used..][1..] == writes[used + 1..];
  }

  lemma SendStopped(writes: seq<WriteOutcome>, total: nat, used: nat, written: nat)
    requires SendFrom(writes, total, used, written) && written < total
    requires WriteResult(writes[used..], total - written) in {Err(WouldBlock), Err(Other)}
    ensures var r := Send(writes, total);
      && r.stop == (if WriteResult(writes[used..], total - written) == Err(WouldBlock) then Blocked else Failed)
      && r.written == written && writes[r.used..] == Rest(writes[used..])
  {
    if used < |writes| {
      assert writes[used..][1..] == writes[used + 1..];
    }
  }

  lemma SendFinished(writes: seq<WriteOutcome>, total: nat, used: nat, written: nat)
    requires SendFrom(writes, total, used, written) && written == total
    ensures Send(writes, total) == SendRun(Done, written, used)
  {
  }

  /** `SendResult` of send_buffer.rs. */
  datatype SendResult = Consumed | WouldBlockAfter(written: nat) | IoError

  /**
   * `send_buffer` of send_buffer.rs: `Consumed` once every byte is
   * written, `WouldBlock` with the count written so far, or the error.
   */
  method SendBuffer(socket: Socket, buffer: seq<byte>) returns (r: SendResult)
    modifies socket
    ensures var run := Send(old(socket.writes), |buffer|);
      && (r.Consumed? <==> run.stop == Done)
      && (r.WouldBlockAfter? <==> run.stop == Blocked)
      && (r.WouldBlockAfter? ==> r.written == run.written < |buffer|)
      && socket.sent == old(socket.sent) + buffer[..run.written]
    ensures r.Consumed? ==> socket.sent == old(socket.sent) + buffer
  {
    var stop, written := SendLoop(socket, buffer);
    match stop
    case Done => r := Consumed;
    case Blocked => r := WouldBlockAfter(written);
    case Failed => r := IoError;
  }

  /** An empty buffer is consumed without a single `write`. */
  lemma SendEmpty(writes: seq<WriteOutcome>)
    ensures Send(writes, 0) == SendRun(Done, 0, 0)
  {
  }

  /** `IoReport` of buffer_io.rs. */
  datatype IoReport = Empty | Partial(n: nat) | Complete(n: nat)

  /** `byte_count`: the count a report carries, 0 for `Empty`. */
  function ByteCount(report: IoReport): nat
  {
    match report
    case Complete(n) => n
    case Partial(n) => n
    case Empty => 0
  }

  /** `is_empty`. */
  predicate IsEmpty(report: IoReport)
  {
    ByteCount(report) == 0
  }

  /**
   * `IoReport::from_count`: `Empty` when nothing moved, else `Complete` when
   * nothing remains and `Partial` when something does; the count is kept.
   */
  function FromCount(byteCount: nat, remaining: nat): (r: IoReport)
    ensures ByteCount(r) == byteCount
    ensures IsEmpty(r) <==> byteCount == 0
    ensures r.Complete? <==> byteCount > 0 && remaining == 0
    ensures r.Partial? <==> byteCount > 0 && remaining > 0
  {
    if byteCount == 0 then Empty
    else if remaining != 0 then Partial(byteCount)
    else Complete(byteCount)
  }

  /**
   * `send_buffer` of buffer_io.rs: the report of the bytes written and the
   * bytes left, when all were written or the socket would block; an error
   * otherwise. `Complete` means exactly that a non-empty buffer went out
   * whole.
   */
  method SendBufferReport(socket: Socket, buffer: seq<byte>) returns (r: Result<IoReport, ErrorKind>)
    modifies socket
    ensures var run := Send(old(socket.writes), |buffer|);
      && (r.Err? <==> run.stop == Failed)
      && (r.Ok? ==> ByteCount(r.value) == run.written)
      && (r.Ok? ==> (r.value.Complete? <==> run.written == |buffer| > 0))
      && socket.sent == old(socket.sent) + buffer[..run.written]
  {
    var stop, written := SendLoop(socket, buffer);
    if stop == Failed {
      r := Err(Other);
    } else {
      r := Ok(FromCount(written, |buffer| - written));
    }
  }

  /** A receive loop's end, the bytes it read and the socket outcomes it used. */
  datatype ReceiveRun = ReceiveRun(stop: SendStop, data: seq<byte>, used: nat)

  /**
   * The receive loop into `room` bytes: each non-empty read is kept and the
   * loop goes on into the room left; a read of nothing (the end of the
   * stream, or a full buffer) ends it `Done`; an interruption retries,
   * would-block and any other error stop it.
   */
  function Receive(arrivals: seq<ReadOutcome>, room: nat): (r: ReceiveRun)
    ensures |r.data| <= room && r.used <= |arrivals|
    decreases |arrivals|
  {
    match ReadResult(arrivals, room)
    case Ok(d) =>
      if d == [] then ReceiveRun(Done, [], 1)
      else
        var r := Receive(arrivals[1..], room - |d|);
        ReceiveRun(r.stop, d + r.data, r.used + 1)
    case Err(Interrupted) =>
      var r := Receive(arrivals[1..], room);
      ReceiveRun(r.stop, r.data, r.used + 1)
    case Err(WouldBlock) => ReceiveRun(Blocked, [], if arrivals == [] then 0 else 1)
    case Err(Other) => ReceiveRun(Failed, [], 1)
  }

  /**
   * The receive loop has used `used` outcomes and read `got` into `total`
   * bytes of room, and the rest of the run is the run from there.
   */
  ghost predicate ReceiveFrom(arrivals: seq<ReadOutcome>, total: nat, used: nat, got: seq<byte>)
  {
    && used <= |arrivals| && |got| <= total
    && var r := Receive(arrivals[used..], total - |got|);
    Receive(arrivals, total) == ReceiveRun(r.stop, got + r.data, r.used + used)
  }

  lemma ReceiveAccepted(arrivals: seq<ReadOutcome>, total: nat, used: nat, got: seq<byte>, d: seq<byte>)
    requires ReceiveFrom(arrivals, total, used, got)
    requires ReadResult(arrivals[used..], total - |got|) == Ok(d) && d != []
    ensures used < |arrivals| && ReceiveFrom(arrivals, total, used + 1, got + d)
  {
    assert arrivals[used..][1..] == arrivals[used + 1..];
  }

  lemma ReceiveInterrupted(arrivals: seq<ReadOutcome>, total: nat, used: nat, got: seq<byte>)
    requires ReceiveFrom(arrivals, total, used, got)
    requires ReadResult(arrivals[used..], total - |got|) == Err(Interrupted)
    ensures used < |arrivals| && ReceiveFrom(arrivals, total, used + 1, got)
  {
    assert arrivals[used..][1..] == arrivals[used + 1..];
  }

  lemma ReceiveStopped(arrivals: seq<ReadOutcome>, total: nat, used: nat, got: seq<byte>)
    requires ReceiveFrom(arrivals, total, used, got)
    requires ReadResult(arrivals[used..], total - |got|) in {Ok([]), Err(WouldBlock), Err(Other)}
    ensures var r := Receive(arrivals, total);
      && r.stop == (match ReadResult(arrivals[used..], total - |got|)
                    case Ok(_) => Done case Err(WouldBlock) => Blocked case Err(_) => Failed)
      && r.data == got && arrivals[r.used..] == Rest(arrivals[used..])
  {
    if used < |arrivals| {
      assert arrivals[used..][1..] == arrivals[used + 1..];
    }
  }

  /**
   * The loop of `receive_buffer`: read into the free end of `buffer` until
   * a read returns nothing, retrying interruptions, stopping on
   * would-block or another error. The bytes read fill the front of the
   * buffer; the rest of it is untouched.
   */
  method ReceiveLoop(socket: Socket, buffer: array<byte>) returns (stop: SendStop, bytesRead: nat)
    modifies socket, buffer
    ensures var run := Receive(old(socket.arrivals), buffer.Length);
      && stop == run.stop && bytesRead == |run.data| <= buffer.Length
      && buffer[..bytesRead] == run.data && socket.arrivals == old(socket.arrivals)[run.used..]
    ensures buffer[bytesRead..] == old(buffer[..])[bytesRead..]
    ensures socket.writes == old(socket.writes) && socket.sent == old(socket.sent)
  {
    bytesRead := 0;
    ghost var used := 0;
    ghost var arrivals0, buffer0 := socket.arrivals, buffer[..];
    while true
      invariant bytesRead <= buffer.Length && used <= |arrivals0|
      invariant socket.arrivals == arrivals0[used..] && buffer[bytesRead..] == buffer0[bytesRead..]
      invariant socket.writes == old(socket.writes) && socket.sent == old(socket.sent)
      invariant ReceiveFrom(arrivals0, buffer.Length, used, buffer[..bytesRead])
      decreases |arrivals0| - used
    {
      var r;
      r, bytesRead, used := ReceiveStep(socket, buffer, bytesRead, arrivals0, buffer0, used);
      if !(r.Err? && r.error == Interrupted) && !(r.Ok? && r.value != []) {
        stop := match r case Ok(_) => Done case Err(WouldBlock) => Blocked case Err(_) => Failed;
        return;
      }
    }
  }

  /** One turn of the receive loop: a `read` into the free end of the buffer, and where the loop stands after it. */
  method ReceiveStep(socket: Socket, buffer: array<byte>, bytesRead: nat, ghost arrivals0: seq<ReadOutcome>,
                     ghost buffer0: seq<byte>, ghost used: nat)
    returns (r: Result<seq<byte>, ErrorKind>, bytesRead': nat, ghost used': nat)
    requires bytesRead <= buffer.Length && ReceiveFrom(arrivals0, buffer.Length, used, buffer[..bytesRead])
    requires socket.arrivals == arrivals0[used..] && |buffer0| == buffer.Length
    requires buffer[bytesRead..] == buffer0[bytesRead..]
    modifies socket, buffer
    ensures socket.writes == old(socket.writes) && socket.sent == old(socket.sent)
    ensures bytesRead' <= buffer.Length && buffer[bytesRead'..] == buffer0[bytesRead'..]
    ensures (r.Err? && r.error == Interrupted) || (r.Ok? && r.value != []) ==>
      && used < used' <= |arrivals0| && socket.arrivals == arrivals0[used'..]
      && ReceiveFrom(arrivals0, buffer.Length, used', buffer[..bytesRead'])
    ensures !((r.Err? && r.error == Interrupted) || (r.Ok? && r.value != [])) ==>
      var run := Receive(arrivals0, buffer.Length);
      && run.stop == (match r case Ok(_) => Done case Err(WouldBlock) => Blocked case Err(_) => Failed)
      && bytesRead' == bytesRead && run.data == buffer[..bytesRead] && socket.arrivals == arrivals0[run.used..]
  {
    ghost var got := buffer[..bytesRead];
    r := socket.Read(buffer.Length - bytesRead);
    bytesRead', used' := bytesRead, used + 1;
    if r.Ok? && r.value != [] {
      var d := r.value;
      ReceiveAccepted(arrivals0, buffer.Length, used, got, d);
      CopyInto(buffer, bytesRead, d);
      bytesRead' := bytesRead + |d|;
    } else if r.Err? && r.error == Interrupted {
      ReceiveInterrupted(arrivals0, buffer.Length, used, got);
    } else {
      ReceiveStopped(arrivals0, buffer.Length, used, got);
    }
  }

  /** Copies `d` into `buffer` at `at`; the bytes before and after stay. */
  method CopyInto(buffer: array<byte>, at: nat, d: seq<byte>)
    requires at + |d| <= buffer.Length
    modifies buffer
    ensures buffer[..at + |d|] == old(buffer[..at]) + d
    ensures buffer[at + |d|..] == old(buffer[at + |d|..])
  {
    forall k | at <= k < at + |d| {
      buffer[k] := d[k - at];
    }
    assert buffer[..at + |d|] == old(buffer[..at]) + d;
  }

  /**
   * `receive_buffer`: the report of the bytes read against the buffer's
   * length, when a read returned nothing or the socket would block; an
   * error otherwise. As the remaining count passed is the whole length, a
   * non-empty buffer is never reported `Complete`, even when it is full.
   */
  method ReceiveBuffer(socket: Socket, buffer: array<byte>) returns (r: Result<IoReport, ErrorKind>)
    modifies socket, buffer
    ensures var run := Receive(old(socket.arrivals), buffer.Length);
      && (r.Err? <==> run.stop == Failed)
      && (r.Ok? ==> ByteCount(r.value) == |run.data|)
      && buffer[..|run.data|] == run.data
    ensures r.Ok? && buffer.Length > 0 ==> !r.value.Complete?
  {
    var stop, bytesRead := ReceiveLoop(socket, buffer);
    if stop == Failed {
      r := Err(Other);
    } else {
      r := Ok(FromCount(bytesRead, buffer.Length));
    }
  }

  /** An interruption, then a write of everything left. */
  lemma SendAfterInterruption()
    ensures Send([WriteFails(Interrupted), Accepts(10)], 3) == SendRun(Done, 3, 2)
  {
    assert [Accepts(10)][1..] == [];
    assert [WriteFails(Interrupted), Accepts(10)][1..] == [Accepts(10)];
  }

  /**
   * A socket that accepts at least one byte on each of `rest` writes takes
   * the whole buffer: the loop ends only through progress.
   */
  lemma {:induction false} SendProgress(writes: seq<WriteOutcome>, rest: nat)
    requires rest <= |writes|
    requires forall i | 0 <= i < |writes| :: writes[i].Accepts? && writes[i].n > 0
    ensures Send(writes, rest) == SendRun(Done, rest, Send(writes, rest).used)
    decreases rest
  {
    if rest > 0 {
      var k := Min(writes[0].n, rest);
      SendProgress(writes[1..], rest - k);
    }
  }

  /** A write of two bytes and then would-block: two of five bytes written. */
  lemma SendBlockedExample()
    ensures Send([Accepts(2), WriteFails(WouldBlock)], 5) == SendRun(Blocked, 2, 2)
  {
    var w := [Accepts(2), WriteFails(WouldBlock)];
    assert w[1..] == [WriteFails(WouldBlock)];
    assert Send(w[1..], 3) == SendRun(Blocked, 0, 1);
  }
}
