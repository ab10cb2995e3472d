/**
 * The writer of an HTTP response (src/http/response_writer.rs): first the
 * header bytes go out, then, for a response whose body is a file, the
 * file's bytes; afterwards the sources are deregistered and the writer is
 * done.
 *
 * The sub-writers are represented by whether they report that they
 * finished on the current event; the registrations with the event loop
 * are flags.
 */
module ResponseWriters {
  import opened Wrappers

  /** `ResponseBody`: the body is a file to stream, or already in the header buffer. */
  datatype ResponseBody = File | InBuffer

  /** `State`: writing the headers (knowing what body follows), or writing a file body. */
  datatype Stage = Headers(body: ResponseBody) | FileBody

  /**
   * The state `next_state` moves to when the active sub-writer finished:
   * headers with a file body go on to the file, every other state ends.
   */
  function Following(state: Option<Stage>): Option<Stage>
  {
    match state
    case Some(Headers(File)) => Some(FileBody)
    case _ => None
  }

  /** How many sub-writers are still to finish from a state. */
  function Remaining(state: Option<Stage>): nat
  {
    match state
    case None => 0
    case Some(FileBody) => 1
    case Some(Headers(File)) => 2
    case Some(Headers(InBuffer)) => 1
  }

  /**
   * Every transition goes forward: Headers → FileBody → done or Headers →
   * done, one sub-writer at a time; the end is kept.
   */
  lemma FollowingGoesForward(state: Option<Stage>)
    ensures state.Some? ==> Remaining(Following(state)) == Remaining(state) - 1
    ensures state.None? ==> Following(state).None?
    ensures Following(state).Some? <==> state == Some(Headers(File))
    ensures Following(state) != Some(Headers(File)) && Following(state) != Some(Headers(InBuffer))
  {
  }

  class ResponseWriter {
    var state: Option<Stage>
    /** Whether the socket, and the file reader, are registered with the event loop. */
    var socketRegistered: bool
    var readerRegistered: bool
    /** Whether the file writer was started, which queues the reader's first read. */
    var fileStarted: bool

    /** The sources registered are those the state still uses. */
    ghost predicate Valid()
      reads this
    {
      && (state.Some? ==> socketRegistered)
      && (readerRegistered <==> state == Some(FileBody))
      && (fileStarted <==> state == Some(FileBody))
    }

    /** `ResponseWriter::new`: writing the headers, with the socket registered. */
    constructor(body: ResponseBody)
      ensures Valid() && state == Some(Headers(body)) && socketRegistered && !readerRegistered
    {
      state := Some(Headers(body));
      socketRegistered := true;
      readerRegistered := false;
      fileStarted := false;
    }

    /**
     * `next_state`: headers followed by a file register the reader and
     * start the file writer; headers alone, or a finished file, end the
     * response and deregister what it used.
     */
    method NextState()
      requires Valid()
      modifies this
      ensures Valid() && state == Following(old(state))
      ensures state == Some(FileBody) ==> readerRegistered && fileStarted && socketRegistered
      ensures old(state).Some? && state.None? ==> !socketRegistered && !readerRegistered
      ensures old(state).None? ==> unchanged(this)
    {
      match state {
        case Some(Headers(File)) =>
          readerRegistered := true;
          fileStarted := true;
          state := Some(FileBody);
        case Some(Headers(InBuffer)) =>
          socketRegistered := false;
          state := None;
        case Some(FileBody) =>
          readerRegistered := false;
          fileStarted := false;
          socketRegistered := false;
          state := None;
        case None =>
      }
    }

    /**
     * `handle_event`: while the active sub-writer does not finish nothing
     * changes; when it does the writer moves on. The result is `Some(())`
     * exactly when no state is left, so once done it stays done.
     */
    method HandleEvent(subFinished: bool) returns (r: Option<()>)
      requires Valid()
      modifies this
      ensures Valid()
      ensures old(state).Some? && !subFinished ==> unchanged(this)
      ensures old(state).Some? && subFinished ==> state == Following(old(state))
      ensures old(state).None? ==> unchanged(this)
      ensures r.Some? <==> state.None?
    {
      if state.Some? && subFinished {
        NextState();
      }
      r := if state.None? then Some(()) else None;
    }
  }
}
