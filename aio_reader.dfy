/**
 * The file reader of the file handler (src/io/handlers/file/linux/reader.rs):
 * reads a range of a file with direct IO one buffer at a time, from the
 * block that holds the start of the range on. The buffer is either ready
 * (holding the last read), being read into, taken out while switching from
 * one to the other, or the end has been reached. A failure while switching
 * leaves the reader stuck there.
 *
 * The file is the sequence of bytes direct IO reads; whether a submission
 * succeeds, whether a completion event has arrived and what it says are
 * parameters of the operations that ask for them.
 */
module FileHandlerReader {
  import opened Wrappers
  import opened Bytes
  import opened Arith
  import opened ReadRanges

  /** The kinds of `io::Error` the reader returns or passes on. */
  datatype IoError = InvalidInput | WouldBlock | UnexpectedEof | Other

  /**
   * `ReadState`: `Ready` holds the bytes of the last read (none before the
   * first), `Reading` the read in flight, at `offset` for `requested` bytes.
   */
  datatype ReadState =
    | Ready(buffer: seq<byte>)
    | Reading(offset: nat, requested: nat)
    | Switching
    | EndReached

  /** `chunk_count`: the chunks of `chunkSize` bytes that hold `totalSize` bytes, a last partial one included. */
  function ChunkCount(totalSize: nat, chunkSize: nat): (c: nat)
    requires chunkSize > 0
    ensures c == (totalSize + chunkSize - 1) / chunkSize
  {
    CeilOfQuotient(totalSize, chunkSize);
    var chunks := totalSize / chunkSize;
    if totalSize % chunkSize != 0 then chunks + 1 else chunks
  }

  /** The chunks hold the bytes, and one chunk fewer would not. */
  lemma ChunkCountCovers(totalSize: nat, chunkSize: nat)
    requires chunkSize > 0
    ensures var c := ChunkCount(totalSize, chunkSize);
      && totalSize <= c * chunkSize
      && (c > 0 ==> (c - 1) * chunkSize < totalSize)
  {
    var q := totalSize / chunkSize;
    assert totalSize == q * chunkSize + totalSize % chunkSize;
    if totalSize % chunkSize != 0 {
      assert (q + 1) * chunkSize == q * chunkSize + chunkSize;
    }
  }

  /** `normalize_range`: the whole file when no range is given; a given range is kept as it is. */
  function NormalizeRange(fileSize: nat, range: Option<Range>): (r: Range)
    ensures range.Some? ==> r == range.value
    ensures range.None? ==> r == Range(0, fileSize)
  {
    if range.Some? then range.value else Range(0, fileSize)
  }

  /**
   * `buffer_size`: the bytes of whole blocks that hold the smaller of the
   * hint and the range. The source subtracts the range's start from its end.
   */
  function BufferBytes(range: Range, bufferSizeHint: nat, blockSize: nat): (size: nat)
    requires blockSize > 0 && range.start <= range.end
    ensures size % blockSize == 0
    ensures Min(bufferSizeHint, range.end - range.start) <= size < Min(bufferSizeHint, range.end - range.start) + blockSize
  {
    var want := Min(bufferSizeHint, range.end - range.start);
    WholeChunks(want, blockSize);
    ChunkCount(want, blockSize) * blockSize
  }

  /** The chunks that hold `want` bytes span a multiple of the chunk size, less than one chunk more than `want`. */
  lemma WholeChunks(want: nat, chunkSize: nat)
    requires chunkSize > 0
    ensures var n := ChunkCount(want, chunkSize) * chunkSize;
      n % chunkSize == 0 && want <= n < want + chunkSize
  {
    var c := ChunkCount(want, chunkSize);
    ChunkCountCovers(want, chunkSize);
    assert c > 0 ==> (c - 1) * chunkSize == c * chunkSize - chunkSize;
    DivMod(c * chunkSize, chunkSize, c, 0);
  }

  /** The bytes a direct read of `length` bytes at `offset` returns: those of the file, up to its end. */
  function ReadAt(file: seq<byte>, offset: nat, length: nat): (bytes: seq<byte>)
    ensures |bytes| <= length
    ensures |bytes| == length <==> length == 0 || offset + length <= |file|
    ensures |bytes| > 0 ==> offset + |bytes| <= |file| && bytes == file[offset..offset + |bytes|]
  {
    if offset >= |file| then [] else file[offset..Min(offset + length, |file|)]
  }

  /**
   * The bytes `try_get_read_bytes` hands out from a ready buffer, as
   * written: it computes `len` as the buffer's length less the offset and
   * then slices from the offset to `len`, so it drops as many bytes at the
   * end as it skips at the start.
   */
  function ReadySlice(buffer: seq<byte>, offset: nat): (r: seq<byte>)
    requires 2 * offset <= |buffer|
    ensures |r| == |buffer| - 2 * offset
    ensures forall i :: 0 <= i < |r| ==> r[i] == buffer[offset + i]
  {
    buffer[offset..|buffer| - offset]
  }

  /**
   * The bytes of the file that lie both in `range` and among the `n` bytes
   * read at `start`: what a reader hands out for that read when it keeps
   * to its range.
   */
  function InRangeBytes(file: seq<byte>, range: Range, start: nat, n: nat): (r: seq<byte>)
    requires n == 0 || start + n <= |file|
    ensures |r| <= n
    ensures start <= range.start < range.end <= start + n ==> r == file[range.start..range.end]
  {
    var lo, hi := Max(range.start, start), Min(range.end, start + n);
    if lo < hi then file[lo..hi] else []
  }

  /**
   * Two reads that follow each other hand out, together, what one read of
   * both would: reading in buffers loses and repeats none of the range.
   */
  lemma InRangeBytesSplit(file: seq<byte>, range: Range, start: nat, n: nat, m: nat)
    requires start + n + m <= |file|
    ensures InRangeBytes(file, range, start, n) + InRangeBytes(file, range, start + n, m)
         == InRangeBytes(file, range, start, n + m)
  {
    var lo, mid, hi := Max(range.start, start), start + n, Min(range.end, start + n + m);
    if lo < mid && mid < hi {
      assert file[lo..hi] == file[lo..mid] + file[mid..hi];
    }
  }

  /** The buffer size of that example. */
  lemma BufferSizeExample()
    ensures BufferBytes(Range(100, 10_000), 400_000, 4096) == 12_288
  {
    assert ChunkCount(9900, 4096) == 3;
  }

  class Reader {
    var readState: ReadState
    var blockIndex: nat
    const range: Range
    const blockSize: nat
    /** The capacity of the read buffer, whole blocks. */
    const bufferSize: nat
    /** The file, as direct IO reads it. */
    const file: seq<byte>

    /** The block size is set and the buffer holds whole blocks. */
    ghost predicate Valid()
      reads this
    {
      blockSize > 0 && bufferSize % blockSize == 0
    }

    /**
     * `Reader::new_with_buffer_size_hint` after the file was opened: the
     * buffer holds the smaller of the hint and the range in whole blocks,
     * and reading starts at the block that holds the start of the range.
     */
    constructor(file: seq<byte>, range: Option<Range>, blockSize: nat, bufferSizeHint: nat)
      requires blockSize > 0 && NormalizeRange(|file|, range).start <= NormalizeRange(|file|, range).end
      ensures Valid() && this.file == file && this.blockSize == blockSize
      ensures this.range == NormalizeRange(|file|, range)
      ensures bufferSize == BufferBytes(this.range, bufferSizeHint, blockSize)
      ensures readState == Ready([]) && Consistent()
      ensures blockIndex * blockSize <= this.range.start < (blockIndex + 1) * blockSize
    {
      var normalized := NormalizeRange(|file|, range);
      var size := BufferBytes(normalized, bufferSizeHint, blockSize);
      QuotientBounds(normalized.start, blockSize);
      var index: nat := normalized.start / blockSize;
      this.file := file;
      this.blockSize := blockSize;
      this.range := normalized;
      bufferSize := size;
      readState := Ready([]);
      blockIndex := index;
    }

    /**
     * `Reader::new_with_buffer_size_hint` from the start: `openOutcome` is the
     * outcome of opening and `stat`ing the path, `isRegular` whether the
     * path names a regular file, `stBlksize` the file system's block size
     * and `setUp` the outcome of creating the AIO context and the event
     * descriptor. A failed open passes its error on, a path that is not a
     * regular file is refused with `InvalidInput`, and otherwise the reader
     * starts as the constructor leaves it.
     */
    static method Open(file: seq<byte>, openOutcome: Result<(), IoError>, isRegular: bool, range: Option<Range>,
                       stBlksize: nat, bufferSizeHint: nat, setUp: Result<(), IoError>)
      returns (r: Result<Reader, IoError>)
      requires openOutcome.Ok? && isRegular ==>
        stBlksize > 0 && NormalizeRange(|file|, range).start <= NormalizeRange(|file|, range).end
      ensures openOutcome.Err? ==> r == Err(openOutcome.error)
      ensures openOutcome.Ok? && !isRegular ==> r == Err(InvalidInput)
      ensures openOutcome.Ok? && isRegular && setUp.Err? ==> r == Err(setUp.error)
      ensures openOutcome.Ok? && isRegular && setUp.Ok? ==>
        r.Ok? && fresh(r.value) && r.value.Valid() && r.value.file == file &&
        r.value.blockSize == stBlksize && r.value.range == NormalizeRange(|file|, range) &&
        r.value.bufferSize == BufferBytes(r.value.range, bufferSizeHint, stBlksize) &&
        r.value.readState == Ready([]) && r.value.Consistent() &&
        r.value.blockIndex * stBlksize <= r.value.range.start < (r.value.blockIndex + 1) * stBlksize
    {
      if openOutcome.Err? {
        return Err(openOutcome.error);
      }
      if !isRegular {
        return Err(InvalidInput);
      }
      var reader := new Reader(file, range, stBlksize, bufferSizeHint);
      if setUp.Err? {
        return Err(setUp.error);
      }
      r := Ok(reader);
    }

    /** `next_offset`: the byte at which the next read starts. */
    function NextOffset(): (offset: nat)
      reads this
      ensures blockSize > 0 ==> offset % blockSize == 0
    {
      assert blockSize > 0 ==> (blockSize * blockIndex) % blockSize == 0 by {
        if blockSize > 0 {
          DivMod(blockSize * blockIndex, blockSize, blockIndex, 0);
        }
      }
      blockSize * blockIndex
    }

    /**
     * Where the bytes of a ready buffer were read from, with the reader in
     * `state` at block `index`: a full read has already moved the block
     * index past them, a short last read (and the empty buffer before the
     * first read) has not.
     */
    function StartOf(state: ReadState, index: nat): nat
    {
      if state.Ready? && |state.buffer| == bufferSize && bufferSize <= blockSize * index
      then blockSize * index - bufferSize else blockSize * index
    }

    /** Where the bytes of the ready buffer were read from. */
    function BufferStart(): nat
      reads this
    {
      StartOf(readState, blockIndex)
    }

    /**
     * What every state the reader reaches keeps: a read in flight is of the
     * whole buffer at the next offset, and a ready buffer, unless still
     * empty, holds the file's bytes read where `StartOf` says.
     */
    ghost predicate ConsistentAt(state: ReadState, index: nat)
    {
      && (state.Reading? ==> state.offset == blockSize * index && state.requested == bufferSize)
      && (state.Ready? ==>
            && (|state.buffer| == bufferSize > 0 ==> bufferSize <= blockSize * index)
            && (state.buffer == [] || state.buffer == ReadAt(file, StartOf(state, index), bufferSize)))
    }

    /** The reader's own state is consistent. */
    ghost predicate Consistent()
      reads this
    {
      Valid() && ConsistentAt(readState, blockIndex)
    }

    /**
     * `try_queue_read`: with a ready buffer, submits a read of the whole
     * buffer at the next offset (`submit` is the answer of `io_submit`; a
     * refused submission leaves the reader stuck switching); a read in
     * flight stays; a stuck reader fails; at the end nothing is queued.
     */
    method TryQueueRead(submit: Result<(), IoError>) returns (r: Result<bool, IoError>)
      requires Valid()
      modifies this
      ensures Valid() && blockIndex == old(blockIndex)
      ensures old(Consistent()) ==> Consistent()
      ensures r == Ok(true) <==> readState.Reading?
      ensures match old(readState)
        case Ready(_) =>
          && (submit.Ok? ==> readState == Reading(old(NextOffset()), bufferSize) && r == Ok(true))
          && (submit.Err? ==> readState == Switching && r == Err(submit.error))
        case Reading(_, _) => readState == old(readState) && r == Ok(true)
        case Switching => readState == Switching && r == Err(Other)
        case EndReached => readState == EndReached && r == Ok(false)
    {
      match readState {
        case Ready(_) =>
          readState := Switching;
          var offset := NextOffset();
          if submit.Err? {
            return Err(submit.error);
          }
          readState := Reading(offset, bufferSize);
          r := Ok(true);
        case Reading(_, _) =>
          r := Ok(true);
        case Switching =>
          r := Err(Other);
        case EndReached =>
          r := Ok(false);
      }
    }

    /**
     * `try_move_after_read`: a full read moves past the blocks read; a
     * short one is the end when the read reached the end of the range,
     * and an `UnexpectedEof` error otherwise.
     */
    method TryMoveAfterRead(returnedLen: nat, requestedLen: nat) returns (r: Result<(), IoError>)
      requires Valid()
      modifies this
      ensures Valid()
      ensures returnedLen == requestedLen ==>
        r == Ok(()) && blockIndex == old(blockIndex) + returnedLen / blockSize && readState == old(readState)
      ensures returnedLen != requestedLen ==> blockIndex == old(blockIndex)
      ensures returnedLen != requestedLen && old(NextOffset()) + requestedLen >= range.end ==>
        r == Ok(()) && readState == EndReached
      ensures returnedLen != requestedLen && old(NextOffset()) + requestedLen < range.end ==>
        r == Err(UnexpectedEof) && readState == old(readState)
    {
      if returnedLen == requestedLen {
        blockIndex := blockIndex + returnedLen / blockSize;
        return Ok(());
      }
      var totalRequestedLen := blockIndex * blockSize + requestedLen;
      if totalRequestedLen >= range.end {
        readState := EndReached;
        return Ok(());
      }
      r := Err(UnexpectedEof);
    }

    /**
     * `finish_read`: with a read in flight and its completion `event`
     * arrived, the reader switches, takes the read's result (an error
     * leaves it stuck switching), moves past it, and is ready with the
     * bytes read; the end marked by a short last read is overwritten by
     * the ready buffer. Without a read in flight or an event nothing
     * changes.
     */
    method FinishRead(event: Option<Result<(), IoError>>) returns (r: Result<(), IoError>)
      requires Valid()
      modifies this
      ensures Valid()
      ensures !old(readState).Reading? || event.None? ==>
        r == Ok(()) && readState == old(readState) && blockIndex == old(blockIndex)
      ensures old(readState).Reading? && event.Some? && event.value.Err? ==>
        r == Err(event.value.error) && readState == Switching && blockIndex == old(blockIndex)
      ensures old(readState).Reading? && event.Some? && event.value.Ok? ==>
        var read := ReadAt(file, old(readState).offset, old(readState).requested);
        && (|read| == old(readState).requested ==>
              r == Ok(()) && readState == Ready(read) && blockIndex == old(blockIndex) + |read| / blockSize)
        && (|read| != old(readState).requested && old(NextOffset()) + old(readState).requested >= range.end ==>
              r == Ok(()) && readState == Ready(read) && blockIndex == old(blockIndex))
        && (|read| != old(readState).requested && old(NextOffset()) + old(readState).requested < range.end ==>
              r == Err(UnexpectedEof) && readState == Switching && blockIndex == old(blockIndex))
    {
      if !readState.Reading? || event.None? {
        return Ok(());
      }
      var offset, requested := readState.offset, readState.requested;
      readState := Switching;
      if event.value.Err? {
        return Err(event.value.error);
      }
      var buffer := ReadAt(file, offset, requested);
      var moved := TryMoveAfterRead(|buffer|, requested);
      if moved.Err? {
        return moved;
      }
      readState := Ready(buffer);
      r := Ok(());
    }

    /** The bytes at the start of a ready buffer that lie before the range: only the first block's. */
    function StartOffset(): (offset: nat)
      requires Valid()
      reads this
      ensures offset < blockSize
      ensures offset > 0 ==> blockIndex == range.start / blockSize
    {
      if blockIndex == range.start / blockSize then range.start % blockSize else 0
    }

    /**
     * The state and block index `finish_read` leaves after `event`, and
     * whether the bytes handed out from a ready buffer then fit its slice.
     */
    ghost predicate SliceFits(event: Option<Result<(), IoError>>)
      requires Valid()
      reads this
    {
      var (after, index) := AfterFinish(event);
      var offset := if index == range.start / blockSize then range.start % blockSize else 0;
      after.Ready? ==> 2 * offset <= |after.buffer|
    }

    /** The state and block index after `finish_read` with `event`. */
    ghost function AfterFinish(event: Option<Result<(), IoError>>): (ReadState, nat)
      requires Valid()
      reads this
    {
      if !readState.Reading? || event.None? then (readState, blockIndex)
      else if event.value.Err? then (Switching, blockIndex)
      else
        var read := ReadAt(file, readState.offset, readState.requested);
        if |read| == readState.requested then (Ready(read), blockIndex + |read| / blockSize)
        else if NextOffset() + readState.requested >= range.end then (Ready(read), blockIndex)
        else (Switching, blockIndex)
    }

    /**
     * `finish_read` keeps the reader consistent: a full read moves the
     * block index on by the buffer's blocks, so the buffer starts where the
     * read was made, and a short one leaves both where they were.
     */
    lemma FinishKeepsConsistent(event: Option<Result<(), IoError>>)
      requires Consistent()
      ensures ConsistentAt(AfterFinish(event).0, AfterFinish(event).1)
    {
      if readState.Reading? && event.Some? && event.value.Ok? {
        var read := ReadAt(file, readState.offset, readState.requested);
        if |read| == readState.requested {
          FullReadAdvances(this, read);
          assert blockSize * (blockIndex + |read| / blockSize) == blockSize * blockIndex + bufferSize;
        }
      }
    }

    /**
     * `try_get_read_bytes`, as written: collects a finished read, then
     * hands out the ready buffer less the bytes before the range, and as
     * many again at its end; fails while reading, stuck or at the end.
     * The source panics when the slice does not fit the buffer.
     */
    method TryGetReadBytes(event: Option<Result<(), IoError>>) returns (r: Result<seq<byte>, IoError>)
      requires Valid() && SliceFits(event)
      modifies this
      ensures Valid() && (readState, blockIndex) == old(AfterFinish(event))
      ensures old(Consistent()) ==> Consistent()
      ensures readState.Ready? <==> r.Ok?
      ensures r.Ok? ==> 2 * StartOffset() <= |readState.buffer| && r.value == ReadySlice(readState.buffer, StartOffset())
      ensures readState.Reading? ==> r == Err(WouldBlock)
      ensures readState.EndReached? ==> r == Err(UnexpectedEof)
      ensures readState.Switching? ==> r.Err?
    {
      if Consistent() {
        FinishKeepsConsistent(event);
      }
      var finished := FinishRead(event);
      if finished.Err? {
        return Err(finished.error);
      }
      match readState {
        case Ready(buffer) =>
          r := Ok(ReadySlice(buffer, StartOffset()));
        case Reading(_, _) =>
          r := Err(WouldBlock);
        case Switching =>
          r := Err(Other);
        case EndReached =>
          r := Err(UnexpectedEof);
      }
    }

    /**
     * `try_get_read_bytes` keeping to the range: after collecting a finished
     * read, it hands out exactly the bytes of the file that lie in the range
     * and in the read the buffer holds, at the start and at the end alike.
     */
    method TryGetReadBytesCorrected(event: Option<Result<(), IoError>>) returns (r: Result<seq<byte>, IoError>)
      requires Consistent()
      modifies this
      ensures Consistent() && (readState, blockIndex) == old(AfterFinish(event))
      ensures readState.Ready? <==> r.Ok?
      ensures r.Ok? ==> r.value == InRangeBytes(file, range, BufferStart(), |readState.buffer|)
      ensures readState.Reading? ==> r == Err(WouldBlock)
      ensures readState.EndReached? ==> r == Err(UnexpectedEof)
      ensures readState.Switching? ==> r.Err?
    {
      FinishKeepsConsistent(event);
      var finished := FinishRead(event);
      if finished.Err? {
        return Err(finished.error);
      }
      match readState {
        case Ready(buffer) =>
          var bytes := BytesInRange(buffer, BufferStart(), range, file);
          r := Ok(bytes);
        case Reading(_, _) =>
          r := Err(WouldBlock);
        case Switching =>
          r := Err(Other);
        case EndReached =>
          r := Err(UnexpectedEof);
      }
    }

    /** `deregister`: the reader is at the end; `deregistered` is what the poll answers. */
    method Deregister(deregistered: Result<(), IoError>) returns (r: Result<(), IoError>)
      requires Valid()
      modifies this
      ensures Valid() && readState == EndReached && blockIndex == old(blockIndex) && r == deregistered
      ensures old(Consistent()) ==> Consistent()
    {
      readState := EndReached;
      r := deregistered;
    }
  }

  /**
   * A full read of the buffer moves the next offset on by the buffer's
   * size: the reads follow each other without gap or overlap.
   */
  lemma FullReadAdvances(reader: Reader, read: seq<byte>)
    requires reader.Valid() && |read| == reader.bufferSize
    ensures (reader.blockIndex + |read| / reader.blockSize) * reader.blockSize == reader.NextOffset() + reader.bufferSize
  {
    var q := reader.bufferSize / reader.blockSize;
    assert reader.bufferSize == q * reader.blockSize;
    assert (reader.blockIndex + q) * reader.blockSize == reader.blockIndex * reader.blockSize + q * reader.blockSize;
  }

  /** The bytes of a buffer read at `start` of `file` that lie in `range`. */
  method BytesInRange(buffer: seq<byte>, start: nat, range: Range, ghost file: seq<byte>) returns (r: seq<byte>)
    requires buffer == [] || buffer == ReadAt(file, start, |buffer|)
    ensures r == InRangeBytes(file, range, start, |buffer|)
  {
    var lo, hi := Max(range.start, start), Min(range.end, start + |buffer|);
    if lo < hi {
      SliceOfRead(file, start, buffer, lo, hi);
      r := buffer[lo - start..hi - start];
    } else {
      r := [];
    }
  }

  /** The bytes `lo` to `hi` of the file, taken from a read of them at `start`. */
  lemma SliceOfRead(file: seq<byte>, start: nat, buffer: seq<byte>, lo: nat, hi: nat)
    requires start + |buffer| <= |file| && buffer == file[start..start + |buffer|]
    requires start <= lo <= hi <= start + |buffer|
    ensures buffer[lo - start..hi - start] == file[lo..hi]
  {
    forall k | 0 <= k < hi - lo ensures buffer[lo - start..hi - start][k] == file[lo..hi][k] {
      assert buffer[lo - start + k] == file[start..start + |buffer|][lo - start + k];
    }
  }

  /**
   * Bytes 100 to 10000 of a file of 10000 bytes, in blocks of 4096 with a
   * buffer hint of 400000: the first read is short and the last. As
   * written the reader hands out bytes 100 to 9900, dropping the last 100
   * bytes of the range; keeping to the range hands out bytes 100 to 10000.
   */
  method ShortFirstReadDropsTail(file: seq<byte>) returns (asWritten: Result<seq<byte>, IoError>, corrected: Result<seq<byte>, IoError>)
    requires |file| == 10_000
    ensures asWritten == Ok(file[100..9_900])
    ensures corrected == Ok(file[100..10_000])
  {
    BufferSizeExample();
    var reader := new Reader(file, Some(Range(100, 10_000)), 4096, 400_000);
    var queued := reader.TryQueueRead(Ok(()));
    assert ReadAt(file, 0, 12_288) == file[0..10_000];
    asWritten := reader.TryGetReadBytes(Some(Ok(())));
    assert file[0..10_000][100..9_900] == file[100..9_900];
    var other := new Reader(file, Some(Range(100, 10_000)), 4096, 400_000);
    queued := other.TryQueueRead(Ok(()));
    corrected := other.TryGetReadBytesCorrected(Some(Ok(())));
  }

  /**
   * The same range of a file of 20000 bytes: the first read fills the
   * 12288-byte buffer and moves the block index on before the offset is
   * looked at, so as written the reader hands out bytes 0 to 12288, the
   * 100 before the range and the 2288 after it included; keeping to the
   * range hands out bytes 100 to 10000.
   */
  method FullFirstReadLeavesRange(file: seq<byte>) returns (asWritten: Result<seq<byte>, IoError>, corrected: Result<seq<byte>, IoError>)
    requires |file| == 20_000
    ensures asWritten == Ok(file[0..12_288])
    ensures corrected == Ok(file[100..10_000])
  {
    BufferSizeExample();
    var reader := new Reader(file, Some(Range(100, 10_000)), 4096, 400_000);
    var queued := reader.TryQueueRead(Ok(()));
    assert ReadAt(file, 0, 12_288) == file[0..12_288];
    assert 12_288 / 4096 == 3 && 100 / 4096 == 0;
    asWritten := reader.TryGetReadBytes(Some(Ok(())));
    assert reader.blockIndex == 3 && reader.StartOffset() == 0;
    assert file[0..12_288][0..12_288] == file[0..12_288];
    var other := new Reader(file, Some(Range(100, 10_000)), 4096, 400_000);
    queued := other.TryQueueRead(Ok(()));
    corrected := other.TryGetReadBytesCorrected(Some(Ok(())));
    assert other.blockIndex == 3 && other.BufferStart() == 0;
  }
}
