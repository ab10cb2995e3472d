/**
 * The direct-IO file reader of the file source
 * (src/io/sources/file/linux/reader.rs). A reader starts with the range to
 * read; each queued read fetches the next block-aligned operation of that
 * range into the buffer, and once its completion has been collected the
 * part of the buffer inside the range is handed out. A submission or
 * completion error, or reaching the end, leaves the reader without state.
 *
 * The file is the sequence of bytes direct IO reads; the kernel's answers
 * (whether a submission succeeds, whether the completion arrives) are
 * parameters of the operations that ask for them.
 */
module FileSource {
  import opened Wrappers
  import opened Bytes
  import opened Arith
  import opened DirectIo
  import opened ReadRanges

  /** The kinds of `io::Error` the reader returns or passes on. */
  datatype IoError = InvalidInput | WouldBlock | Other

  /**
   * `OperationState`: not yet started, a read finished with its buffer, or
   * a read submitted and not yet collected.
   */
  datatype OperationState =
    | NotStarted(config: ReadRangeConfig)
    | Ready(range: ReadRange, buffer: seq<byte>)
    | Reading(range: ReadRange)

  /** `BUFFER_MAX_SIZE`: the buffer size hint `Reader::open` uses. */
  const BufferMaxSize: nat := 400_000

  /**
   * `normalize_range`: no range means the whole file; a range is cut to
   * the file, its start to the last byte. The source computes
   * `file_size - 1`, which has no value for an empty file.
   */
  function NormalizeRange(fileSize: nat, range: Option<Range>): (r: Range)
    requires fileSize > 0
    ensures r.start < fileSize && r.end <= fileSize
    ensures range.None? ==> r == Range(0, fileSize)
    ensures range.Some? && range.value.start < fileSize && range.value.end <= fileSize ==> r == range.value
  {
    var requested := if range.Some? then range.value else Range(0, fileSize);
    Range(Min(requested.start, fileSize - 1), Min(requested.end, fileSize))
  }

  /**
   * `buffer_block_size`: the blocks of a buffer for the smaller of the hint
   * and the range. The source subtracts the range's start from its end.
   */
  function BufferBlockSize(range: Range, bufferSizeHint: nat, blockSize: u16): (r: nat)
    requires blockSize > 0 && range.start <= range.end
    ensures r == 0 <==> bufferSizeHint == 0 || range.start == range.end
  {
    BlockCount(Min(bufferSizeHint, range.end - range.start), blockSize)
  }

  /**
   * The buffer holds the smaller of the hint and the range, and is one
   * block short of holding it no more; it is empty only when that is.
   */
  lemma BufferBlockSizeFits(range: Range, bufferSizeHint: nat, blockSize: u16)
    requires blockSize > 0 && range.start <= range.end
    ensures var want, c := Min(bufferSizeHint, range.end - range.start), BufferBlockSize(range, bufferSizeHint, blockSize);
      && want <= c * blockSize
      && (c > 0 ==> (c - 1) * blockSize < want)
      && (c == 0 <==> want == 0)
  {
    BlockCountCovers(Min(bufferSizeHint, range.end - range.start), blockSize);
  }

  /** The bytes a direct read of `o` puts in the buffer: those of the file, up to its end. */
  function ReadOf(file: seq<byte>, o: Range): seq<byte>
    requires o.start <= o.end && o.start <= |file|
  {
    file[o.start..Min(o.end, |file|)]
  }

  /** The bytes `file` holds at the positions `spans` name, one span after the other. */
  function Pieces(file: seq<byte>, spans: seq<Range>): seq<byte>
    requires forall i :: 0 <= i < |spans| ==> spans[i].start <= spans[i].end <= |file|
  {
    if spans == [] then [] else file[spans[0].start..spans[0].end] + Pieces(file, spans[1..])
  }

  /** Spans that tile `lo` to `hi` of the file pick out exactly the bytes from `lo` to `hi`. */
  lemma {:induction false} TilingReadsAll(file: seq<byte>, spans: seq<Range>, lo: nat, hi: nat)
    requires Tiling(spans, lo, hi) && hi <= |file|
    ensures forall i :: 0 <= i < |spans| ==> spans[i].start <= spans[i].end <= |file|
    ensures lo <= hi && Pieces(file, spans) == file[lo..hi]
    decreases |spans|
  {
    if spans != [] {
      TilingReadsAll(file, spans[1..], spans[0].end, hi);
      forall i | 0 <= i < |spans| ensures spans[i].start <= spans[i].end <= |file| {
        if i > 0 {
          assert spans[i] == spans[1..][i - 1];
        }
      }
      assert file[lo..hi] == file[lo..spans[0].end] + file[spans[0].end..hi];
    }
  }

  /**
   * Reading a non-empty range to its end: the bytes the operations hand
   * out, one after the other, are the bytes of the range.
   */
  lemma ReadsWholeRange(file: seq<byte>, config: ReadRangeConfig)
    requires config.blockSize > 0 && config.bufferBlockCapacity > 0
    requires config.total.start < config.total.end <= |file|
    ensures var first := FirstRange(config);
      && first.Some? && Valid(first.value)
      && (forall i :: 0 <= i < |Chunks(first.value)| ==>
            Chunks(first.value)[i].start <= Chunks(first.value)[i].end <= |file|)
      && Pieces(file, Chunks(first.value)) == file[config.total.start..config.total.end]
  {
    RangeCovered(config);
    TilingReadsAll(file, Chunks(FirstRange(config).value), config.total.start, config.total.end);
  }

  /** The range an operation state reads, if it has one. */
  function TotalOf(state: OperationState): Range
  {
    match state
    case NotStarted(config) => config.total
    case Ready(range, _) => range.total
    case Reading(range) => range.total
  }

  /**
   * The block size is set, the range lies in the file, and a state past
   * `first_range` holds a window of that range.
   */
  ghost predicate StateValid(state: Option<OperationState>, file: seq<byte>)
  {
    match state
    case None => true
    case Some(NotStarted(config)) =>
      && config.blockSize > 0 && config.total.start <= config.total.end <= |file|
      && (config.total.start < config.total.end ==> config.bufferBlockCapacity > 0)
    case Some(Ready(range, buffer)) =>
      && ReadRanges.Valid(range) && range.total.end <= |file|
      && buffer == ReadOf(file, OperationRange(range))
    case Some(Reading(range)) => ReadRanges.Valid(range) && range.total.end <= |file|
  }

  /**
   * The state `try_queue_read` leaves and its result: the first or the
   * next window is submitted, a read in flight is kept, and the end or a
   * failed submission clears the state.
   */
  function QueueRead(state: Option<OperationState>, file: seq<byte>, submit: Result<(), IoError>)
    : (Option<OperationState>, Result<bool, IoError>)
    requires StateValid(state, file)
  {
    match state
    case None => (None, Ok(false))
    case Some(Reading(_)) => (state, Ok(true))
    case Some(NotStarted(config)) => Submit(FirstRange(config), submit)
    case Some(Ready(range, _)) => Submit(Next(range), submit)
  }

  /** Submitting the next window, if there is one. */
  function Submit(next: Option<ReadRange>, submit: Result<(), IoError>): (Option<OperationState>, Result<bool, IoError>)
  {
    if next.None? then (None, Ok(false))
    else if submit.Err? then (None, Err(submit.error))
    else (Some(Reading(next.value)), Ok(true))
  }

  /**
   * The state `try_get_read_bytes` leaves and its result: a read in
   * flight is collected, and a finished read hands out the bytes of the
   * file it delivers.
   */
  function GetReadBytes(state: Option<OperationState>, file: seq<byte>, completion: Result<(), IoError>)
    : (Option<OperationState>, Result<seq<byte>, IoError>)
    requires StateValid(state, file)
  {
    match state
    case None => (None, Err(Other))
    case Some(NotStarted(_)) => (state, Err(Other))
    case Some(Ready(range, _)) => (state, Ok(file[Delivered(range).start..Delivered(range).end]))
    case Some(Reading(range)) =>
      if completion.Err? then (None, Err(completion.error))
      else (Some(Ready(range, ReadOf(file, OperationRange(range)))),
            Ok(file[Delivered(range).start..Delivered(range).end]))
  }

  class Reader {
    var state: Option<OperationState>
    /** The file, as direct IO reads it. */
    const file: seq<byte>

    /**
     * The block size is set, the range lies in the file, and a reader
     * past `first_range` holds a window of that range.
     */
    ghost predicate Valid()
      reads this
    {
      StateValid(state, file)
    }

    /**
     * `Reader::new_with_buffer_size_hint` after the file was opened: the
     * range is normalized, the buffer sized in blocks of the file system's
     * block size, and no read is started. The source casts the block
     * capacity to `u16`; here it must fit.
     */
    constructor(file: seq<byte>, range: Option<Range>, blockSize: u16, bufferSizeHint: nat)
      requires |file| > 0 && blockSize > 0 && bufferSizeHint > 0
      requires NormalizeRange(|file|, range).start <= NormalizeRange(|file|, range).end
      requires BufferBlockSize(NormalizeRange(|file|, range), bufferSizeHint, blockSize) < 0x1_0000
      ensures Valid() && this.file == file
      ensures state == Some(NotStarted(ReadRangeConfig(NormalizeRange(|file|, range), blockSize,
                                                       BufferBlockSize(NormalizeRange(|file|, range), bufferSizeHint, blockSize))))
    {
      var normalized := NormalizeRange(|file|, range);
      var capacity := BufferBlockSize(normalized, bufferSizeHint, blockSize);
      BufferBlockSizeFits(normalized, bufferSizeHint, blockSize);
      this.file := file;
      state := Some(NotStarted(ReadRangeConfig(normalized, blockSize, capacity)));
    }

    /**
     * `Reader::new_with_buffer_size_hint` from the start: `openOutcome` is the
     * outcome of opening and `stat`ing the path, `isRegular` whether the
     * path names a regular file, `stBlksize` the file system's block size
     * (which the source truncates to `u16` wherever it uses it) and `setUp`
     * the outcome of creating the AIO context and the event descriptor.
     * A failed open passes its error on, a path that is not a regular file
     * is refused with `InvalidInput`, and otherwise the reader starts as
     * the constructor leaves it.
     */
    static method Open(file: seq<byte>, openOutcome: Result<(), IoError>, isRegular: bool, range: Option<Range>,
                       stBlksize: nat, bufferSizeHint: nat, setUp: Result<(), IoError>)
      returns (r: Result<Reader, IoError>)
      requires openOutcome.Ok? && isRegular ==>
        |file| > 0 && stBlksize % 0x1_0000 > 0 && bufferSizeHint > 0 &&
        NormalizeRange(|file|, range).start <= NormalizeRange(|file|, range).end &&
        BufferBlockSize(NormalizeRange(|file|, range), bufferSizeHint, stBlksize % 0x1_0000) < 0x1_0000
      ensures openOutcome.Err? ==> r == Err(openOutcome.error)
      ensures openOutcome.Ok? && !isRegular ==> r == Err(InvalidInput)
      ensures openOutcome.Ok? && isRegular && setUp.Err? ==> r == Err(setUp.error)
      ensures openOutcome.Ok? && isRegular && setUp.Ok? ==>
        r.Ok? && fresh(r.value) && r.value.Valid() && r.value.file == file &&
        r.value.state == Some(NotStarted(ReadRangeConfig(
          NormalizeRange(|file|, range), stBlksize % 0x1_0000,
          BufferBlockSize(NormalizeRange(|file|, range), bufferSizeHint, stBlksize % 0x1_0000))))
    {
      if openOutcome.Err? {
        return Err(openOutcome.error);
      }
      if !isRegular {
        return Err(InvalidInput);
      }
      var blockSize: u16 := stBlksize % 0x1_0000;
      var reader := new Reader(file, range, blockSize, bufferSizeHint);
      if setUp.Err? {
        return Err(setUp.error);
      }
      r := Ok(reader);
    }

    /**
     * `request_size`: the length of the range being read, until the end
     * or an error has cleared the state.
     */
    function RequestSize(): (r: Result<nat, IoError>)
      requires Valid()
      reads this
      ensures r.Err? <==> state.None?
      ensures r.Err? ==> r.error == Other
      ensures r.Ok? ==> r.value + TotalOf(state.value).start == TotalOf(state.value).end
    {
      match state
      case None => Err(Other)
      case Some(s) => Ok(TotalOf(s).end - TotalOf(s).start)
    }

    /**
     * `try_queue_read`: before the first read, submits the first
     * operation; after a finished read, the next one; with a read in
     * flight, does nothing. `submit` is the answer of `io_submit`. The
     * result is `Ok(true)` exactly when a read is then in flight, `Ok(false)`
     * at the end, and the submission's error when it fails.
     */
    method TryQueueRead(submit: Result<(), IoError>) returns (r: Result<bool, IoError>)
      requires Valid()
      modifies this
      ensures Valid()
      ensures r.Ok? ==> (r.value <==> state.Some?)
      ensures r == Ok(true) <==> state.Some? && state.value.Reading?
      ensures state.Some? ==> old(state).Some? && TotalOf(state.value) == TotalOf(old(state).value)
      ensures (state, r) == QueueRead(old(state), file, submit)
    {
      var current := state;
      state := None;
      var next: Option<ReadRange>;
      match current {
        case None =>
          return Ok(false);
        case Some(Reading(_)) =>
          state := current;
          return Ok(true);
        case Some(NotStarted(config)) =>
          next := FirstRange(config);
        case Some(Ready(range, _)) =>
          next := Next(range);
      }
      if next.None? {
        return Ok(false);
      }
      if submit.Err? {
        return Err(submit.error);
      }
      state := Some(Reading(next.value));
      r := Ok(true);
    }

    /**
     * `try_get_read_bytes`: first collects the completion of a read in
     * flight (`completion` is what `io_getevents` and the read result
     * give), then hands out the bytes of the finished read that lie in
     * the range: the file's bytes at the positions this operation
     * delivers. A finished read stays finished, so asking again gives the
     * same bytes.
     */
    method TryGetReadBytes(completion: Result<(), IoError>) returns (r: Result<seq<byte>, IoError>)
      requires Valid()
      modifies this
      ensures Valid()
      ensures state.Some? ==> old(state).Some? && TotalOf(state.value) == TotalOf(old(state).value)
      ensures (state, r) == GetReadBytes(old(state), file, completion)
    {
      if state.Some? && state.value.Reading? {
        var range := state.value.range;
        state := None;
        if completion.Err? {
          return Err(completion.error);
        }
        state := Some(Ready(range, ReadOf(file, OperationRange(range))));
      }
      match state {
        case None =>
          r := Err(Other);
        case Some(NotStarted(_)) =>
          r := Err(Other);
        case Some(Reading(_)) =>
          // the completion was collected above, so no read is in flight here
          r := Err(WouldBlock);
        case Some(Ready(range, buffer)) =>
          var b := BufferRange(range);
          DeliveredBytes(file, range);
          r := Ok(buffer[b.start..b.end]);
      }
    }
  }

  /** The part of a finished read's buffer that `buffer_range` names holds the delivered bytes of the file. */
  lemma DeliveredBytes(file: seq<byte>, range: ReadRange)
    requires ReadRanges.Valid(range) && range.total.end <= |file|
    ensures var o, b, d := OperationRange(range), BufferRange(range), Delivered(range);
      && b.start <= b.end <= |ReadOf(file, o)|
      && ReadOf(file, o)[b.start..b.end] == file[d.start..d.end]
  {
    var o, b, d := OperationRange(range), BufferRange(range), Delivered(range);
    SliceOfSlice(file, o.start, Min(o.end, |file|), b.start, b.end);
  }

  /** A slice of a slice is a slice. */
  lemma SliceOfSlice(s: seq<byte>, lo: nat, hi: nat, a: nat, b: nat)
    requires lo <= hi <= |s| && a <= b <= hi - lo
    ensures s[lo..hi][a..b] == s[lo + a..lo + b]
  {
    forall k | 0 <= k < b - a ensures s[lo..hi][a..b][k] == s[lo + a..lo + b][k] {
      assert s[lo..hi][a..b][k] == s[lo..hi][a + k];
    }
  }
}
