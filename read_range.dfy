/**
 * `ReadRangeConfig` and `ReadRange` (src/io/sources/file/linux/readrange.rs):
 * a byte range of a file read with direct IO is cut into operations that
 * start and end on block boundaries and read at most
 * `buffer_block_capacity` blocks each; for every operation the buffer
 * range says which bytes of the read buffer belong to the requested range.
 */
module ReadRanges {
  import opened Wrappers
  import opened Arith
  import opened DirectIo

  /** `Range<usize>`: the bytes from `start` up to, not including, `end`. */
  datatype Range = Range(start: nat, end: nat)

  datatype ReadRangeConfig = ReadRangeConfig(total: Range, blockSize: u16, bufferBlockCapacity: u16)

  /** One read operation: the window of blocks from `blockOffset` on. */
  datatype ReadRange = ReadRange(total: Range, blockSize: u16, bufferBlockCapacity: u16, blockOffset: nat)

  /** Byte `i` lies in `range`. */
  predicate Within(range: Range, i: nat)
  {
    range.start <= i < range.end
  }

  /** `ReadRangeConfig::buffer_size`: the bytes of the largest operation. */
  function BufferSize(config: ReadRangeConfig): nat
  {
    config.blockSize * config.bufferBlockCapacity
  }

  /**
   * `first_range`: no operation for an empty range; otherwise the window
   * begins at the block that holds the first byte.
   */
  function FirstRange(config: ReadRangeConfig): (r: Option<ReadRange>)
    requires config.blockSize > 0
    ensures r.None? <==> config.total.start == config.total.end
    ensures r.Some? ==>
      && r.value.total == config.total && r.value.blockSize == config.blockSize
      && r.value.bufferBlockCapacity == config.bufferBlockCapacity
      && r.value.blockOffset * config.blockSize <= config.total.start < (r.value.blockOffset + 1) * config.blockSize
    ensures r.Some? && config.total.start < config.total.end && config.bufferBlockCapacity > 0 ==> Valid(r.value)
  {
    if config.total.start == config.total.end then None
    else
      var blockOffset := BlockOffset(config.total.start, config.blockSize);
      BlockBeforeEnd(config.total.end, config.blockSize, blockOffset);
      Some(ReadRange(config.total, config.blockSize, config.bufferBlockCapacity, blockOffset))
  }

  /** The blocks that hold the bytes of the whole range, counted from the start of the file. */
  function TotalBlocks(r: ReadRange): nat
    requires r.blockSize > 0
  {
    BlockCount(r.total.end, r.blockSize)
  }

  /**
   * What `first_range` and `next` keep true of a window on a non-empty
   * range: it starts at or after the block holding the first byte and
   * before the last block, and every operation reads at least one block.
   */
  predicate Valid(r: ReadRange)
  {
    && r.blockSize > 0 && r.bufferBlockCapacity > 0
    && r.total.start < r.total.end
    && BlockOffset(r.total.start, r.blockSize) <= r.blockOffset < TotalBlocks(r)
  }

  /**
   * `block_count`: the blocks this operation reads, the buffer's capacity
   * or the blocks left before the end of the range, whichever is fewer.
   * The subtraction needs the window not to start past the last block.
   */
  function RangeBlockCount(r: ReadRange): (c: nat)
    requires r.blockSize > 0 && r.blockOffset <= TotalBlocks(r)
    ensures c <= r.bufferBlockCapacity && r.blockOffset + c <= TotalBlocks(r)
    ensures c == r.bufferBlockCapacity || r.blockOffset + c == TotalBlocks(r)
  {
    Min(r.bufferBlockCapacity, TotalBlocks(r) - r.blockOffset)
  }

  /**
   * `operation_range`: the bytes the operation reads, whole blocks from
   * the window's first block, never more than the buffer holds and never
   * past the block that holds the last byte of the range.
   */
  function OperationRange(r: ReadRange): (o: Range)
    requires r.blockSize > 0 && r.blockOffset <= TotalBlocks(r)
    ensures o.start == r.blockOffset * r.blockSize && o.end == (r.blockOffset + RangeBlockCount(r)) * r.blockSize
    ensures o.start <= o.end && o.start % r.blockSize == 0 && o.end % r.blockSize == 0
    ensures o.end - o.start <= r.blockSize * r.bufferBlockCapacity
    ensures o.end <= TotalBlocks(r) * r.blockSize
    ensures r.blockOffset < TotalBlocks(r) ==> o.start < r.total.end
  {
    BlockBeforeEnd(r.total.end, r.blockSize, r.blockOffset);
    var c := RangeBlockCount(r);
    WindowBounds(r.blockOffset, c, r.bufferBlockCapacity, TotalBlocks(r), r.blockSize);
    Range(r.blockOffset * r.blockSize, (r.blockOffset + c) * r.blockSize)
  }

  /**
   * A window of `count` blocks from block `first`, no more than `capacity`
   * and ending by block `last`, spans whole blocks within those bounds.
   */
  lemma WindowBounds(first: nat, count: nat, capacity: nat, last: nat, blockSize: nat)
    requires blockSize > 0 && count <= capacity && first + count <= last
    ensures first * blockSize <= (first + count) * blockSize
    ensures (first * blockSize) % blockSize == 0 && ((first + count) * blockSize) % blockSize == 0
    ensures (first + count) * blockSize - first * blockSize <= blockSize * capacity
    ensures (first + count) * blockSize <= last * blockSize
  {
    assert (first + count) * blockSize == first * blockSize + count * blockSize;
    MulMonotone(count, capacity, blockSize);
    MulMonotone(first + count, last, blockSize);
    DivMod(first * blockSize, blockSize, first, 0);
    DivMod((first + count) * blockSize, blockSize, first + count, 0);
  }

  /**
   * The part of `total` that `o` holds, as positions within `o`: byte
   * `o.start + i` is in both exactly when `i` lies in the result.
   */
  function Clip(o: Range, total: Range): (b: Range)
    requires o.start <= o.end && o.start <= total.end
    ensures o.start + b.start == Max(o.start, total.start) && o.start + b.end == Min(o.end, total.end)
    ensures forall i: nat :: Within(b, i) <==> i < o.end - o.start && Within(total, o.start + i)
  {
    Range(Max(o.start, total.start) - o.start, Min(o.end, total.end) - o.start)
  }

  /**
   * `buffer_range`: the positions in the read buffer of the bytes of the
   * operation that lie in the requested range. The subtractions need the
   * window to start no later than the range ends.
   */
  function BufferRange(r: ReadRange): (b: Range)
    requires r.blockSize > 0 && r.blockOffset <= TotalBlocks(r) && r.blockOffset * r.blockSize <= r.total.end
    ensures var o := OperationRange(r);
      forall i: nat :: Within(b, i) <==> i < o.end - o.start && Within(r.total, o.start + i)
  {
    Clip(OperationRange(r), r.total)
  }

  /**
   * `next`: no further operation once this one reaches the end of the
   * range; otherwise the window moves past the blocks just read.
   */
  function Next(r: ReadRange): (n: Option<ReadRange>)
    requires r.blockSize > 0 && r.blockOffset <= TotalBlocks(r)
    ensures n.None? <==> OperationRange(r).end >= r.total.end
    ensures n.Some? ==>
      && n.value.total == r.total && n.value.blockSize == r.blockSize
      && n.value.bufferBlockCapacity == r.bufferBlockCapacity
      && n.value.blockOffset == r.blockOffset + RangeBlockCount(r) <= TotalBlocks(n.value)
      && OperationRange(n.value).start == OperationRange(r).end
    ensures n.Some? && Valid(r) ==> Valid(n.value) && n.value.blockOffset > r.blockOffset
  {
    if OperationRange(r).end >= r.total.end then None
    else
      var n := ReadRange(r.total, r.blockSize, r.bufferBlockCapacity, r.blockOffset + RangeBlockCount(r));
      NextWindow(r, n);
      Some(n)
  }

  /** The window after `r` starts where the operation of `r` ends, and stays valid. */
  lemma NextWindow(r: ReadRange, n: ReadRange)
    requires r.blockSize > 0 && r.blockOffset <= TotalBlocks(r) && OperationRange(r).end < r.total.end
    requires n == r.(blockOffset := r.blockOffset + RangeBlockCount(r))
    ensures n.blockOffset <= TotalBlocks(n) && OperationRange(n).start == OperationRange(r).end
    ensures Valid(r) ==> Valid(n) && n.blockOffset > r.blockOffset
  {
    BlockBeforeEnd(r.total.end, r.blockSize, n.blockOffset);
  }

  /**
   * The bytes of the requested range that one operation delivers, as file
   * positions: from where the operation meets the range to where either of
   * them ends, never none.
   */
  function Delivered(r: ReadRange): (d: Range)
    requires Valid(r)
    ensures var o := OperationRange(r);
      d.start == Max(o.start, r.total.start) < d.end == Min(o.end, r.total.end)
    ensures r.total.start <= d.start < d.end <= r.total.end
  {
    BlockBeforeEnd(r.total.end, r.blockSize, r.blockOffset);
    BlockAfterOffset(r.total.start, r.blockSize, r.blockOffset);
    MulMonotone(r.blockOffset + 1, r.blockOffset + RangeBlockCount(r), r.blockSize);
    var o := OperationRange(r);
    var b := BufferRange(r);
    Range(o.start + b.start, o.start + b.end)
  }

  /** The bytes every operation from `r` on delivers, in order. */
  function Chunks(r: ReadRange): seq<Range>
    requires Valid(r)
    decreases TotalBlocks(r) - r.blockOffset
  {
    var n := Next(r);
    if n.None? then [Delivered(r)]
    else [Delivered(r)] + Chunks(n.value)
  }

  /** `spans` are non-empty, follow each other without gap or overlap, and make up `lo` to `hi`. */
  predicate Tiling(spans: seq<Range>, lo: nat, hi: nat)
  {
    if spans == [] then lo == hi
    else spans[0].start == lo < spans[0].end && Tiling(spans[1..], spans[0].end, hi)
  }

  /**
   * The operations from a valid window on deliver, without gap, overlap
   * or empty read, every byte from where the window first meets the
   * range to the end of the range.
   */
  lemma {:induction false} ChunksTile(r: ReadRange)
    requires Valid(r)
    ensures Tiling(Chunks(r), Max(OperationRange(r).start, r.total.start), r.total.end)
    decreases TotalBlocks(r) - r.blockOffset
  {
    var n := Next(r);
    if n.Some? {
      ChunksTile(n.value);
      assert Chunks(r)[1..] == Chunks(n.value);
    }
  }

  /**
   * Reading a non-empty range with a buffer of at least one block: the
   * operations from `first_range` on deliver every byte of the range
   * exactly once, in order.
   */
  lemma RangeCovered(config: ReadRangeConfig)
    requires config.blockSize > 0 && config.bufferBlockCapacity > 0
    requires config.total.start < config.total.end
    ensures var first := FirstRange(config);
      first.Some? && Valid(first.value) && Tiling(Chunks(first.value), config.total.start, config.total.end)
  {
    var first := FirstRange(config).value;
    ChunksTile(first);
  }

  /**
   * Bytes 100 to 10000 in blocks of 4096, two at a time: the first
   * operation reads blocks 0 and 1 and keeps them from byte 100 on.
   */
  lemma NonAlignedBeginFirst()
    ensures FirstRange(ReadRangeConfig(Range(100, 10_000), 4096, 2)) == Some(ReadRange(Range(100, 10_000), 4096, 2, 0))
    ensures var r := ReadRange(Range(100, 10_000), 4096, 2, 0);
      TotalBlocks(r) == 3 && OperationRange(r) == Range(0, 8192) && BufferRange(r) == Range(100, 8192)
  {
    var r := ReadRange(Range(100, 10_000), 4096, 2, 0);
    assert BlockOffset(100, 4096) == 0;
    assert TotalBlocks(r) == 3 by {
      DivMod(10_000, 4096, 2, 1808);
    }
    assert RangeBlockCount(r) == 2;
  }

  /** After the first operation the window moves to block 2. */
  lemma NonAlignedBeginNext()
    ensures var first := ReadRange(Range(100, 10_000), 4096, 2, 0);
      TotalBlocks(first) == 3 && Next(first) == Some(first.(blockOffset := 2))
  {
    var first := ReadRange(Range(100, 10_000), 4096, 2, 0);
    assert TotalBlocks(first) == 3 by {
      DivMod(10_000, 4096, 2, 1808);
    }
    assert RangeBlockCount(first) == 2;
    assert OperationRange(first).end == 8192;
  }

  /** The second operation reads block 2 and keeps its first 1808 bytes; there is no third. */
  lemma NonAlignedBeginSecond()
    ensures var r := ReadRange(Range(100, 10_000), 4096, 2, 2);
      && TotalBlocks(r) == 3
      && OperationRange(r) == Range(8192, 12_288) && BufferRange(r) == Range(0, 1808) && Next(r).None?
  {
    var r := ReadRange(Range(100, 10_000), 4096, 2, 2);
    assert TotalBlocks(r) == 3 by {
      DivMod(10_000, 4096, 2, 1808);
    }
    assert RangeBlockCount(r) == 1;
    assert OperationRange(r) == Range(8192, 12_288);
  }
}
