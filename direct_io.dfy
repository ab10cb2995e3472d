/**
 * The block arithmetic and the error convention of the direct-IO file
 * source (src/io/sources/file/linux/mod.rs): with `O_DIRECT`, read
 * offsets and sizes are whole blocks, so byte positions are turned into
 * block numbers, rounding down for an offset and up for a count; a libc
 * handle of -1 stands for the error the OS last reported.
 */
module DirectIo {
  import opened Wrappers
  import opened Arith

  /** `bytes_as_block_offset`: the block that holds byte `byteOffset`. */
  function BlockOffset(byteOffset: nat, blockSize: u16): (r: nat)
    requires blockSize > 0
    ensures r * blockSize <= byteOffset < (r + 1) * blockSize
  {
    byteOffset / blockSize
  }

  /**
   * `bytes_as_block_count`: the number of blocks that hold the first
   * `byteOffset` bytes, one more than the block offset unless the bytes
   * end on a block boundary.
   */
  function BlockCount(byteOffset: nat, blockSize: u16): (r: nat)
    requires blockSize > 0
    ensures r == (byteOffset + blockSize - 1) / blockSize
    ensures r == 0 <==> byteOffset == 0
  {
    CeilOfQuotient(byteOffset, blockSize);
    if byteOffset % blockSize != 0 then BlockOffset(byteOffset, blockSize) + 1 else BlockOffset(byteOffset, blockSize)
  }

  /**
   * The block count is the least number of blocks covering the bytes: they
   * fit in `r` blocks and not in `r - 1`, and `r` blocks hold exactly the
   * bytes when these end on a block boundary.
   */
  lemma BlockCountCovers(byteOffset: nat, blockSize: u16)
    requires blockSize > 0
    ensures var r := BlockCount(byteOffset, blockSize);
      && byteOffset <= r * blockSize
      && (r > 0 ==> (r - 1) * blockSize < byteOffset)
      && (r == 0 <==> byteOffset == 0)
      && (r * blockSize == byteOffset <==> byteOffset % blockSize == 0)
  {
    var q := BlockOffset(byteOffset, blockSize);
    var m := byteOffset % blockSize;
    assert byteOffset == q * blockSize + m;
    if m != 0 {
      assert (q + 1) * blockSize == q * blockSize + blockSize;
    }
  }

  /** The block count of a whole number of blocks is that number. */
  lemma BlockCountOfBlocks(blocks: nat, blockSize: u16)
    requires blockSize > 0
    ensures BlockCount(blocks * blockSize, blockSize) == blocks
  {
    DivMod(blocks * blockSize, blockSize, blocks, 0);
  }

  /** Block `k` starts before byte `byteOffset` exactly when it is one of the blocks that hold the bytes before it. */
  lemma BlockBeforeEnd(byteOffset: nat, blockSize: u16, k: nat)
    requires blockSize > 0
    ensures k < BlockCount(byteOffset, blockSize) <==> k * blockSize < byteOffset
  {
    var r := BlockCount(byteOffset, blockSize);
    BlockCountCovers(byteOffset, blockSize);
    if k < r {
      MulMonotone(k, r - 1, blockSize);
    } else {
      MulMonotone(r, k, blockSize);
    }
  }

  /** Block `k` ends after byte `byteOffset` exactly when it is the block holding it or a later one. */
  lemma BlockAfterOffset(byteOffset: nat, blockSize: u16, k: nat)
    requires blockSize > 0
    ensures BlockOffset(byteOffset, blockSize) <= k <==> byteOffset < (k + 1) * blockSize
  {
    var q := BlockOffset(byteOffset, blockSize);
    if q <= k {
      MulMonotone(q + 1, k + 1, blockSize);
    } else {
      MulMonotone(k + 1, q, blockSize);
    }
  }

  /** `to_result`: a handle of -1 is the error last reported, any other handle is kept. */
  function ToResult(handle: int, lastOsError: int): (r: Result<int, int>)
    ensures r.Err? <==> handle == -1
    ensures r.Err? ==> r.error == lastOsError
    ensures r.Ok? ==> r.value == handle
  {
    if handle == -1 then Err(lastOsError) else Ok(handle)
  }
}
