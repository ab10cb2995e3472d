/**
 * `Buffer` (src/buffer/buffer.rs, and the same code again in src/buffer.rs):
 * a borrowed byte array of which the first `used_len` bytes hold data, with
 * `write`, `keep`, `shrink` and `write_into`; and the `BufferPool` of
 * src/buffer.rs, ten slots of 4096 bytes lent out one at a time.
 */
module Buffers {
  import opened Wrappers
  import opened Bytes
  import opened Arith

  /** The errors a `Buffer` reports through `io::Result`. */
  datatype IoError = WriteZero | ReadError

  /** The outcome of `reader.read` into the free tail: the bytes it read, or an error. */
  datatype ReadOutcome = Read(data: seq<byte>) | ReadFailed

  /**
   * The range `keep` moves: both ends clamped to the used length, then put
   * in order.
   */
  function KeepLo(start: nat, end: nat, used: nat): nat
  {
    Min(Min(start, used), Min(end, used))
  }

  function KeepHi(start: nat, end: nat, used: nat): nat
  {
    Max(Min(start, used), Min(end, used))
  }

  /**
   * What `keep(start..end, to)` leaves as the used bytes `c`: the bytes
   * before `to`, then the kept range. `None` when the range would end past
   * the used length, where `keep` changes nothing.
   */
  function Kept(c: seq<byte>, start: nat, end: nat, to: nat): (r: Option<seq<byte>>)
    ensures r.Some? ==> |r.value| == to + KeepHi(start, end, |c|) - KeepLo(start, end, |c|)
  {
    var lo, hi := KeepLo(start, end, |c|), KeepHi(start, end, |c|);
    if to > |c| - (hi - lo) then None else Some(c[..to] + c[lo..hi])
  }

  /** A buffer over `array` whose first `usedLen` bytes are data. */
  class Buffer {
    const data: array<byte>
    var usedLen: nat

    ghost predicate Valid()
      reads this
    {
      usedLen <= data.Length
    }

    /** `as_slice`: the used bytes. */
    function Contents(): (r: seq<byte>)
      reads this, data
      requires Valid()
      ensures |r| == usedLen
    {
      data[..usedLen]
    }

    /** `from_slice` (`new` in src/buffer.rs): nothing used yet. */
    constructor (slice: array<byte>)
      ensures Valid() && data == slice && usedLen == 0 && Contents() == []
    {
      data := slice;
      usedLen := 0;
    }

    /** `remaining`: the room after the used bytes. */
    function Remaining(): (r: nat)
      reads this
      requires Valid()
      ensures r + usedLen == data.Length
    {
      data.Length - usedLen
    }

    /** `len`. */
    function Len(): (r: nat)
      reads this
      requires Valid()
      ensures r == |Contents()|
    {
      usedLen
    }

    /** `as_slice` and `as_mut_slice`. */
    method AsSlice() returns (s: seq<byte>)
      requires Valid()
      ensures s == Contents()
    {
      s := data[..usedLen];
    }

    /**
     * `write`: copies as much of `src` as fits after the used bytes. When
     * nothing can be copied (the buffer is full, or `src` is empty) it fails
     * with `WriteZero` and changes nothing.
     */
    method Write(src: seq<byte>) returns (r: Result<nat, IoError>)
      requires Valid()
      modifies this, data
      ensures Valid()
      ensures Min(old(Remaining()), |src|) == 0 ==> r == Err(WriteZero) && usedLen == old(usedLen) && data[..] == old(data[..])
      ensures Min(old(Remaining()), |src|) > 0 ==>
        && r == Ok(Min(old(Remaining()), |src|))
        && Contents() == old(Contents()) + src[..r.value]
        && data[usedLen..] == old(data[..])[usedLen..]
    {
      var len := Min(data.Length - usedLen, |src|);
      if len == 0 {
        return Err(WriteZero);
      }
      forall i | 0 <= i < len {
        data[usedLen + i] := src[i];
      }
      usedLen := usedLen + len;
      return Ok(len);
    }

    /** `shrink`: the used length becomes at most `newSize`; it never grows. */
    method Shrink(newSize: nat) returns (size: nat)
      requires Valid()
      modifies this
      ensures Valid() && size == usedLen == Min(old(usedLen), newSize)
      ensures Contents() == old(Contents())[..size]
    {
      size := Min(usedLen, newSize);
      usedLen := size;
    }

    /**
     * `keep`: moves the clamped, ordered range to `to` (the source and the
     * target may overlap) and makes the used length end after it; returns
     * the new used length, or 0 without changing anything when it would end
     * past the current used length.
     */
    method Keep(start: nat, end: nat, to: nat) returns (r: nat)
      requires Valid()
      modifies this, data
      ensures Valid()
      ensures Kept(old(Contents()), start, end, to).None? ==>
        r == 0 && usedLen == old(usedLen) && data[..] == old(data[..])
      ensures Kept(old(Contents()), start, end, to).Some? ==>
        && r == usedLen && Contents() == Kept(old(Contents()), start, end, to).value
        && data[usedLen..] == old(data[..])[usedLen..]
    {
      var lo, hi := KeepLo(start, end, usedLen), KeepHi(start, end, usedLen);
      var len := hi - lo;
      if to > usedLen - len {
        return 0;
      }
      ghost var before := data[..];
      forall k | to <= k < to + len {
        data[k] := data[k - to + lo];
      }
      Moved(before, data[..], lo, to, len, usedLen);
      usedLen := to + len;
      return usedLen;
    }

    /**
     * `write_into`: the reader reads into the free tail; what it read
     * becomes used. An error leaves the used length as it was. A reader
     * reading more than the room it was given fails the `assert!`.
     */
    method WriteInto(read: ReadOutcome) returns (r: Result<nat, IoError>)
      requires Valid() && (read.Read? ==> |read.data| <= Remaining())
      modifies this, data
      ensures Valid()
      ensures read.ReadFailed? ==> r == Err(ReadError) && usedLen == old(usedLen) && Contents() == old(Contents())
      ensures read.Read? ==>
        r == Ok(|read.data|) && Contents() == old(Contents()) + read.data
    {
      if read.ReadFailed? {
        return Err(ReadError);
      }
      var bytes := read.data;
      forall i | 0 <= i < |bytes| {
        data[usedLen + i] := bytes[i];
      }
      usedLen := usedLen + |bytes|;
      return Ok(|bytes|);
    }
  }

  /**
   * Moving `len` bytes from `lo` to `to` within the first `used` bytes of
   * `a`, giving `b`: the bytes before `to` stay, then come the moved ones,
   * and everything after them stays.
   */
  lemma Moved(a: seq<byte>, b: seq<byte>, lo: nat, to: nat, len: nat, used: nat)
    requires |a| == |b| && used <= |a| && lo + len <= used && to + len <= used
    requires forall k :: to <= k < to + len ==> b[k] == a[k - to + lo]
    requires forall k :: 0 <= k < |a| && !(to <= k < to + len) ==> b[k] == a[k]
    ensures b[..to + len] == a[..used][..to] + a[..used][lo..lo + len]
    ensures b[to + len..] == a[to + len..]
  {
    assert forall k :: 0 <= k < to ==> b[k] == a[k];
  }

  /**
   * The ends of the range may come in either order, and ends past the used
   * length count as that length. Kept at 0, an ordered range within the
   * used bytes becomes the whole contents: dropping a prefix and keeping
   * everything are the cases `start..|c|` and `0..|c|`.
   */
  lemma KeepRangeNormalised(c: seq<byte>, start: nat, end: nat, to: nat)
    ensures Kept(c, start, end, to) == Kept(c, end, start, to)
    ensures Kept(c, start, end, to) == Kept(c, Min(start, |c|), Min(end, |c|), to)
    ensures start <= end <= |c| ==> Kept(c, start, end, 0) == Some(c[start..end])
  {
    if start <= end <= |c| {
      assert c[..0] + c[start..end] == c[start..end];
    }
  }

  /**
   * `keep` refuses exactly when the kept range would end past the used
   * length; otherwise its result is the new used length. A refusal and an
   * empty range kept at 0 both return 0.
   */
  lemma KeepRefusal(c: seq<byte>, start: nat, end: nat, to: nat)
    ensures Kept(c, start, end, to).None? <==> to + KeepHi(start, end, |c|) - KeepLo(start, end, |c|) > |c|
    ensures Kept(c, 0, 0, 0) == Some([]) && Kept(c, 0, 0, |c| + 1).None?
  {
  }

  /** The number of slots of a `BufferPool`. */
  const PoolSize: nat := 10

  /** The size of each slot, `Slice4K`. */
  const SlotSize: nat := 4096

  /** `Error::Full`. */
  datatype PoolError = Full

  /** The first slot not lent out, in index order. */
  function FirstFree(borrowed: seq<bool>): (r: Option<nat>)
    ensures r.None? <==> forall i :: 0 <= i < |borrowed| ==> borrowed[i]
    ensures r.Some? ==> r.value < |borrowed| && !borrowed[r.value] && forall i :: 0 <= i < r.value ==> borrowed[i]
  {
    if borrowed == [] then None
    else if !borrowed[0] then Some(0)
    else match FirstFree(borrowed[1..])
      case Some(i) => Some(i + 1)
      case None => None
  }

  /**
   * `BufferPool`: ten slots; `borrowed[i]` is whether slot `i`'s `RefCell`
   * is mutably borrowed.
   */
  class BufferPool {
    const slots: seq<array<byte>>
    var borrowed: seq<bool>

    ghost predicate Valid()
      reads this
    {
      && |slots| == PoolSize && |borrowed| == PoolSize
      && (forall i :: 0 <= i < PoolSize ==> slots[i].Length == SlotSize)
    }

    /** A pool over ten slots of 4096 bytes, none lent out. */
    constructor (buffers: seq<array<byte>>)
      requires |buffers| == PoolSize && forall i :: 0 <= i < PoolSize ==> buffers[i].Length == SlotSize
      ensures Valid() && slots == buffers && borrowed == seq(PoolSize, _ => false)
    {
      slots := buffers;
      borrowed := seq(PoolSize, _ => false);
    }

    /**
     * `borrow_buffer`: an empty buffer over the first slot that is not lent
     * out, which is then lent out; `Full` when all ten are. The size asked
     * for is ignored.
     */
    method BorrowBuffer(minSize: nat) returns (r: Result<Buffer, PoolError>)
      requires Valid()
      modifies this
      ensures Valid()
      ensures r.Err? <==> FirstFree(old(borrowed)).None?
      ensures r.Err? ==> borrowed == old(borrowed)
      ensures r.Ok? ==>
        var i := FirstFree(old(borrowed)).value;
        && fresh(r.value) && r.value.Valid() && r.value.data == slots[i] && r.value.usedLen == 0
        && r.value.data.Length == SlotSize && borrowed == old(borrowed)[i := true]
    {
      for i := 0 to PoolSize
        invariant forall j :: 0 <= j < i ==> borrowed[j]
      {
        if !borrowed[i] {
          borrowed := borrowed[i := true];
          var b := new Buffer(slots[i]);
          return Ok(b);
        }
      }
      return Err(Full);
    }

    /** The end of a borrow: dropping the `RefMut` frees the slot. */
    method Release(i: nat)
      requires Valid() && i < PoolSize
      modifies this
      ensures Valid() && borrowed == old(borrowed)[i := false]
    {
      borrowed := borrowed[i := false];
    }
  }

  /**
   * No slot is lent twice at once: a slot that is lent out is not returned
   * again until it is released, and a released slot is the first candidate
   * when every slot before it is lent out.
   */
  lemma NeverLentTwice(borrowed: seq<bool>, i: nat)
    requires i < |borrowed| && borrowed[i]
    ensures FirstFree(borrowed) != Some(i)
    ensures (forall j :: 0 <= j < i ==> borrowed[j]) ==> FirstFree(borrowed[i := false]) == Some(i)
  {
    if forall j :: 0 <= j < i ==> borrowed[j] {
      var freed := borrowed[i := false];
      assert forall j :: 0 <= j < i ==> freed[j];
      assert !freed[i];
    }
  }
}
