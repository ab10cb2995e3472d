/**
 * The page arithmetic of `PageBuffer` (src/buffer/page_buffer.rs): a buffer
 * of whole pages, at least as large as asked for. The memory itself
 * (`mmap`, `mremap`, `munmap`) is not part of this model; the page size,
 * which comes from `sysconf`, is a parameter.
 */
module PageBuffers {
  import opened Arith

  /** `pages_for_size`: the number of pages `min_size` needs, and at least one. */
  function PagesForSize(pageSize: nat, minSize: nat): (p: nat)
    requires pageSize > 0
    ensures p == Max(1, (minSize + pageSize - 1) / pageSize)
  {
    CeilOfQuotient(minSize, pageSize);
    assert minSize == minSize / pageSize * pageSize + minSize % pageSize;
    var pages := minSize / pageSize;
    if pages * pageSize < minSize || pages == 0 then pages + 1 else pages
  }

  /**
   * `pages_for_size` is the smallest positive number of pages that holds
   * `min_size` bytes: the rounding up of `min_size / page_size`, and 1 for
   * a size of 0.
   */
  lemma PagesForSizeIsCeiling(pageSize: nat, minSize: nat)
    requires pageSize > 0
    ensures var p := PagesForSize(pageSize, minSize);
      && p >= 1 && p * pageSize >= minSize
      && (p == 1 || (p - 1) * pageSize < minSize)
      && (minSize > 0 ==> p == (minSize + pageSize - 1) / pageSize)
  {
    var q := minSize / pageSize;
    QuotientBounds(minSize, pageSize);
    if minSize > 0 {
      if q * pageSize < minSize {
        DivBetween(minSize + pageSize - 1, pageSize, q + 1);
      } else {
        DivBetween(minSize + pageSize - 1, pageSize, q);
      }
    }
  }

  /** `PageBuffer`: `pages` pages of `page_size` bytes. */
  class PageBuffer {
    const pageSize: nat
    var pages: nat

    ghost predicate Valid()
      reads this
    {
      pageSize > 0 && pages >= 1
    }

    /** `size`, which is also the length of `as_slice` and `as_mut_slice`. */
    function Size(): (r: nat)
      reads this
      requires Valid()
      ensures r >= pageSize && r % pageSize == 0
    {
      DivBetween(pages * pageSize, pageSize, pages);
      pages * pageSize
    }

    /** `new`: the pages `min_size` needs. */
    constructor (pageSize: nat, minSize: nat)
      requires pageSize > 0
      ensures Valid() && this.pageSize == pageSize && pages == PagesForSize(pageSize, minSize)
      ensures Size() >= minSize
    {
      this.pageSize := pageSize;
      pages := PagesForSize(pageSize, minSize);
      PagesForSizeIsCeiling(pageSize, minSize);
    }

    /**
     * `resize`: the pages `min_size` needs, which may be fewer than before;
     * the page size stays.
     */
    method Resize(minSize: nat)
      requires Valid()
      modifies this
      ensures Valid() && pages == PagesForSize(pageSize, minSize) && Size() >= minSize
    {
      pages := PagesForSize(pageSize, minSize);
      PagesForSizeIsCeiling(pageSize, minSize);
    }
  }

  /** Resizing to the size of one page shrinks a buffer of several pages to one. */
  lemma ResizeMayShrink(pageSize: nat)
    requires pageSize > 0
    ensures PagesForSize(pageSize, 3 * pageSize) == 3 && PagesForSize(pageSize, pageSize) == 1
    ensures PagesForSize(pageSize, 0) == 1 && PagesForSize(pageSize, pageSize + 1) == 2
  {
    DivBetween(3 * pageSize, pageSize, 3);
    DivBetween(pageSize, pageSize, 1);
    DivBetween(pageSize + 1, pageSize, if pageSize == 1 then 2 else 1);
  }
}
