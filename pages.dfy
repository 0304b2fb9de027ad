/** The page range that `set_pages_executable` hands to `mprotect` for the bytes [ptr, ptr + length)
    of an executable section: the start rounded down and the end rounded up to whole pages. */
module Pages {
  import opened Common
  import opened Arith
  import opened Bits

  /** PAGESIZE when the platform does not define it. */
  const PAGESIZE: nat := 4096

  /** `~(PAGESIZE - 1)` as an `addr_t`: every bit but the low twelve. */
  const PAGE_MASK: nat := WORD_MOD - PAGESIZE

  /** `x & ~(PAGESIZE - 1)` clears the offset within the page. */
  lemma PageMaskClears(x: Word)
    ensures BitAnd(x, PAGE_MASK) == x - x % PAGESIZE
  {
    WidthsArePow2();
    BitAndHigh(x, WORD_MOD, PAGESIZE);
  }

  /** `x & ~(PAGESIZE - 1)` is x rounded down to a page boundary, and lies within one page below x. */
  lemma RoundDown(x: Word)
    ensures BitAnd(x, PAGE_MASK) % PAGESIZE == 0
    ensures x - PAGESIZE < BitAnd(x, PAGE_MASK) <= x
  {
    PageMaskClears(x);
    DownMultiple(x, PAGESIZE);
  }

  /** The end of the range: ptr + length rounded up to a page, when the sum plus PAGESIZE - 1
      does not wrap, is the first page boundary at or above ptr + length. */
  lemma RoundUpEnd(ptr: Word, length: Word, end: Word)
    requires ptr + length + PAGESIZE - 1 < WORD_MOD
    requires end == BitAnd(((ptr + length) % WORD_MOD + PAGESIZE - 1) % WORD_MOD, PAGE_MASK)
    ensures end % PAGESIZE == 0 && ptr + length <= end < ptr + length + PAGESIZE
  {
    var last := ptr + length + PAGESIZE - 1;
    assert end == BitAnd(last, PAGE_MASK) by {
      ModSmall(ptr + length, WORD_MOD);
      ModSmall(last, WORD_MOD);
    }
    RoundDown(last);
  }

  /** The protected length `end - start`, as an `addr_t`, between two page boundaries with the
      start below the end: the exact difference, a whole number of pages. */
  lemma PageSpan(start: Word, end: Word, size: Word)
    requires start % PAGESIZE == 0 && end % PAGESIZE == 0 && start <= end
    requires size == (end - start) % WORD_MOD
    ensures size == end - start && size % PAGESIZE == 0
  {
    ModSmall(end - start, WORD_MOD);
    DiffMultiple(end, start, PAGESIZE);
  }

  /** The rounding of `set_pages_executable`. The start is ptr rounded down to a page. The end is
      ptr + length rounded up, both sums in 64-bit arithmetic. The protected length is
      `end - start` as an `addr_t`. When ptr + length + PAGESIZE - 1 does not wrap, the pages
      cover the section and reach less than one page past it on either side. */
  method PageRange(ptr: Word, length: Word) returns (start: Word, end: Word, size: Word)
    ensures start % PAGESIZE == 0 && start <= ptr < start + PAGESIZE
    ensures ptr + length + PAGESIZE - 1 < WORD_MOD ==>
      && end % PAGESIZE == 0
      && ptr + length <= end < ptr + length + PAGESIZE
      && size == end - start && size % PAGESIZE == 0
  {
    start := BitAnd(ptr, PAGE_MASK);
    RoundDown(ptr);
    end := (ptr + length) % WORD_MOD;
    end := BitAnd((end + PAGESIZE - 1) % WORD_MOD, PAGE_MASK);
    size := (end - start) % WORD_MOD;
    if ptr + length + PAGESIZE - 1 < WORD_MOD {
      RoundUpEnd(ptr, length, end);
      PageSpan(start, end, size);
    }
  }
}
