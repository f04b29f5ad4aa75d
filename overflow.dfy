/** `alloc_impl` with its `usize` arithmetic as the wasm32 target performs
    it: 32 bits, wrapping on overflow (a release build does not check).
    The allocator of module Allocator computes on unbounded naturals
    instead; the lemmas here show where the two part and that below the
    4 GiB boundary they agree. */
module UsizeOverflow {
  import opened Wasm32
  import opened Allocator

  /** Number of distinct `usize` values on wasm32. */
  const USIZE_MODULUS: nat := USIZE_MAX + 1

  /** `alloc_impl` with every addition, subtraction and multiplication of
      lines 69-92 taken modulo 2^32. */
  function AllocImplAsWritten(s: State, size: nat, align: nat): (r: (State, Result<nat>))
    ensures r.1.Ok? ==> r.1.value < USIZE_MODULUS && r.0.ptr < USIZE_MODULUS
  {
    if size == 0 || align == 0 then (s, Err(AllocErr))
    else
      var sz := RoundToAlign(size, align) % USIZE_MODULUS;
      var curPages := s.mem.pages;
      var end := (curPages * PAGE_SIZE) % USIZE_MODULUS;
      var ptr := if s.ptr == 0 then end else s.ptr;
      var total := (ptr + sz) % USIZE_MODULUS;
      if total > end then
        var totalPages := (RoundToAlign(total, PAGE_SIZE) % USIZE_MODULUS) / PAGE_SIZE;
        var pages := (totalPages - curPages) % USIZE_MODULUS;
        var (m', grown) := AllocPagesSpec(s.mem, pages);
        if grown.Err? then (State(ptr, m'), Err(AllocErr))
        else (State(total, m'), Ok((total - sz) % USIZE_MODULUS))
      else (State(total, s.mem), Ok((total - sz) % USIZE_MODULUS))
  }

  /** Line 82 wraps: with the cursor near the top of a 65535-page memory, a
      valid 2 GiB request makes `total_bytes_needed` small, so no page is
      requested, the cursor moves backwards, and the block handed out runs
      past the mapped memory. The unbounded allocator refuses the request
      and changes nothing. */
  lemma CursorWrapsBackwards()
    ensures var s := State(0xFFFE_FFF0, Memory(65535, 65536));
            var (s', r) := AllocImplAsWritten(s, 0x7FFF_FFFF, 1);
            s.Valid()
            && r == Ok(0xFFFE_FFF0) && s'.ptr < s.ptr && s'.mem == s.mem
            && r.value + 0x7FFF_FFFF > s.mem.Capacity()
            && AllocImplSpec(s, 0x7FFF_FFFF, 1) == (s, Err(AllocErr))
  {
    // the 32-bit values of lines 69, 73, 82 and 92
    assert RoundToAlign(0x7FFF_FFFF, 1) == 0x7FFF_FFFF;
    assert (65535 * PAGE_SIZE) % USIZE_MODULUS == 0xFFFF_0000;
    assert (0xFFFE_FFF0 + 0x7FFF_FFFF) % USIZE_MODULUS == 0x7FFE_FFEF;
    assert (0x7FFE_FFEF - 0x7FFF_FFFF) % USIZE_MODULUS == 0xFFFE_FFF0;
    // the unbounded model asks for pages up to 0x1_7FFF, past the maximum
    assert RoundToAlign(0xFFFE_FFF0 + 0x7FFF_FFFF, PAGE_SIZE) == 0x1_7FFF_0000;
  }

  /** Line 73 wraps: once all 65536 pages are mapped, the mapped end reads
      as 0, every request looks as if it does not fit, the page count of
      line 86 underflows, and a 16-byte request that fits is refused. The
      unbounded allocator serves it. */
  lemma FullMemoryRefusesFittingRequest()
    ensures var s := State(0x1000_0000, Memory(65536, 65536));
            s.Valid()
            && AllocImplAsWritten(s, 16, 1) == (s, Err(AllocErr))
            && AllocImplSpec(s, 16, 1).1 == Ok(0x1000_0000)
  {
  }

  /** Lines 85-86 wrap: a block that ends inside the last of the 65536
      pages makes `round_to_align(total, PAGE_SIZE)` 2^32, which wraps to
      0, so the page count underflows and the grow is refused. The last
      page can never be grown. The unbounded allocator grows that one page
      and serves the request. */
  lemma LastPageNeverGrown()
    ensures var s := State(0, Memory(65535, 65536));
            s.Valid()
            && AllocImplAsWritten(s, 1, 1) == (State(0xFFFF_0000, s.mem), Err(AllocErr))
            && AllocImplSpec(s, 1, 1) == (State(0xFFFF_0001, Memory(65536, 65536)), Ok(0xFFFF_0000))
  {
    // the 32-bit values of lines 73, 82, 85 and 86
    assert RoundToAlign(1, 1) == 1;
    assert (65535 * PAGE_SIZE) % USIZE_MODULUS == 0xFFFF_0000;
    assert RoundToAlign(0xFFFF_0001, PAGE_SIZE) == USIZE_MODULUS;
    assert (0 - 65535) % USIZE_MODULUS == USIZE_MODULUS - 65535;
  }

  /** A natural below 2^32 is its own `usize` value. */
  lemma SmallIsUsize(x: nat)
    requires x < USIZE_MODULUS
    ensures x % USIZE_MODULUS == x
  {
  }

  /** Below the boundary the wrapping code and the unbounded model agree:
      when fewer than 65536 pages are mapped and the block ends at least a
      page below 4 GiB, no operation wraps. */
  lemma AsWrittenAgreesBelowLimit(s: State, size: nat, align: nat)
    requires s.Valid() && s.mem.pages < MAX_PAGES
    requires size > 0 && align > 0
    requires s.Base() + RoundToAlign(size, align) <= USIZE_MODULUS - PAGE_SIZE
    ensures AllocImplAsWritten(s, size, align) == AllocImplSpec(s, size, align)
  {
    var sz := RoundToAlign(size, align);
    var curPages := s.mem.pages;
    MulMonotone(curPages, MAX_PAGES - 1, PAGE_SIZE);
    SmallIsUsize(curPages * PAGE_SIZE);
    SmallIsUsize(sz);
    var total := s.Base() + sz;
    SmallIsUsize(total);
    SmallIsUsize(total - sz);
    if total > curPages * PAGE_SIZE {
      RoundToAlignLeast(total, PAGE_SIZE, USIZE_MODULUS - PAGE_SIZE);
      SmallIsUsize(RoundToAlign(total, PAGE_SIZE));
      SmallIsUsize(PagesNeeded(total, curPages));
    }
  }
}
