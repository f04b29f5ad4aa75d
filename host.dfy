/** The wasm32 host as the allocator sees it: a linear memory made of 64 KiB
    pages that can only grow, queried with `memory_size` and extended with
    `memory_grow`. The intrinsics themselves are foreign code; here they are
    a page counter with a growth limit. */
module Wasm32 {

  /** Size of one linear-memory page in bytes. */
  const PAGE_SIZE: nat := 65536

  /** The most pages a wasm32 linear memory can hold (4 GiB in all). */
  const MAX_PAGES: nat := 65536

  /** `usize::MAX` on wasm32; `memory_grow` returns it when growth is refused. */
  const USIZE_MAX: nat := 0xFFFF_FFFF

  /** The host memory as a value: pages mapped now and the most it will map. */
  datatype Memory = Memory(pages: nat, maxPages: nat)
  {
    ghost predicate Valid() {
      pages <= maxPages <= MAX_PAGES
    }

    /** Bytes currently mapped. */
    function Capacity(): (bytes: nat) {
      pages * PAGE_SIZE
    }
  }

  /** `memory_grow(0, n)`: the page count before the call and the memory
      after it, or the sentinel and an unchanged memory when the host
      refuses to go past its maximum. */
  function Grow(m: Memory, n: nat): (r: (nat, Memory))
    ensures r.1.maxPages == m.maxPages && r.1.pages >= m.pages
  {
    if m.pages + n <= m.maxPages then (m.pages, m.(pages := m.pages + n))
    else (USIZE_MAX, m)
  }

  /** On a valid memory the sentinel cannot be mistaken for a page count:
      growth is refused exactly when it would pass the maximum, succeeds
      with the old count otherwise, and keeps the memory valid. */
  lemma GrowSentinelExact(m: Memory, n: nat)
    requires m.Valid()
    ensures Grow(m, n).0 == USIZE_MAX <==> m.pages + n > m.maxPages
    ensures Grow(m, n).0 != USIZE_MAX ==>
              Grow(m, n).0 == m.pages && Grow(m, n).1.pages == m.pages + n
    ensures Grow(m, n).0 == USIZE_MAX ==> Grow(m, n).1 == m
    ensures Grow(m, n).1.Valid() && Grow(m, n).1.maxPages == m.maxPages
  {
  }

  /** The host's linear memory, updated in place by `memory_grow`. */
  class LinearMemory {
    var pages: nat
    const maxPages: nat

    ghost predicate Valid()
      reads this
    {
      Snapshot().Valid()
    }

    function Snapshot(): (m: Memory)
      reads this
    {
      Memory(pages, maxPages)
    }

    constructor (initialPages: nat, maxPages: nat)
      requires initialPages <= maxPages <= MAX_PAGES
      ensures Valid() && pages == initialPages && this.maxPages == maxPages
    {
      pages := initialPages;
      this.maxPages := maxPages;
    }

    /** `memory_size(0)`: the number of pages mapped. */
    method MemorySize() returns (n: nat)
      ensures n == pages
    {
      n := pages;
    }

    /** `memory_grow(0, n)`. */
    method MemoryGrow(n: nat) returns (prev: nat)
      requires Valid()
      modifies this
      ensures Valid()
      ensures (prev, Snapshot()) == Grow(old(Snapshot()), n)
    {
      if pages + n <= maxPages {
        prev := pages;
        pages := pages + n;
      } else {
        prev := USIZE_MAX;
      }
    }
  }
}
