/** What the allocator promises, proved about the specification functions
    of module Allocator (which the methods of `QIMalloc` are proved to
    follow): the error paths, the lazy start of the cursor, the exact page
    growth, the invariant that the memory is mapped up to the cursor, the
    forward-only cursor, conditional alignment, and that the blocks handed
    out over any sequence of requests never overlap. */
module AllocatorProperties {
  import opened Wasm32
  import opened Allocator

  /** Zero size or zero alignment is refused and nothing changes. */
  lemma RejectsEmptyRequest(s: State, size: nat, align: nat)
    requires size == 0 || align == 0
    ensures AllocImplSpec(s, size, align) == (s, Err(AllocErr))
  {
  }

  /** The first request (cursor still 0) starts the cursor at the end of
      the mapped memory, whether or not the request then succeeds; a
      successful first request returns exactly that address. */
  lemma FirstRequestStartsAtMappedEnd(s: State, size: nat, align: nat)
    requires s.ptr == 0 && size > 0 && align > 0
    ensures AllocImplSpec(s, size, align).0.ptr >= s.mem.Capacity()
    ensures AllocImplSpec(s, size, align).1.Err? ==>
              AllocImplSpec(s, size, align).0.ptr == s.mem.Capacity()
    ensures AllocImplSpec(s, size, align).1 == Ok(s.mem.Capacity()) ||
            AllocImplSpec(s, size, align).1.Err?
  {
  }

  /** A successful request returns the cursor as it was (once started) and
      moves the cursor past a block of the rounded size. */
  lemma SuccessAdvancesCursor(s: State, size: nat, align: nat)
    requires size > 0 && align > 0
    ensures var (s', r) := AllocImplSpec(s, size, align);
            r.Ok? ==> r.value == s.Base() && s'.ptr == s.Base() + RoundToAlign(size, align)
  {
  }

  /** A request that fits in the mapped memory always succeeds and leaves
      the memory alone. */
  lemma FittingRequestSucceeds(s: State, size: nat, align: nat)
    requires size > 0 && align > 0
    requires s.Base() + RoundToAlign(size, align) <= s.mem.Capacity()
    ensures var (s', r) := AllocImplSpec(s, size, align);
            r == Ok(s.Base()) && s'.mem == s.mem
  {
  }

  /** A request that does not fit grows the memory by exactly the pages
      that cover the new cursor and no more; if the host refuses, the
      memory is unchanged and the cursor stays at its (possibly just
      started) base. */
  lemma GrowsByExactPages(s: State, size: nat, align: nat)
    requires s.Valid() && size > 0 && align > 0
    requires s.Base() + RoundToAlign(size, align) > s.mem.Capacity()
    ensures var (s', r) := AllocImplSpec(s, size, align);
            var total := s.Base() + RoundToAlign(size, align);
            (r.Ok? ==> s'.mem.pages == s.mem.pages + PagesNeeded(total, s.mem.pages)
                       && s'.mem.Capacity() >= s'.ptr
                       && (s'.mem.pages - 1) * PAGE_SIZE < s'.ptr)
            && (r.Err? ==> s'.mem == s.mem && s'.ptr == s.Base())
  {
    var total := s.Base() + RoundToAlign(size, align);
    GrowSentinelExact(s.mem, PagesNeeded(total, s.mem.pages));
  }

  /** The allocator fails exactly on an empty request or when the block
      would end beyond the most memory the host will ever map. */
  lemma FailsExactlyBeyondMaximum(s: State, size: nat, align: nat)
    requires s.Valid()
    ensures AllocImplSpec(s, size, align).1.Err? <==>
              size == 0 || align == 0 ||
              s.Base() + RoundToAlign(size, align) > s.mem.maxPages * PAGE_SIZE
  {
    if size > 0 && align > 0 {
      var total := s.Base() + RoundToAlign(size, align);
      var pages := s.mem.pages;
      MulMonotone(pages, s.mem.maxPages, PAGE_SIZE);
      if total > s.mem.Capacity() {
        var n := PagesNeeded(total, pages);
        GrowSentinelExact(s.mem, n);
        if pages + n > s.mem.maxPages {
          MulMonotone(s.mem.maxPages, pages + n - 1, PAGE_SIZE);
        } else {
          MulMonotone(pages + n, s.mem.maxPages, PAGE_SIZE);
        }
      }
    }
  }

  /** One request keeps the invariant (everything below the cursor is
      mapped), never moves the cursor back, never shrinks the memory and
      never changes the host's maximum. */
  lemma AllocPreservesValid(s: State, size: nat, align: nat)
    requires s.Valid()
    ensures var s' := AllocImplSpec(s, size, align).0;
            s'.Valid() && s'.ptr >= s.ptr && s'.mem.pages >= s.mem.pages
            && s'.mem.maxPages == s.mem.maxPages
  {
    if size > 0 && align > 0 {
      var total := s.Base() + RoundToAlign(size, align);
      if total > s.mem.Capacity() {
        GrowSentinelExact(s.mem, PagesNeeded(total, s.mem.pages));
      }
    }
  }

  /** Growth by some other user of the host memory between requests keeps
      the allocator's invariant. */
  lemma ExternalGrowthPreservesValid(s: State, n: nat)
    requires s.Valid()
    ensures State(s.ptr, Grow(s.mem, n).1).Valid()
  {
    GrowSentinelExact(s.mem, n);
    MulMonotone(s.mem.pages, Grow(s.mem, n).1.pages, PAGE_SIZE);
  }

  /** The sum of two multiples of `k` is a multiple of `k`. */
  lemma SumOfMultiples(a: nat, b: nat, k: nat)
    requires k > 0 && a % k == 0 && b % k == 0
    ensures (a + b) % k == 0
  {
    var qa, qb := a / k, b / k;
    assert a + b == (qa + qb) * k + 0;
    DivModUnique(a + b, k, qa + qb, 0);
  }

  /** Every mapped end is a multiple of each divisor of the page size. */
  lemma CapacityAligned(m: Memory, align: nat)
    requires align > 0 && PAGE_SIZE % align == 0
    ensures m.Capacity() % align == 0
  {
    var c := PAGE_SIZE / align;
    assert m.pages * PAGE_SIZE == (m.pages * c) * align + 0;
    DivModUnique(m.pages * PAGE_SIZE, align, m.pages * c, 0);
  }

  /** Only the size is rounded, never the address: the returned address is
      a multiple of `align` when the base it is carved from already is, and
      then so is the new cursor. */
  lemma AlignedWhenBaseAligned(s: State, size: nat, align: nat)
    requires size > 0 && align > 0 && s.Base() % align == 0
    ensures var (s', r) := AllocImplSpec(s, size, align);
            r.Ok? ==> r.value % align == 0 && s'.ptr % align == 0
  {
    SumOfMultiples(s.Base(), RoundToAlign(size, align), align);
  }

  /** The first request is aligned for any alignment that divides the
      page size, because the cursor starts at a page boundary. */
  lemma FirstRequestAligned(s: State, size: nat, align: nat)
    requires s.ptr == 0 && size > 0 && align > 0 && PAGE_SIZE % align == 0
    ensures var r := AllocImplSpec(s, size, align).1;
            r.Ok? ==> r.value % align == 0
  {
    CapacityAligned(s.mem, align);
  }

  /** The address is not aligned in general: `alloc(1, 1)` followed by
      `alloc(8, 8)`, from one mapped page of two at most, returns an odd
      address. */
  lemma UnalignedAfterSmallerAlignment()
    ensures var s0 := State(0, Memory(1, 2));
            var (s1, r1) := AllocImplSpec(s0, 1, 1);
            var (s2, r2) := AllocImplSpec(s1, 8, 8);
            r1 == Ok(65536) && r2 == Ok(65537) && r2.value % 8 != 0
  {
  }

  /** Two successful requests in a row return blocks that touch: the
      second starts where the first one's rounded size ends. */
  lemma ConsecutiveBlocksAdjacent(s: State, size1: nat, align1: nat, size2: nat, align2: nat)
    requires size1 > 0 && align1 > 0
    ensures var (s1, r1) := AllocImplSpec(s, size1, align1);
            var r2 := AllocImplSpec(s1, size2, align2).1;
            r1.Ok? && r2.Ok? ==> r2.value == r1.value + RoundToAlign(size1, align1)
  {
  }

  /** Starting from an empty memory, `alloc(2 * PAGE_SIZE + 1, 1)` grows
      the memory to three pages. */
  lemma ThreePagesForTwoPagesAndAByte(maxPages: nat)
    requires 3 <= maxPages
    ensures AllocImplSpec(State(0, Memory(0, maxPages)), 2 * PAGE_SIZE + 1, 1)
            == (State(2 * PAGE_SIZE + 1, Memory(3, maxPages)), Ok(0))
  {
  }

  /** `GlobalAlloc::alloc` returns null exactly when `alloc_impl` fails or
      hands out address 0, and address 0 is handed out only by the first
      request on an empty memory; on a memory with pages mapped (or once
      the cursor has started) null means failure. */
  lemma NullExactlyOnFailure(s: State, size: nat, align: nat)
    ensures var r := AllocImplSpec(s, size, align).1;
            (AllocSpec(s, size, align).1 == NULL <==> r.Err? || r == Ok(0))
            && (r == Ok(0) ==> s.ptr == 0 && s.mem.pages == 0)
            && (s.ptr > 0 || s.mem.pages > 0 ==>
                  (AllocSpec(s, size, align).1 == NULL <==> r.Err?))
  {
  }

  /** On an empty memory the first successful request is reported as a
      failure: `alloc(8, 8)` maps one page, moves the cursor to 8 and
      returns null. */
  lemma FirstBlockOnEmptyMemoryIsNull(maxPages: nat)
    requires 1 <= maxPages
    ensures AllocImplSpec(State(0, Memory(0, maxPages)), 8, 8).1 == Ok(0)
    ensures AllocSpec(State(0, Memory(0, maxPages)), 8, 8)
            == (State(8, Memory(1, maxPages)), NULL)
  {
  }

  /** One allocation request, as a `Layout` gives it. */
  datatype Request = Request(size: nat, align: nat)

  /** A block handed out: its address and its rounded length. */
  datatype Block = Block(addr: nat, len: nat)

  /** Serve requests one after another; the final state and the blocks of
      the requests that succeeded, in order. */
  function Serve(s: State, reqs: seq<Request>): (r: (State, seq<Block>))
    decreases |reqs|
  {
    if reqs == [] then (s, [])
    else
      var (s1, res) := AllocImplSpec(s, reqs[0].size, reqs[0].align);
      var (s2, blocks) := Serve(s1, reqs[1..]);
      if res.Ok? && reqs[0].align > 0 then
        (s2, [Block(res.value, RoundToAlign(reqs[0].size, reqs[0].align))] + blocks)
      else (s2, blocks)
  }

  /** A request never moves the base back: the next block starts no
      earlier than the one this request would have started at. */
  lemma AllocKeepsBase(s: State, size: nat, align: nat)
    requires s.Valid()
    ensures AllocImplSpec(s, size, align).0.Base() >= s.Base()
  {
    var s' := AllocImplSpec(s, size, align).0;
    MulMonotone(s.mem.pages, s'.mem.pages, PAGE_SIZE);
  }

  /** Over any sequence of requests the invariant holds, the cursor never
      moves back and every block handed out lies at or after the starting
      base (so clear of the memory mapped before the first request, when
      the run starts from `INIT`) and ends at or before the final cursor. */
  lemma {:induction false} ServeBounds(s: State, reqs: seq<Request>)
    requires s.Valid()
    ensures Serve(s, reqs).0.Valid()
    ensures Serve(s, reqs).0.ptr >= s.ptr
    ensures Serve(s, reqs).0.mem.maxPages == s.mem.maxPages
    ensures forall i :: 0 <= i < |Serve(s, reqs).1| ==>
              s.Base() <= Serve(s, reqs).1[i].addr
              && Serve(s, reqs).1[i].addr + Serve(s, reqs).1[i].len <= Serve(s, reqs).0.ptr
    decreases |reqs|
  {
    if reqs != [] {
      var (s1, r) := AllocImplSpec(s, reqs[0].size, reqs[0].align);
      AllocPreservesValid(s, reqs[0].size, reqs[0].align);
      AllocKeepsBase(s, reqs[0].size, reqs[0].align);
      ServeBounds(s1, reqs[1..]);
      if r.Ok? && reqs[0].align > 0 {
        SuccessAdvancesCursor(s, reqs[0].size, reqs[0].align);
      }
    }
  }

  /** The blocks handed out over any sequence of requests are in address
      order and pairwise disjoint, and all of them are mapped memory. */
  lemma {:induction false} ServeDisjoint(s: State, reqs: seq<Request>)
    requires s.Valid()
    ensures var (s', blocks) := Serve(s, reqs);
            (forall i, j :: 0 <= i < j < |blocks| ==>
               blocks[i].addr + blocks[i].len <= blocks[j].addr)
            && forall i :: 0 <= i < |blocks| ==> blocks[i].addr + blocks[i].len <= s'.mem.Capacity()
    decreases |reqs|
  {
    ServeBounds(s, reqs);
    if reqs != [] {
      var (s1, r) := AllocImplSpec(s, reqs[0].size, reqs[0].align);
      AllocPreservesValid(s, reqs[0].size, reqs[0].align);
      ServeDisjoint(s1, reqs[1..]);
      ServeBounds(s1, reqs[1..]);
      if r.Ok? && reqs[0].align > 0 {
        SuccessAdvancesCursor(s, reqs[0].size, reqs[0].align);
      }
    }
  }

  /** When every request uses one alignment that divides the page size
      and the cursor is 0 or a multiple of it, every block is aligned: the
      rounded sizes keep the cursor on multiples of the alignment. */
  lemma {:induction false} ServeAligned(s: State, reqs: seq<Request>, align: nat)
    requires align > 0 && PAGE_SIZE % align == 0 && s.ptr % align == 0
    requires forall i :: 0 <= i < |reqs| ==> reqs[i].align == align
    ensures var (s', blocks) := Serve(s, reqs);
            s'.ptr % align == 0 && forall i :: 0 <= i < |blocks| ==> blocks[i].addr % align == 0
    decreases |reqs|
  {
    if reqs != [] {
      var (s1, r) := AllocImplSpec(s, reqs[0].size, align);
      CapacityAligned(s.mem, align);
      if reqs[0].size > 0 {
        AlignedWhenBaseAligned(s, reqs[0].size, align);
      }
      ServeAligned(s1, reqs[1..], align);
    }
  }
}
