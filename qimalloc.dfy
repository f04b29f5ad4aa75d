/** QIMalloc, the "quick incremental" bump allocator for wasm32 linear
    memory: one cursor that only moves forward, lazily started at the end
    of the memory mapped when it is first used, and page-wise growth of the
    memory whenever a request would pass the mapped end. Freeing does
    nothing. The pure functions below specify each operation; the class
    `QIMalloc` runs them step by step on its cursor and the host memory. */
module Allocator {
  import opened Wasm32

  /** The null pointer, which `GlobalAlloc::alloc` returns on failure. */
  const NULL: nat := 0

  /** The allocator's single error. */
  datatype AllocErr = AllocErr

  datatype Result<T> = Ok(value: T) | Err(error: AllocErr)

  /** What one allocation sees and changes: the cursor (0 while it has not
      been started) and the host memory. */
  datatype State = State(ptr: nat, mem: Memory)
  {
    /** The allocator's invariant: the host memory is well formed and every
        byte below the cursor is mapped. */
    ghost predicate Valid() {
      mem.Valid() && ptr <= mem.Capacity()
    }

    /** Where the next block starts: the cursor, or the end of mapped
        memory while the cursor has not been started. */
    function Base(): (b: nat) {
      if ptr == 0 then mem.Capacity() else ptr
    }
  }

  /** `round_to_align`: the smallest multiple of `align` that is at least
      `size`. */
  function RoundToAlign(size: nat, align: nat): (r: nat)
    requires align > 0
    ensures r >= size && r % align == 0 && r - size < align
  {
    if size % align == 0 then size
    else
      var q := size / align;
      assert size + (align - size % align) == (q + 1) * align;
      DivModUnique((q + 1) * align, align, q + 1, 0);
      size + (align - size % align)
  }

  /** `d` and `m` are the quotient and remainder of `x` by `k` whenever
      `x == d * k + m` with `m < k`. */
  lemma DivModUnique(x: nat, k: nat, d: nat, m: nat)
    requires k > 0 && x == d * k + m && m < k
    ensures x % k == m && x / k == d
  {
    var d', m' := x / k, x % k;
    assert x == d' * k + m';
    if d' > d {
      assert (d' - d) * k == m - m';
      MulAtLeast(d' - d, k);
    } else if d' < d {
      assert (d - d') * k == m' - m;
      MulAtLeast(d - d', k);
    }
  }

  lemma MulAtLeast(a: nat, k: nat)
    requires a >= 1
    ensures a * k >= k
  {
    assert a * k == (a - 1) * k + k;
  }

  /** No multiple of `align` between `size` and the rounded size is smaller
      than the rounded size. */
  lemma RoundToAlignLeast(size: nat, align: nat, m: nat)
    requires align > 0 && m % align == 0 && m >= size
    ensures RoundToAlign(size, align) <= m
  {
    var r := RoundToAlign(size, align);
    if r > m {
      // m and r are both multiples of align and r - align < size <= m < r
      MultiplesApart(m, r, align);
    }
  }

  /** Two distinct multiples of `k` are at least `k` apart. */
  lemma MultiplesApart(a: nat, b: nat, k: nat)
    requires k > 0 && a % k == 0 && b % k == 0 && a < b
    ensures b - a >= k
  {
    var qa, qb := a / k, b / k;
    assert a == qa * k && b == qb * k;
    if qa >= qb { MulMonotone(qb, qa, k); }
    assert b - a == (qb - qa) * k;
    MulMonotone(1, qb - qa, k);
  }

  lemma MulMonotone(x: nat, y: nat, k: nat)
    requires x <= y
    ensures x * k <= y * k
  {
  }

  /** Rounding a multiple of `align` leaves it alone. */
  lemma RoundToAlignIdempotent(size: nat, align: nat)
    requires align > 0
    ensures RoundToAlign(RoundToAlign(size, align), align) == RoundToAlign(size, align)
  {
  }

  /** Lines 85-86: the number of pages to add so that `total` bytes are
      mapped, `ceil(total / PAGE_SIZE) - curPages`. It is at least one page
      and the fewest that cover `total`. */
  function PagesNeeded(total: nat, curPages: nat): (n: nat)
    requires total > curPages * PAGE_SIZE
    ensures n >= 1
    ensures (curPages + n) * PAGE_SIZE >= total
    ensures (curPages + n - 1) * PAGE_SIZE < total
  {
    var rounded := RoundToAlign(total, PAGE_SIZE);
    var q := rounded / PAGE_SIZE;
    assert rounded == q * PAGE_SIZE;
    q - curPages
  }

  /** `alloc_pages`: ask the host for `pages` more pages; on success the
      address of the first new page, otherwise the error. */
  function AllocPagesSpec(m: Memory, pages: nat): (r: (Memory, Result<nat>))
    ensures r.0.maxPages == m.maxPages && r.0.pages >= m.pages
    ensures r.1.Ok? ==> r.1.value == m.Capacity()
    ensures m.Valid() && r.1.Err? ==> r.0 == m
  {
    var (prev, m') := Grow(m, pages);
    (m', if prev != USIZE_MAX then Ok(prev * PAGE_SIZE) else Err(AllocErr))
  }

  /** `alloc_impl`: the state after one request and its result. Zero size
      or alignment fails before anything is read. Otherwise the size is
      rounded to the alignment, the cursor is started if need be (this
      persists even if the request then fails), the memory is grown by the
      missing pages when the block does not fit, and on success the cursor
      moves past the block, whose start is returned. */
  function AllocImplSpec(s: State, size: nat, align: nat): (r: (State, Result<nat>))
    ensures r.0.ptr >= s.ptr && r.0.mem.pages >= s.mem.pages
    ensures r.0.mem.maxPages == s.mem.maxPages
    ensures r.1.Ok? ==> r.1.value == s.Base() && r.0.ptr > r.1.value
  {
    if size == 0 || align == 0 then (s, Err(AllocErr))
    else
      var sz := RoundToAlign(size, align);
      var curPages := s.mem.pages;
      var end := curPages * PAGE_SIZE;
      var ptr := if s.ptr == 0 then end else s.ptr;
      var total := ptr + sz;
      if total > end then
        var (m', grown) := AllocPagesSpec(s.mem, PagesNeeded(total, curPages));
        if grown.Err? then (State(ptr, m'), Err(AllocErr))
        else (State(total, m'), Ok(total - sz))
      else (State(total, s.mem), Ok(total - sz))
  }

  /** `GlobalAlloc::alloc`: the address, or null on error. */
  function AllocSpec(s: State, size: nat, align: nat): (r: (State, nat))
    ensures r.0 == AllocImplSpec(s, size, align).0
    ensures r.1 != NULL ==> AllocImplSpec(s, size, align).1 == Ok(r.1)
  {
    var (s', r) := AllocImplSpec(s, size, align);
    (s', match r case Ok(a) => a case Err(_) => NULL)
  }

  /** The allocator object. Its one field is the cursor; `INIT` is the
      cursor at 0, which the first allocation replaces by the end of the
      mapped memory. */
  class QIMalloc {
    var ptr: nat

    function Snapshot(mem: LinearMemory): (s: State)
      reads this, mem
    {
      State(ptr, mem.Snapshot())
    }

    /** `QIMalloc::INIT`. */
    constructor INIT()
      ensures ptr == 0
    {
      ptr := 0;
    }

    /** `alloc_impl`: rewrites the cursor in place (to start it, then to
        move it past the block) and grows the host memory on demand. */
    method AllocImpl(mem: LinearMemory, size: nat, align: nat) returns (r: Result<nat>)
      requires mem.Valid()
      modifies this, mem
      ensures mem.Valid()
      ensures (Snapshot(mem), r) == AllocImplSpec(old(Snapshot(mem)), size, align)
    {
      if size == 0 || align == 0 {
        return Err(AllocErr);
      }
      var sz := RoundToAlign(size, align);
      var curPages := mem.MemorySize();
      var end := curPages * PAGE_SIZE;
      if ptr == 0 {
        ptr := end;
      }
      var total := ptr + sz;
      if total > end {
        var pages := PagesNeeded(total, curPages);
        var grown := AllocPages(mem, pages);
        if grown.Err? {
          return Err(AllocErr);
        }
      }
      ptr := total;
      r := Ok(total - sz);
    }

    /** `alloc_pages`: one `memory_grow` call, its sentinel turned into
        the error. */
    method AllocPages(mem: LinearMemory, pages: nat) returns (r: Result<nat>)
      requires mem.Valid()
      modifies mem
      ensures mem.Valid()
      ensures (mem.Snapshot(), r) == AllocPagesSpec(old(mem.Snapshot()), pages)
    {
      var prev := mem.MemoryGrow(pages);
      if prev != USIZE_MAX {
        r := Ok(prev * PAGE_SIZE);
      } else {
        r := Err(AllocErr);
      }
    }

    /** `GlobalAlloc::alloc`. */
    method Alloc(mem: LinearMemory, size: nat, align: nat) returns (p: nat)
      requires mem.Valid()
      modifies this, mem
      ensures mem.Valid()
      ensures (Snapshot(mem), p) == AllocSpec(old(Snapshot(mem)), size, align)
    {
      var r := AllocImpl(mem, size, align);
      match r {
        case Ok(a) => p := a;
        case Err(_) => p := NULL;
      }
    }

    /** `GlobalAlloc::dealloc`: accepts any pointer and layout and does
        nothing. */
    method Dealloc(p: nat, size: nat, align: nat)
      ensures unchanged(this)
    {
    }
  }
}
