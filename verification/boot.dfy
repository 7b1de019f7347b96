/**
 * The boot-time allocator (page_alloc.c:160-256).
 *
 * Before the buddy heap exists, frames are handed out from the allocation
 * bitmap alone.  init_boot_allocator marks every frame allocated,
 * init_boot_pages frees the whole frames of a byte range and then marks the
 * bad frames allocated again, and alloc_boot_pages searches downwards from
 * max_page for the highest free run of nr_pfns frames whose base is a
 * multiple of pfn_align and not below first_valid_mfn.
 *
 * The bitmap is the set of free frames (see Bitmap); frame numbers and
 * byte addresses are unbounded naturals, except where the source's 64-bit
 * wrap-around is the point (StepWrapsAsWritten, StartWrapsAsWritten).
 */
module Boot {
  import opened Arith
  import opened Bitmap

  const PageSize: nat := 4096

  /** first_valid_mfn before any range is registered: ~0UL. */
  const NoValidMfn: nat := 0xFFFF_FFFF_FFFF_FFFF

  /** 2^64: unsigned long arithmetic is taken modulo this. */
  const WordMod: nat := 0x1_0000_0000_0000_0000

  /**
   * Frame numbers never reach 2^52: a physical address has at most 52 bits,
   * so this bounds max_page and every request that can be satisfied.
   */
  const MaxFrames: nat := 0x10_0000_0000_0000

  /** The bitmap, first_valid_mfn and max_page. */
  datatype BootState = BootState(free: set<nat>, firstValid: nat, maxPage: nat)

  /** Every free frame lies at or above first_valid_mfn. */
  predicate BootOK(s: BootState)
  {
    forall f | f in s.free :: s.firstValid <= f
  }

  /** init_boot_allocator: every frame starts out allocated and no frame is valid yet. */
  function InitBootAllocator(maxPage: nat): (s: BootState)
    ensures forall pfn :: Allocated(s.free, pfn)
    ensures s.maxPage == maxPage && BootOK(s)
  {
    BootState({}, NoValidMfn, maxPage)
  }

  // ---------------------------------------------------------------------
  // init_boot_pages

  /** The first whole frame at or above byte address ps (round_pgup, then >> PAGE_SHIFT). */
  function FirstWholeFrame(ps: nat): nat
  {
    (ps + PageSize - 1) / PageSize
  }

  /** The frame that ends the whole frames below byte address pe (round_pgdown, then >> PAGE_SHIFT). */
  function EndWholeFrame(pe: nat): nat
  {
    pe / PageSize
  }

  /** How many whole frames [ps, pe) holds. */
  function WholeFrameCount(ps: nat, pe: nat): nat
  {
    if FirstWholeFrame(ps) < EndWholeFrame(pe) then EndWholeFrame(pe) - FirstWholeFrame(ps) else 0
  }

  /** Frame f lies entirely inside the byte range [ps, pe). */
  predicate WholeFrameIn(f: nat, ps: nat, pe: nat)
  {
    ps <= f * PageSize && (f + 1) * PageSize <= pe
  }

  /** The frames init_boot_pages frees are exactly the whole frames of [ps, pe). */
  lemma WholeFrames(ps: nat, pe: nat, f: nat)
    ensures FirstWholeFrame(ps) <= f < EndWholeFrame(pe) <==> WholeFrameIn(f, ps, pe)
  {
    var lo, hi := FirstWholeFrame(ps), EndWholeFrame(pe);
    var q, r := ps / PageSize, ps % PageSize;
    assert ps == PageSize * q + r;
    if r == 0 {
      DivModUnique(ps + PageSize - 1, PageSize, q, PageSize - 1);
      assert lo == q;
    } else {
      DivModUnique(ps + PageSize - 1, PageSize, q + 1, r - 1);
      assert lo == q + 1;
    }
    var qe, re := pe / PageSize, pe % PageSize;
    assert pe == PageSize * qe + re;
    assert hi == qe;
    MulLeIff(PageSize, f + 1, qe);
    MulLeIff(PageSize, f, q);
    MulLeIff(PageSize, q + 1, f);
  }

  /**
   * init_boot_pages: free the whole frames of [ps, pe), lower
   * first_valid_mfn to the first of them, then mark every frame of the
   * bad-page list below max_page allocated again.  The list arrives parsed:
   * `bad` is the union of its ranges.  map_free asserts the range was
   * allocated; an empty range changes nothing.
   */
  function InitBootPages(s: BootState, ps: nat, pe: nat, bad: set<nat>): (r: BootState)
    requires RangeAllocated(s.free, FirstWholeFrame(ps), WholeFrameCount(ps, pe))
    ensures EndWholeFrame(pe) <= FirstWholeFrame(ps) ==> r == s
    ensures FirstWholeFrame(ps) < EndWholeFrame(pe) ==>
      r.maxPage == s.maxPage &&
      r.firstValid == (if FirstWholeFrame(ps) < s.firstValid then FirstWholeFrame(ps) else s.firstValid) &&
      forall f: nat :: f in r.free <==>
        (f in s.free || WholeFrameIn(f, ps, pe)) && !(f in bad && f < s.maxPage)
  {
    var lo, hi := FirstWholeFrame(ps), EndWholeFrame(pe);
    if hi <= lo then s
    else
      assert forall f: nat :: lo <= f < hi <==> WholeFrameIn(f, ps, pe) by {
        forall f: nat ensures lo <= f < hi <==> WholeFrameIn(f, ps, pe) {
          WholeFrames(ps, pe, f);
        }
      }
      var freed := MapFree(s.free, lo, hi - lo);
      BootState(
        set f | f in freed && !(f in bad && f < s.maxPage),
        if lo < s.firstValid then lo else s.firstValid,
        s.maxPage)
  }

  /** init_boot_pages keeps every free frame at or above first_valid_mfn. */
  lemma InitBootPagesOK(s: BootState, ps: nat, pe: nat, bad: set<nat>)
    requires BootOK(s)
    requires RangeAllocated(s.free, FirstWholeFrame(ps), WholeFrameCount(ps, pe))
    ensures BootOK(InitBootPages(s, ps, pe, bad))
  {
    var r := InitBootPages(s, ps, pe, bad);
    forall f | f in r.free
      ensures r.firstValid <= f
    {
      WholeFrames(ps, pe, f);
    }
  }

  // ---------------------------------------------------------------------
  // alloc_boot_pages

  /** x rounded down to a multiple of align: x & ~(align - 1) when align is a power of two. */
  function RoundDown(x: nat, align: nat): (r: nat)
    requires align >= 1
    ensures r <= x < r + align && r % align == 0
  {
    var q := x / align;
    assert x == align * q + x % align;
    MulMod(align, q);
    x - x % align
  }

  /** No multiple of align lies strictly between RoundDown(x, align) and x + 1. */
  lemma RoundDownAbove(x: nat, align: nat, b: nat)
    requires align >= 1 && b % align == 0
    requires b > RoundDown(x, align)
    ensures b > x
  {
    var r := RoundDown(x, align);
    var qb, qr := b / align, r / align;
    assert b == align * qb;
    assert r == align * qr;
    MulLeIff(align, qb, qr);
    MulLeIff(align, qr + 1, qb);
    assert align * (qr + 1) == r + align;
  }

  /**
   * A base alloc_boot_pages may return: a multiple of align, at or above
   * first_valid_mfn, with the whole run below max_page and free.
   */
  ghost predicate Fits(s: BootState, nr: nat, align: nat, b: nat)
    requires align >= 1
  {
    s.firstValid <= b && b + nr <= s.maxPage && b % align == 0 && RangeFree(s.free, b, nr)
  }

  /** The inner loop of alloc_boot_pages: the index of the first allocated frame of [pg, pg + nr), or nr. */
  method FirstAllocated(free: set<nat>, pg: nat, nr: nat) returns (i: nat)
    ensures i <= nr
    ensures forall k | pg <= k < pg + i :: k in free
    ensures i < nr ==> pg + i !in free
  {
    i := 0;
    while i < nr && pg + i in free
      invariant i <= nr
      invariant forall k | pg <= k < pg + i :: k in free
    {
      i := i + 1;
    }
  }

  /**
   * alloc_boot_pages: the highest fitting base is returned and its run
   * marked allocated; when no base fits the result is 0 and nothing
   * changes.  The search stops once the next candidate would lie below
   * frame 0, where the source's unsigned arithmetic wraps instead (see
   * StepWrapsAsWritten and StartWrapsAsWritten).  pfn_align is a power of
   * two at every call site; the model rounds down by remainder, which
   * agrees with the source's mask for such values.
   */
  method AllocBootPages(s: BootState, nr: nat, align: nat) returns (r: nat, s': BootState)
    requires align >= 1
    ensures (exists b: nat :: Fits(s, nr, align, b)) ==>
      Fits(s, nr, align, r) && (forall b: nat | Fits(s, nr, align, b) :: b <= r) &&
      s' == s.(free := MapAlloc(s.free, r, nr))
    ensures (forall b: nat :: !Fits(s, nr, align, b)) ==> r == 0 && s' == s
  {
    if nr > s.maxPage {
      forall b: nat | Fits(s, nr, align, b) ensures false { }
      return 0, s;
    }
    var pg := RoundDown(s.maxPage - nr, align);
    forall b: nat | Fits(s, nr, align, b)
      ensures b <= pg
    {
      if b > pg {
        RoundDownAbove(s.maxPage - nr, align, b);
      }
    }
    while pg >= s.firstValid
      invariant pg + nr <= s.maxPage && pg % align == 0
      invariant forall b: nat | Fits(s, nr, align, b) :: b <= pg
      decreases pg
    {
      var i := FirstAllocated(s.free, pg, nr);
      if i == nr {
        assert Fits(s, nr, align, pg);
        return pg, s.(free := MapAlloc(s.free, pg, nr));
      }
      if pg + i < nr {
        forall b: nat | Fits(s, nr, align, b) ensures false { }
        return 0, s;
      }
      var next := RoundDown(pg + i - nr, align);
      SkipWindow(s, nr, align, pg, i, next);
      pg := next;
    }
    return 0, s;
  }

  /** Every fitting base at or below pg whose run covers the allocated frame pg + i is skipped. */
  lemma SkipWindow(s: BootState, nr: nat, align: nat, pg: nat, i: nat, next: nat)
    requires align >= 1 && i < nr && pg + i >= nr
    requires pg + i !in s.free
    requires forall b: nat | Fits(s, nr, align, b) :: b <= pg
    requires next == RoundDown(pg + i - nr, align)
    ensures forall b: nat | Fits(s, nr, align, b) :: b <= next
  {
    forall b: nat | Fits(s, nr, align, b)
      ensures b <= next
    {
      if b > next {
        RoundDownAbove(pg + i - nr, align, b);
      }
    }
  }

  /** What alloc_boot_pages takes is exactly the run it returns. */
  lemma AllocBootTakes(s: BootState, nr: nat, align: nat, r: nat)
    requires align >= 1 && Fits(s, nr, align, r) && BootOK(s)
    ensures var s' := s.(free := MapAlloc(s.free, r, nr));
      BootOK(s') && RangeAllocated(s'.free, r, nr) &&
      MapFree(s'.free, r, nr) == s.free
  {
    MapAllocThenFree(s.free, r, nr);
  }

  /**
   * A run registered with init_boot_pages, clear of bad frames and below
   * max_page, fits at its own first frame (with no alignment demand).
   */
  lemma RegisteredRunFits(s: BootState, ps: nat, pe: nat, bad: set<nat>)
    requires RangeAllocated(s.free, FirstWholeFrame(ps), WholeFrameCount(ps, pe))
    requires FirstWholeFrame(ps) < EndWholeFrame(pe) <= s.maxPage
    requires forall f | f in bad :: !(FirstWholeFrame(ps) <= f < EndWholeFrame(pe))
    ensures Fits(InitBootPages(s, ps, pe, bad), WholeFrameCount(ps, pe), 1, FirstWholeFrame(ps))
  {
    var lo, hi := FirstWholeFrame(ps), EndWholeFrame(pe);
    var r := InitBootPages(s, ps, pe, bad);
    forall f | InRange(f, lo, hi - lo)
      ensures f in r.free
    {
      WholeFrames(ps, pe, f);
    }
  }

  // ---------------------------------------------------------------------
  // The source's unsigned arithmetic

  /** A negative difference as unsigned long arithmetic leaves it, rounded down to align. */
  lemma WrappedBase(x: int, align: nat)
    requires -(MaxFrames as int) <= x < 0
    requires 1 <= align <= MaxFrames
    ensures RoundDown(x % WordMod, align) >= WordMod - 2 * MaxFrames
  {
    DivModUnique(x, WordMod, -1, WordMod + x);
  }

  /**
   * The step of the search loop as written, (pg + i - nr_pfns) & ~(pfn_align - 1)
   * in unsigned long arithmetic.
   */
  function NextAsWritten(pg: nat, i: nat, nr: nat, align: nat): nat
    requires align >= 1
  {
    RoundDown((pg + i - nr) % WordMod, align)
  }

  /**
   * When the first allocated frame of the window lies below nr_pfns, the
   * step wraps to a base near 2^64.  That base still passes the loop test
   * `pg >= first_valid_mfn`, and the next window starts far beyond max_page,
   * outside the bitmap.
   */
  lemma StepWrapsAsWritten(s: BootState, pg: nat, i: nat, nr: nat, align: nat)
    requires s.maxPage <= MaxFrames && 1 <= align <= MaxFrames
    requires s.firstValid <= pg && pg + nr <= s.maxPage
    requires pg + i < nr
    ensures NextAsWritten(pg, i, nr, align) >= s.firstValid
    ensures NextAsWritten(pg, i, nr, align) > s.maxPage
  {
    WrappedBase(pg + i - nr, align);
  }

  /**
   * The first candidate as written, (max_page - nr_pfns) & ~(pfn_align - 1):
   * for a request larger than max_page it too lies beyond max_page.
   */
  lemma StartWrapsAsWritten(s: BootState, nr: nat, align: nat)
    requires s.firstValid <= s.maxPage < nr <= MaxFrames && 1 <= align <= MaxFrames
    ensures RoundDown((s.maxPage - nr) % WordMod, align) >= s.firstValid
    ensures RoundDown((s.maxPage - nr) % WordMod, align) > s.maxPage
  {
    WrappedBase(s.maxPage - nr, align);
  }
}
