/**
 * Setting up and querying the heap (page_alloc.c:822-929): init_heap_pages,
 * avail_heap_pages and end_boot_allocator.
 *
 * init_heap_pages frees a range frame by frame, except the first frame of
 * a node that does not start on a MAX_ORDER boundary.  end_boot_allocator
 * takes every frame the boot allocator left free, marks it allocated and
 * hands each run of such frames to init_heap_pages.  avail_heap_pages adds
 * up the counters of a range of zones over the online nodes.
 */
module HeapInit {
  import opened Arith
  import opened Zones
  import opened Blocks
  import opened Heap
  import opened HeapFree

  // ---------------------------------------------------------------------
  // init_heap_pages

  /** The frames of [pg, pg + nr) that init_heap_pages frees. */
  function Kept(nid: Topology, pg: nat, nr: nat): (s: set<nat>)
    ensures forall f :: f in s <==> pg <= f < pg + nr && !Boundary(nid, f)
  {
    set f: nat | pg <= f < pg + nr && !Boundary(nid, f)
  }

  /**
   * init_heap_pages: each frame of the range is freed at order 0 unless it
   * starts a node off a MAX_ORDER boundary, in which case it is withheld.
   * Node heaps are always present, so init_node_heap takes no frames.
   */
  function InitHeapPages(nid: Topology, h: Heap, pg: nat, nr: nat): (r: Heap)
    requires forall f | pg <= f < pg + nr :: !Flags(h, f).offlined
    ensures forall f: nat | !(pg <= f < pg + nr) :: Flags(r, f) == Flags(h, f)
    ensures r.owner == h.owner
    decreases nr, 2
  {
    if nr == 0 then h else InitFrame(nid, h, pg, nr)
  }

  /** One round of the loop of init_heap_pages, then the rest of the range: a withheld node boundary is skipped. */
  function InitFrame(nid: Topology, h: Heap, pg: nat, nr: nat): (r: Heap)
    requires nr > 0
    requires forall f | pg <= f < pg + nr :: !Flags(h, f).offlined
    ensures forall f: nat | !(pg <= f < pg + nr) :: Flags(r, f) == Flags(h, f)
    ensures r.owner == h.owner
    decreases nr, 1
  {
    if Boundary(nid, pg) then InitHeapPages(nid, h, pg + 1, nr - 1) else InitFreed(nid, h, pg, nr)
  }

  /** Any other frame is freed at order 0 before the rest of the range. */
  function InitFreed(nid: Topology, h: Heap, pg: nat, nr: nat): (r: Heap)
    requires nr > 0
    requires forall f | pg <= f < pg + nr :: !Flags(h, f).offlined
    ensures forall f: nat | !(pg <= f < pg + nr) :: Flags(r, f) == Flags(h, f)
    ensures r.owner == h.owner
    decreases nr, 0
  {
    assert forall f | InSpan(f, pg, 0) :: f == pg;
    InitHeapPages(nid, FreeHeapPages(nid, h, pg, 0), pg + 1, nr - 1)
  }

  /**
   * init_heap_pages keeps the heap valid and frees exactly the frames that
   * are not withheld node boundaries.
   */
  lemma InitValid(nid: Topology, h: Heap, pg: nat, nr: nat) returns (r: Heap)
    requires Valid(nid, h) && pg >= 1
    requires forall f | pg <= f < pg + nr :: f !in h.free && !Flags(h, f).offlined && !Flags(h, f).offlining
    ensures r == InitHeapPages(nid, h, pg, nr)
    ensures Valid(nid, r) && r.free == h.free + Kept(nid, pg, nr)
  {
    forall g: Heap, q: nat | Valid(nid, g) && RunFresh(g, q, 1)
      ensures Valid(nid, InitFirst(nid, g, q)) && InitFirst(nid, g, q).free == g.free + Kept(nid, q, 1)
    {
      InitStep(nid, g, q);
      KeptOne(nid, q);
    }
    assert RunFresh(h, pg, nr);
    InitRangeKeep(nid, h, pg, nr, g => Valid(nid, g));
    r := InitHeapPages(nid, h, pg, nr);
  }

  /** The run [lo, lo + nr) lies above frame 0 and none of its frames is free, offlined or being offlined. */
  predicate RunFresh(g: Heap, lo: nat, nr: nat)
  {
    lo >= 1 && forall f | lo <= f < lo + nr :: f !in g.free && !Flags(g, f).offlined && !Flags(g, f).offlining
  }

  /** P survives freeing any one fresh frame, which frees that frame unless it is a node boundary. */
  ghost predicate FirstKeeps(nid: Topology, P: Heap -> bool)
  {
    forall g: Heap, q: nat | P(g) && RunFresh(g, q, 1) ::
      P(InitFirst(nid, g, q)) && InitFirst(nid, g, q).free == g.free + Kept(nid, q, 1)
  }

  /** Whatever freeing one frame keeps, init_heap_pages keeps over the range. */
  lemma {:induction false} InitRangeKeep(nid: Topology, h: Heap, pg: nat, nr: nat, P: Heap -> bool)
    requires P(h) && FirstKeeps(nid, P) && RunFresh(h, pg, nr)
    ensures P(InitHeapPages(nid, h, pg, nr)) && InitHeapPages(nid, h, pg, nr).free == h.free + Kept(nid, pg, nr)
    decreases nr
  {
    if nr == 0 {
      assert Kept(nid, pg, nr) == {};
      assert A: InitHeapPages(nid, h, pg, nr) == h;
    } else {
      var next := pg + 1;
      var h' := InitRangeStep(nid, h, pg, nr, next, P);
      InitRangeKeep(nid, h', next, nr - 1, P);
      KeptStep(nid, pg, next, nr);
      assert B: P(InitHeapPages(nid, h', next, nr - 1));
      assert C: InitHeapPages(nid, h', next, nr - 1).free == h'.free + Kept(nid, next, nr - 1);
    }
  }

  /** The first frame of the range handed over, and what the rest of the range sees. */
  lemma InitRangeStep(nid: Topology, h: Heap, pg: nat, nr: nat, next: nat, P: Heap -> bool) returns (h': Heap)
    requires P(h) && FirstKeeps(nid, P) && RunFresh(h, pg, nr) && nr > 0 && next == pg + 1
    ensures P(h') && h'.free == h.free + Kept(nid, pg, 1)
    ensures RunFresh(h', next, nr - 1)
    ensures InitHeapPages(nid, h, pg, nr) == InitHeapPages(nid, h', next, nr - 1)
  {
    assert RunFresh(h, pg, 1);
    h' := InitFirst(nid, h, pg);
    assert h'.free <= h.free + {pg};
    InitRest(h, h', pg, next, nr);
    InitUnfold(nid, h, pg, nr, h', next);
  }

  /** One frame's share of the range. */
  lemma KeptOne(nid: Topology, pg: nat)
    ensures Kept(nid, pg, 1) == if Boundary(nid, pg) then {} else {pg}
  {
  }

  /** The state after the first frame of the range. */
  function InitFirst(nid: Topology, h: Heap, pg: nat): (h': Heap)
    requires !Flags(h, pg).offlined
    ensures forall f: nat | f != pg :: Flags(h', f) == Flags(h, f)
  {
    assert forall f | InSpan(f, pg, 0) :: f == pg;
    if !Boundary(nid, pg) then FreeHeapPages(nid, h, pg, 0) else h
  }

  /** The rest of the range is untouched by the first frame. */
  lemma InitRest(h: Heap, h': Heap, pg: nat, next: nat, nr: nat)
    requires next == pg + 1
    requires forall f | pg <= f < pg + nr :: f !in h.free && !Flags(h, f).offlined && !Flags(h, f).offlining
    requires forall f: nat | f != pg :: Flags(h', f) == Flags(h, f)
    requires h'.free <= h.free + {pg}
    ensures forall f | next <= f < next + (nr - 1) :: f !in h'.free && !Flags(h', f).offlined && !Flags(h', f).offlining
  {
  }

  /** init_heap_pages, one frame spelt out. */
  lemma InitUnfold(nid: Topology, h: Heap, pg: nat, nr: nat, h': Heap, next: nat)
    requires nr > 0 && next == pg + 1
    requires forall f | pg <= f < pg + nr :: !Flags(h, f).offlined
    requires h' == InitFirst(nid, h, pg)
    requires forall f | next <= f < next + (nr - 1) :: !Flags(h', f).offlined
    ensures InitHeapPages(nid, h, pg, nr) == InitHeapPages(nid, h', next, nr - 1)
  {
    assert InitHeapPages(nid, h, pg, nr) == InitFrame(nid, h, pg, nr);
    if !Boundary(nid, pg) {
      assert InitFrame(nid, h, pg, nr) == InitFreed(nid, h, pg, nr);
    }
  }

  /** Freeing one frame of the range. */
  lemma InitStep(nid: Topology, h: Heap, pg: nat)
    requires Valid(nid, h) && pg >= 1
    requires pg !in h.free && !Flags(h, pg).offlined && !Flags(h, pg).offlining
    ensures var r := InitFirst(nid, h, pg);
      Valid(nid, r) && r.free == h.free + (if Boundary(nid, pg) then {} else {pg})
  {
    if !Boundary(nid, pg) {
      assert forall f | InSpan(f, pg, 0) :: f == pg;
      assert Span(pg, 0) == {pg};
      assert Returnable(nid, h, pg, 0);
      assert TaintedIn(h, pg, 0) == {};
      FreeValid(nid, h, pg, 0);
    }
  }

  lemma KeptStep(nid: Topology, pg: nat, next: nat, nr: nat)
    requires nr > 0 && next == pg + 1
    ensures Kept(nid, pg, nr) == Kept(nid, pg, 1) + Kept(nid, next, nr - 1)
  {
  }

  // ---------------------------------------------------------------------
  // avail_heap_pages

  /** avail[n][z] summed over the zones zlo <= z < zend. */
  function ZoneSum(h: Heap, n: nat, zlo: nat, zend: nat): nat
    decreases zend
  {
    if zend <= zlo then 0 else ZoneSum(h, n, zlo, zend - 1) + Avail(h, n, zend - 1)
  }

  /** Node n counts: it is online and it is the node asked for, or -1 asks for all. */
  predicate Counted(online: set<nat>, node: int, n: nat)
  {
    n in online && (node == -1 || node == n)
  }

  /** The zone sums of the counted nodes below i. */
  function NodeSum(h: Heap, online: set<nat>, node: int, zlo: nat, zend: nat, i: nat): nat
    decreases i
  {
    if i == 0 then 0
    else NodeSum(h, online, node, zlo, zend, i - 1) + (if Counted(online, node, i - 1) then ZoneSum(h, i - 1, zlo, zend) else 0)
  }

  /**
   * avail_heap_pages(zone_lo, zone_hi, node): zone_hi is clamped to the last
   * zone; node -1 counts every online node.
   */
  function AvailHeapPages(h: Heap, online: set<nat>, zoneLo: nat, zoneHi: nat, node: int): nat
  {
    var zhi := if zoneHi >= NrZones then NrZones - 1 else zoneHi;
    NodeSum(h, online, node, zoneLo, zhi + 1, MaxNumNodes)
  }

  /** The free frames of node n in zones zlo <= z < zend. */
  function ZoneFrames(nid: Topology, free: set<nat>, n: nat, zlo: nat, zend: nat): set<nat>
  {
    set f | f in free && NodeOf(nid, f) == n && zlo <= Zone(f) < zend
  }

  /** The free frames of counted nodes below i in zones zlo <= z < zend. */
  function NodeFrames(nid: Topology, free: set<nat>, online: set<nat>, node: int, zlo: nat, zend: nat, i: nat): set<nat>
  {
    set f | f in free && NodeOf(nid, f) < i && Counted(online, node, NodeOf(nid, f)) && zlo <= Zone(f) < zend
  }

  lemma {:induction false} ZoneSumCounts(nid: Topology, h: Heap, n: nat, zlo: nat, zend: nat)
    requires AvailOK(nid, h)
    ensures ZoneSum(h, n, zlo, zend) == |ZoneFrames(nid, h.free, n, zlo, zend)|
    decreases zend
  {
    if zend > zlo {
      var z := zend - 1;
      ZoneSumCounts(nid, h, n, zlo, z);
      ZoneFramesStep(nid, h.free, n, zlo, z, zend);
    } else {
      assert ZoneFrames(nid, h.free, n, zlo, zend) == {};
    }
  }

  /** The frames of zones below z + 1 are those below z and those of zone z. */
  lemma ZoneFramesStep(nid: Topology, free: set<nat>, n: nat, zlo: nat, z: nat, zend: nat)
    requires zend == z + 1 && zlo <= z
    ensures |ZoneFrames(nid, free, n, zlo, zend)| == |ZoneFrames(nid, free, n, zlo, z)| + |FreeIn(nid, free, n, z)|
  {
    var A, B := ZoneFrames(nid, free, n, zlo, z), FreeIn(nid, free, n, z);
    assert ZoneFrames(nid, free, n, zlo, zend) == A + B;
    assert A * B == {};
  }

  lemma {:induction false} NodeSumCounts(nid: Topology, h: Heap, online: set<nat>, node: int, zlo: nat, zend: nat, i: nat)
    requires AvailOK(nid, h)
    ensures NodeSum(h, online, node, zlo, zend, i) == |NodeFrames(nid, h.free, online, node, zlo, zend, i)|
    decreases i
  {
    if i > 0 {
      var n := i - 1;
      NodeSumCounts(nid, h, online, node, zlo, zend, n);
      if Counted(online, node, n) {
        ZoneSumCounts(nid, h, n, zlo, zend);
      }
      NodeFramesStep(nid, h.free, online, node, zlo, zend, n, i);
    } else {
      assert NodeFrames(nid, h.free, online, node, zlo, zend, i) == {};
    }
  }

  /** The frames of the counted nodes below n + 1 are those below n and those of node n. */
  lemma NodeFramesStep(nid: Topology, free: set<nat>, online: set<nat>, node: int, zlo: nat, zend: nat, n: nat, i: nat)
    requires i == n + 1
    ensures var A := NodeFrames(nid, free, online, node, zlo, zend, n);
      var B := if Counted(online, node, n) then ZoneFrames(nid, free, n, zlo, zend) else {};
      NodeFrames(nid, free, online, node, zlo, zend, i) == A + B && |NodeFrames(nid, free, online, node, zlo, zend, i)| == |A| + |B|
  {
    var A := NodeFrames(nid, free, online, node, zlo, zend, n);
    var B := if Counted(online, node, n) then ZoneFrames(nid, free, n, zlo, zend) else {};
    assert NodeFrames(nid, free, online, node, zlo, zend, i) == A + B;
    assert A * B == {};
  }

  /**
   * With exact counters, avail_heap_pages is the number of free frames of
   * the counted online nodes in zones zone_lo to zone_hi (clamped).
   */
  lemma AvailHeapPagesCounts(nid: Topology, h: Heap, online: set<nat>, zoneLo: nat, zoneHi: nat, node: int)
    requires AvailOK(nid, h)
    ensures var zhi := if zoneHi >= NrZones then NrZones - 1 else zoneHi;
      AvailHeapPages(h, online, zoneLo, zoneHi, node)
      == |set f | f in h.free && NodeOf(nid, f) < MaxNumNodes && Counted(online, node, NodeOf(nid, f))
                  && zoneLo <= Zone(f) <= zhi|
  {
    var zhi := if zoneHi >= NrZones then NrZones - 1 else zoneHi;
    NodeSumCounts(nid, h, online, node, zoneLo, zhi + 1, MaxNumNodes);
    assert NodeFrames(nid, h.free, online, node, zoneLo, zhi + 1, MaxNumNodes)
      == set f | f in h.free && NodeOf(nid, f) < MaxNumNodes && Counted(online, node, NodeOf(nid, f))
                 && zoneLo <= Zone(f) <= zhi;
  }

  // ---------------------------------------------------------------------
  // end_boot_allocator

  /**
   * The frames end_boot_allocator takes from the boot allocator: free in
   * the bitmap, not Xen-heap pages, from first_valid_mfn up to and
   * including max_page (the loop looks one frame ahead).
   */
  function DomheapFrames(h: Heap, xenHeap: set<nat>, first: nat, maxPage: nat): (s: set<nat>)
    ensures forall f :: f in s <==> first <= f <= maxPage && f in h.free && f !in xenHeap
  {
    set f | f in h.free && first <= f <= maxPage && f !in xenHeap
  }

  /**
   * The loop of end_boot_allocator at frame i, with a run of nr taken
   * frames [lo, i) ending just below it: a run is handed to init_heap_pages
   * when it ends, and the last one after the loop.
   */
  function BootRuns(nid: Topology, h: Heap, D: set<nat>, lo: nat, nr: nat, i: nat, maxPage: nat): (r: Heap)
    requires lo + nr == i
    requires forall f | f in D && lo <= f :: !Flags(h, f).offlined
    requires forall f | lo <= f < i :: f in D
    decreases maxPage - i
  {
    if i >= maxPage then
      if nr > 0 then InitHeapPages(nid, h, lo, nr) else h
    else if i in D then BootRuns(nid, h, D, lo, nr + 1, i + 1, maxPage)
    else if nr > 0 then BootRuns(nid, InitHeapPages(nid, h, lo, nr), D, i + 1, 0, i + 1, maxPage)
    else BootRuns(nid, h, D, i + 1, 0, i + 1, maxPage)
  }

  /**
   * end_boot_allocator: every frame it takes is marked allocated, then each
   * run of them goes to init_heap_pages.  The source marks frame i+1
   * allocated just before the run ending at i is handed over; no merge of
   * that run looks past frame i+1, so marking all of them first has the
   * same outcome.
   */
  function EndBootAllocator(nid: Topology, h: Heap, xenHeap: set<nat>, first: nat, maxPage: nat): (r: Heap)
    requires forall f | f in h.free && first <= f <= maxPage && f !in xenHeap :: !Flags(h, f).offlined
  {
    var D := DomheapFrames(h, xenHeap, first, maxPage);
    var h1 := h.(free := h.free - D);
    assert forall f | f in D :: Flags(h1, f) == Flags(h, f) && !Flags(h, f).offlined;
    BootRuns(nid, h1, D, first, 0, first, maxPage)
  }

  /** The frames of D in [lo, maxPage) that are not node boundaries. */
  function KeptIn(nid: Topology, D: set<nat>, lo: nat, maxPage: nat): (s: set<nat>)
    ensures forall f :: f in s <==> f in D && lo <= f < maxPage && !Boundary(nid, f)
  {
    set f | f in D && lo <= f < maxPage && !Boundary(nid, f)
  }

  /** The loop keeps the heap valid and frees the taken frames that are not node boundaries. */
  lemma BootRunsValid(nid: Topology, h: Heap, D: set<nat>, lo: nat, nr: nat, i: nat, maxPage: nat)
    returns (r: Heap)
    requires lo + nr == i && lo >= 1 && (nr > 0 ==> i <= maxPage)
    requires Valid(nid, h)
    requires forall f | f in D && lo <= f :: f !in h.free && !Flags(h, f).offlined && !Flags(h, f).offlining
    requires forall f | lo <= f < i :: f in D
    ensures r == BootRuns(nid, h, D, lo, nr, i, maxPage)
    ensures Valid(nid, r) && r.free == h.free + KeptIn(nid, D, lo, maxPage)
  {
    forall g: Heap, a: nat, n: nat | Valid(nid, g) && RunFresh(g, a, n)
      ensures Valid(nid, InitHeapPages(nid, g, a, n)) && InitHeapPages(nid, g, a, n).free == g.free + Kept(nid, a, n)
    {
      var r' := InitValid(nid, g, a, n);
    }
    r := BootRunsKeep(nid, h, D, lo, nr, i, maxPage, g => Valid(nid, g));
  }

  /** P survives init_heap_pages on any fresh run, which frees the run's frames that are not node boundaries. */
  ghost predicate InitKeeps(nid: Topology, P: Heap -> bool)
  {
    forall g: Heap, a: nat, n: nat | P(g) && RunFresh(g, a, n) ::
      P(InitHeapPages(nid, g, a, n)) && InitHeapPages(nid, g, a, n).free == g.free + Kept(nid, a, n)
  }

  /** Whatever init_heap_pages keeps, the loop of end_boot_allocator keeps. */
  lemma {:induction false} BootRunsKeep(nid: Topology, h: Heap, D: set<nat>, lo: nat, nr: nat, i: nat, maxPage: nat,
                                        P: Heap -> bool)
    returns (r: Heap)
    requires lo + nr == i && lo >= 1 && (nr > 0 ==> i <= maxPage)
    requires P(h) && InitKeeps(nid, P)
    requires forall f | f in D && lo <= f :: f !in h.free && !Flags(h, f).offlined && !Flags(h, f).offlining
    requires forall f | lo <= f < i :: f in D
    ensures r == BootRuns(nid, h, D, lo, nr, i, maxPage)
    ensures P(r) && r.free == h.free + KeptIn(nid, D, lo, maxPage)
    decreases maxPage - i
  {
    var next := i + 1;
    if i < maxPage {
      BootRunsStep(nid, h, D, lo, nr, i, maxPage, next);
    }
    if i >= maxPage {
      r := BootRunsLast(nid, h, D, lo, nr, i, maxPage, P);
    } else if i in D {
      r := BootRunsKeep(nid, h, D, lo, nr + 1, next, maxPage, P);
    } else if nr > 0 {
      var h' := BootRunsFlush(nid, h, D, lo, nr, i, maxPage, next, P);
      r := BootRunsKeep(nid, h', D, next, 0, next, maxPage, P);
      KeptInFlush(nid, D, lo, nr, i, maxPage, next);
    } else {
      r := BootRunsKeep(nid, h, D, next, 0, next, maxPage, P);
      KeptInSkip(nid, D, lo, i, maxPage, next);
    }
  }

  /** The frames a flushed run frees, and those the rest of the loop frees. */
  lemma KeptInFlush(nid: Topology, D: set<nat>, lo: nat, nr: nat, i: nat, maxPage: nat, next: nat)
    requires lo + nr == i && i < maxPage && i !in D && next == i + 1
    requires forall f | lo <= f < i :: f in D
    ensures KeptIn(nid, D, lo, maxPage) == Kept(nid, lo, nr) + KeptIn(nid, D, next, maxPage)
  {
  }

  /** A frame outside D with no run before it frees nothing. */
  lemma KeptInSkip(nid: Topology, D: set<nat>, lo: nat, i: nat, maxPage: nat, next: nat)
    requires lo == i && i !in D && next == i + 1
    ensures KeptIn(nid, D, lo, maxPage) == KeptIn(nid, D, next, maxPage)
  {
  }

  /** After the loop: the last run, if any, is handed over. */
  lemma BootRunsLast(nid: Topology, h: Heap, D: set<nat>, lo: nat, nr: nat, i: nat, maxPage: nat, P: Heap -> bool)
    returns (r: Heap)
    requires lo + nr == i && lo >= 1 && i >= maxPage && (nr > 0 ==> i == maxPage)
    requires P(h) && InitKeeps(nid, P)
    requires forall f | f in D && lo <= f :: f !in h.free && !Flags(h, f).offlined && !Flags(h, f).offlining
    requires forall f | lo <= f < i :: f in D
    ensures r == BootRuns(nid, h, D, lo, nr, i, maxPage)
    ensures P(r) && r.free == h.free + KeptIn(nid, D, lo, maxPage)
  {
    if nr > 0 {
      assert RunFresh(h, lo, nr);
      r := InitHeapPages(nid, h, lo, nr);
      assert Kept(nid, lo, nr) == KeptIn(nid, D, lo, maxPage);
    } else {
      r := h;
      assert KeptIn(nid, D, lo, maxPage) == {};
    }
  }

  /** One step of the loop, spelt out. */
  lemma BootRunsStep(nid: Topology, h: Heap, D: set<nat>, lo: nat, nr: nat, i: nat, maxPage: nat, next: nat)
    requires lo + nr == i && i < maxPage && next == i + 1
    requires forall f | f in D && lo <= f :: !Flags(h, f).offlined
    requires forall f | lo <= f < i :: f in D
    ensures i in D ==> BootRuns(nid, h, D, lo, nr, i, maxPage) == BootRuns(nid, h, D, lo, nr + 1, next, maxPage)
    ensures i !in D && nr > 0 ==>
      BootRuns(nid, h, D, lo, nr, i, maxPage) == BootRuns(nid, InitHeapPages(nid, h, lo, nr), D, next, 0, next, maxPage)
    ensures i !in D && nr == 0 ==> BootRuns(nid, h, D, lo, nr, i, maxPage) == BootRuns(nid, h, D, next, 0, next, maxPage)
  {
  }

  /** A run ends at frame i, which is not taken: the run goes to init_heap_pages. */
  lemma BootRunsFlush(nid: Topology, h: Heap, D: set<nat>, lo: nat, nr: nat, i: nat, maxPage: nat, next: nat,
                      P: Heap -> bool)
    returns (h': Heap)
    requires 0 < nr && lo + nr == i && lo >= 1 && i < maxPage && i !in D && next == i + 1
    requires P(h) && InitKeeps(nid, P)
    requires forall f | f in D && lo <= f :: f !in h.free && !Flags(h, f).offlined && !Flags(h, f).offlining
    requires forall f | lo <= f < i :: f in D
    ensures h' == InitHeapPages(nid, h, lo, nr)
    ensures P(h') && h'.free == h.free + Kept(nid, lo, nr)
    ensures forall f | f in D && next <= f :: f !in h'.free && !Flags(h', f).offlined && !Flags(h', f).offlining
  {
    assert RunFresh(h, lo, nr);
    h' := InitHeapPages(nid, h, lo, nr);
  }

  /**
   * Starting from an empty heap whose bitmap is what the boot allocator
   * left, end_boot_allocator yields a valid heap whose free frames are
   * exactly the taken frames below max_page that are not node boundaries.
   */
  lemma EndBootValid(nid: Topology, h: Heap, xenHeap: set<nat>, first: nat, maxPage: nat)
    requires first >= 1 && h.lists == map[] && h.avail == map[]
    requires forall f | f in h.free :: first <= f <= maxPage && f !in xenHeap && Flags(h, f) == Online
    ensures var r := EndBootAllocator(nid, h, xenHeap, first, maxPage);
      Valid(nid, r) && r.free == set f | f in h.free && f < maxPage && !Boundary(nid, f)
  {
    var D := DomheapFrames(h, xenHeap, first, maxPage);
    var h1 := h.(free := h.free - D);
    assert h1.free == {};
    EmptyValid(nid, h1);
    var r := BootRunsValid(nid, h1, D, first, 0, first, maxPage);
    assert KeptIn(nid, D, first, maxPage) == set f | f in h.free && f < maxPage && !Boundary(nid, f);
  }

  /** A heap with no free frame, no list and no counter is valid. */
  lemma EmptyValid(nid: Topology, h: Heap)
    requires h.free == {} && h.lists == map[] && h.avail == map[]
    ensures Valid(nid, h)
  {
    assert FreeBlocks(nid, h) == map[];
    forall n, z ensures Avail(h, n, z) == |FreeIn(nid, h.free, n, z)| {
      assert FreeIn(nid, h.free, n, z) == {};
    }
  }

  /**
   * The DMA width end_boot_allocator picks when none was given and more
   * than one node is online: fls(node 0's spanned pages) - 1 + PAGE_SHIFT
   * - 2, at most 32, so that the DMA zones cover about a quarter of node 0.
   */
  function DmaBitsAfterBoot(dmaBits: nat, onlineNodes: nat, spanned0: nat): (r: nat)
    ensures dmaBits != 0 || onlineNodes <= 1 ==> r == dmaBits
    ensures dmaBits == 0 && onlineNodes > 1 ==> (
      9 <= r <= 32
      && (r < 32 ==> spanned0 < Pow2(r - 9))
      && (r < 32 && spanned0 > 0 ==> Pow2(r - 10) <= spanned0))
  {
    if dmaBits != 0 || onlineNodes <= 1 then dmaBits
    else
      var w := Fls(spanned0) - 1 + PageShift - 2;
      assert spanned0 > 0 ==> Pow2(Fls(spanned0) - 1) <= spanned0 < Pow2(Fls(spanned0)) by {
        if spanned0 > 0 {
          FlsBounds(spanned0);
        }
      }
      if w < 32 then w else 32
  }
}
