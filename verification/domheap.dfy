/**
 * The domain-heap facade and the scrub queue (page_alloc.c:1106-1230,
 * 1322-1373): ownership and quota only.
 *
 * assign_pages hands a block to a domain: it refuses a dying domain and,
 * unless the request is exempt from accounting, one whose tot_pages would
 * exceed max_pages; otherwise every frame gets the domain as its owner and
 * joins the domain's page list.  alloc_domheap_pages picks the zone range
 * from the requested address width, tries the zones above the DMA zone
 * first, and gives the block back to the heap if assign_pages refuses.
 * free_domheap_pages undoes the accounting; the frames of a dying domain
 * are not freed but queued for scrubbing, and page_scrub_softirq later
 * frees them, up to 16 at a time, at order 0.
 *
 * Domains live in a map from their id; the owner of a frame is recorded in
 * the heap (Heap.owner) by id.  Domain reference counting, the locks and
 * the scrubber's timers and time budget are not modelled.
 */
module DomHeap {
  import opened Options
  import opened Arith
  import opened Zones
  import opened Blocks
  import opened Heap
  import opened HeapAlloc
  import opened HeapFree

  /** unsigned int counters (tot_pages, xenheap_pages) wrap modulo 2^32. */
  const UintMod: nat := 0x1_0000_0000

  /** NUMA_NO_NODE */
  const NumaNoNode: nat := 0xFF

  /** BITS_PER_LONG on x86_64. */
  const BitsPerLong: nat := 64

  /** Pages page_scrub_softirq peels off the queue per batch. */
  const ScrubBatchSize: nat := 16

  datatype Domain = Domain(
    dying: bool,          // is_dying
    totPages: nat,        // tot_pages
    maxPages: nat,        // max_pages
    xenheapPages: nat,    // xenheap_pages
    pages: seq<nat>,      // page_list
    xenPages: seq<nat>)   // xenpage_list

  /** The heap together with the domains and the scrub queue. */
  datatype World = World(heap: Heap, doms: map<nat, Domain>, scrub: seq<nat>, scrubPages: nat)

  /** The frames of the block of order `order` at pg, lowest first. */
  function SpanSeq(pg: nat, order: nat): (s: seq<nat>)
    ensures |s| == Pow2(order)
    ensures forall i | 0 <= i < |s| :: s[i] == pg + i
  {
    seq(Pow2(order), i requires 0 <= i => pg + i)
  }

  /** The same frames, highest first: the order page_list_add at the head leaves them in. */
  function SpanSeqDown(pg: nat, order: nat): (s: seq<nat>)
    ensures |s| == Pow2(order)
    ensures forall i | 0 <= i < |s| :: s[i] == pg + Pow2(order) - 1 - i
  {
    seq(Pow2(order), i requires 0 <= i < Pow2(order) => pg + Pow2(order) - 1 - i)
  }

  /** page_list_del2 applied to each frame of S: the list without those frames, in order. */
  function Without(s: seq<nat>, S: set<nat>): (r: seq<nat>)
    ensures forall x :: x in r <==> x in s && x !in S
  {
    if |s| == 0 then []
    else if s[0] in S then Without(s[1..], S)
    else [s[0]] + Without(s[1..], S)
  }

  // ---------------------------------------------------------------------
  // assign_pages

  /** The outcome of assign_pages: 0 or -1, the domain, the owners. */
  datatype Assignment = Assignment(ret: int, dom: Domain, owner: map<nat, nat>)

  /**
   * assign_pages(d, pg, order, memflags): refused for a dying domain, and
   * for one over its quota unless MEMF_no_refcount is given; otherwise the
   * frames join the tail of the page list in order and are owned by d.
   * The source asserts that no frame has an owner yet.
   */
  function AssignPages(d: Domain, id: nat, owner: map<nat, nat>, pg: nat, order: nat, noRefcount: bool)
    : (r: Assignment)
    requires forall f | InSpan(f, pg, order) :: f !in owner
    ensures r.ret == 0 <==> !d.dying && (noRefcount || d.totPages + Pow2(order) <= d.maxPages)
    ensures r.ret != 0 ==> r.ret == -1 && r.dom == d && r.owner == owner
    ensures r.ret == 0 ==>
      r.dom == d.(pages := d.pages + SpanSeq(pg, order),
                  totPages := if noRefcount then d.totPages else d.totPages + Pow2(order))
      && (forall f :: f in r.owner <==> f in owner || InSpan(f, pg, order))
      && (forall f | InSpan(f, pg, order) :: r.owner[f] == id)
      && (forall f | f in owner :: r.owner[f] == owner[f])
    ensures !noRefcount && d.totPages <= d.maxPages ==> r.dom.totPages <= r.dom.maxPages
  {
    if d.dying then Assignment(-1, d, owner)
    else if !noRefcount && d.totPages + Pow2(order) > d.maxPages then Assignment(-1, d, owner)
    else
      var newOwner := map f | f in owner.Keys + Span(pg, order) :: if f in owner then owner[f] else id;
      Assignment(0,
        d.(pages := d.pages + SpanSeq(pg, order),
           totPages := if noRefcount then d.totPages else d.totPages + Pow2(order)),
        newOwner)
  }

  /** x as an unsigned int. */
  function Uint(x: int): nat
  {
    x % UintMod
  }

  /** The accounting half of free_domheap_pages for a page the domain owns. */
  function Release(d: Domain, pg: nat, order: nat): (r: Domain)
    ensures forall f :: f in r.pages <==> f in d.pages && !InSpan(f, pg, order)
    ensures Pow2(order) <= d.totPages < UintMod ==> r.totPages == d.totPages - Pow2(order)
    ensures r.dying == d.dying && r.maxPages == d.maxPages && r.xenPages == d.xenPages
  {
    assert Pow2(order) <= d.totPages < UintMod ==> Uint(d.totPages - Pow2(order)) == d.totPages - Pow2(order) by {
      if Pow2(order) <= d.totPages < UintMod {
        DivModUnique(d.totPages - Pow2(order), UintMod, 0, d.totPages - Pow2(order));
      }
    }
    d.(pages := Without(d.pages, Span(pg, order)), totPages := Uint(d.totPages - Pow2(order)))
  }

  /** Every frame on the page list is counted in tot_pages, once. */
  predicate Counted(d: Domain)
  {
    NoDup(d.pages) && d.totPages == |d.pages| && d.totPages <= d.maxPages && d.maxPages < UintMod
  }

  /** A counted assignment keeps tot_pages equal to the length of the page list. */
  lemma AssignCounted(d: Domain, id: nat, owner: map<nat, nat>, pg: nat, order: nat)
    requires forall f | InSpan(f, pg, order) :: f !in owner
    requires Counted(d)
    requires forall f | f in d.pages :: !InSpan(f, pg, order)
    ensures Counted(AssignPages(d, id, owner, pg, order, false).dom)
  {
    var r := AssignPages(d, id, owner, pg, order, false);
    if r.ret == 0 {
      var s := d.pages + SpanSeq(pg, order);
      assert r.dom.pages == s;
      forall i, j | 0 <= i < j < |s| ensures s[i] != s[j] {
        if j >= |d.pages| && i < |d.pages| {
          assert InSpan(s[j], pg, order);
          assert s[i] in d.pages;
        }
      }
    }
  }

  /** Giving back what assign_pages took restores the domain exactly. */
  lemma AssignThenRelease(d: Domain, id: nat, owner: map<nat, nat>, pg: nat, order: nat)
    requires forall f | InSpan(f, pg, order) :: f !in owner
    requires forall f | f in d.pages :: !InSpan(f, pg, order)
    requires d.totPages <= d.maxPages < UintMod
    requires AssignPages(d, id, owner, pg, order, false).ret == 0
    ensures Release(AssignPages(d, id, owner, pg, order, false).dom, pg, order) == d
  {
    var a := AssignPages(d, id, owner, pg, order, false).dom;
    WithoutConcat(d.pages, SpanSeq(pg, order), Span(pg, order));
    WithoutNone(d.pages, Span(pg, order));
    WithoutAll(SpanSeq(pg, order), Span(pg, order));
    assert Without(a.pages, Span(pg, order)) == d.pages;
  }

  /** Releasing a block the domain holds keeps tot_pages equal to the length of the page list. */
  lemma ReleaseCounted(d: Domain, pg: nat, order: nat)
    requires Counted(d)
    requires forall f | InSpan(f, pg, order) :: f in d.pages
    ensures Counted(Release(d, pg, order))
  {
    var S := Span(pg, order);
    var r := Without(d.pages, S);
    WithoutNoDup(d.pages, S);
    DistinctCard(d.pages);
    DistinctCard(r);
    assert Elems(r) == Elems(d.pages) - S;
    SpanCard(pg, order);
    assert S <= Elems(d.pages);
    assert |Elems(r)| == |Elems(d.pages)| - |S|;
  }

  lemma {:induction false} WithoutConcat(a: seq<nat>, b: seq<nat>, S: set<nat>)
    ensures Without(a + b, S) == Without(a, S) + Without(b, S)
    decreases |a|
  {
    if |a| > 0 {
      assert (a + b)[0] == a[0];
      assert (a + b)[1..] == a[1..] + b;
      WithoutConcat(a[1..], b, S);
    } else {
      assert a + b == b;
    }
  }

  lemma {:induction false} WithoutNone(s: seq<nat>, S: set<nat>)
    requires forall x | x in s :: x !in S
    ensures Without(s, S) == s
    decreases |s|
  {
    if |s| > 0 {
      WithoutNone(s[1..], S);
      assert [s[0]] + s[1..] == s;
    }
  }

  lemma {:induction false} WithoutAll(s: seq<nat>, S: set<nat>)
    requires forall x | x in s :: x in S
    ensures Without(s, S) == []
    decreases |s|
  {
    if |s| > 0 {
      WithoutAll(s[1..], S);
    }
  }

  /** The frames on a list. */
  function Elems(s: seq<nat>): (E: set<nat>)
    ensures forall x :: x in E <==> x in s
  {
    set x | x in s
  }

  /** A list without duplicates has as many entries as elements. */
  lemma {:induction false} DistinctCard(s: seq<nat>)
    requires NoDup(s)
    ensures |Elems(s)| == |s|
    decreases |s|
  {
    if |s| > 0 {
      var t := s[1..];
      assert NoDup(t) by {
        forall i, j | 0 <= i < j < |t| ensures t[i] != t[j] {
          assert t[i] == s[i + 1] && t[j] == s[j + 1];
        }
      }
      DistinctCard(t);
      assert s[0] !in t by {
        forall i | 0 <= i < |t| ensures t[i] != s[0] {
          assert t[i] == s[i + 1];
        }
      }
      assert s == [s[0]] + t;
      assert Elems(s) == Elems(t) + {s[0]};
    } else {
      assert Elems(s) == {};
    }
  }

  lemma {:induction false} WithoutNoDup(s: seq<nat>, S: set<nat>)
    requires NoDup(s)
    ensures NoDup(Without(s, S))
    decreases |s|
  {
    if |s| > 0 {
      var t := s[1..];
      assert NoDup(t) by {
        forall i, j | 0 <= i < j < |t| ensures t[i] != t[j] {
          assert t[i] == s[i + 1] && t[j] == s[j + 1];
        }
      }
      WithoutNoDup(t, S);
      if s[0] !in S {
        var w := Without(t, S);
        assert s[0] !in t by {
          forall i | 0 <= i < |t| ensures t[i] != s[0] {
            assert t[i] == s[i + 1];
          }
        }
        var r := [s[0]] + w;
        forall i, j | 0 <= i < j < |r| ensures r[i] != r[j] {
          if i == 0 {
            assert r[j] == w[j - 1] && r[j] in t;
          } else {
            assert r[i] == w[i - 1] && r[j] == w[j - 1];
          }
        }
      }
    }
  }

  // ---------------------------------------------------------------------
  // alloc_domheap_pages

  /** The fields of memflags alloc_domheap_pages reads: MEMF_no_refcount, the node byte and the address width. */
  datatype MemFlags = MemFlags(noRefcount: bool, nodeField: nat, bits: nat)

  /** (uint8_t)((memflags >> _MEMF_node) - 1): a node field of 0 asks for no node in particular. */
  function RequestedNode(flags: MemFlags): (n: nat)
    requires flags.nodeField < 256
    ensures flags.nodeField == 0 ==> n == NumaNoNode
    ensures flags.nodeField > 0 ==> n + 1 == flags.nodeField
  {
    (flags.nodeField - 1) % 256
  }

  /**
   * The highest zone alloc_domheap_pages may use: the requested width, or
   * BITS_PER_LONG + PAGE_SHIFT when none is given, after the domain's clamp
   * (domain_clamp_alloc_bitsize), capped at the top zone.
   */
  function DomZoneHi(flags: MemFlags, clamp: nat -> nat): (z: nat)
    ensures z < NrZones
    ensures z <= BitsToZone(clamp(if flags.bits == 0 then BitsPerLong + PageShift else flags.bits))
  {
    var bits := clamp(if flags.bits == 0 then BitsPerLong + PageShift else flags.bits);
    var z := BitsToZone(bits);
    if z < NrZones - 1 then z else NrZones - 1
  }

  /**
   * The lowest zone of the attempt that serves alloc_domheap_pages: above
   * the DMA zone when dma_bitsize is set, leaves room and that attempt
   * finds a block; everything above MEMZONE_XEN otherwise.
   */
  function AttemptLo(h: Heap, online: set<nat>, node: nat, zoneHi: nat, order: nat, dmaBits: nat): (lo: nat)
    requires OnlineOK(online) && node < MaxNumNodes && 1 <= zoneHi < NrZones
    ensures MemzoneXen < lo <= zoneHi
    ensures lo != MemzoneXen + 1 ==> dmaBits != 0 && lo == BitsToZone(dmaBits) + 1
  {
    if dmaBits != 0 && BitsToZone(dmaBits) < zoneHi
       && Found(h, online, node, BitsToZone(dmaBits) + 1, zoneHi, order).Some?
    then BitsToZone(dmaBits) + 1
    else MemzoneXen + 1
  }

  /**
   * The two calls of alloc_heap_pages in alloc_domheap_pages.  A call that
   * finds nothing leaves the heap alone, so the pair amounts to one call
   * from the zone AttemptLo picks: the request fails only when both
   * searches come up empty.
   */
  function HeapAttempt(h: Heap, online: set<nat>, node: nat, zoneHi: nat, order: nat, dmaBits: nat)
    : (r: Allocation)
    requires OnlineOK(online) && node < MaxNumNodes && 1 <= zoneHi < NrZones
    ensures r.page.None? ==> r.heap == h
    ensures r.page.None? <==>
      (dmaBits == 0 || BitsToZone(dmaBits) >= zoneHi ||
         Found(h, online, node, BitsToZone(dmaBits) + 1, zoneHi, order).None?)
      && Found(h, online, node, MemzoneXen + 1, zoneHi, order).None?
  {
    var lo := AttemptLo(h, online, node, zoneHi, order, dmaBits);
    AllocHeapPages(h, online, node, lo, zoneHi, order)
  }

  /** The outcome of alloc_domheap_pages: the new world and the first frame, or NULL. */
  datatype DomAllocation = DomAllocation(world: World, page: Option<nat>)

  /** The node alloc_heap_pages ends up searching from. */
  function TargetNode(flags: MemFlags, d: Option<nat>, domNode: nat, cpuNode: nat): nat
    requires flags.nodeField < 256
  {
    var n := RequestedNode(flags);
    if n != NumaNoNode then n else if d.Some? then domNode else cpuNode
  }

  /**
   * alloc_domheap_pages(d, order, memflags).  domain_clamp_alloc_bitsize
   * is the parameter `clamp`, domain_to_node(d) is `domNode`, the node of
   * the running CPU is `cpuNode`, and dma_bitsize is `dmaBits`.
   */
  function AllocDomheapPages(nid: Topology, w: World, online: set<nat>, cpuNode: nat, d: Option<nat>,
                             domNode: nat, order: nat, flags: MemFlags, clamp: nat -> nat, dmaBits: nat)
    : (r: DomAllocation)
    requires Valid(nid, w.heap) && OnlineOK(online)
    requires cpuNode < MaxNumNodes && domNode < MaxNumNodes
    requires flags.nodeField < 256 && (RequestedNode(flags) < MaxNumNodes || RequestedNode(flags) == NumaNoNode)
    requires d.Some? ==> d.value in w.doms
    ensures r.page.None? ==> r.world.doms == w.doms && r.world.scrub == w.scrub
    ensures DomZoneHi(flags, clamp) == 0 ==> r == DomAllocation(w, None)
  {
    var zoneHi := DomZoneHi(flags, clamp);
    if zoneHi == 0 then DomAllocation(w, None)
    else
      var node := TargetNode(flags, d, domNode, cpuNode);
      var a := HeapAttempt(w.heap, online, node, zoneHi, order, dmaBits);
      if a.page.None? then DomAllocation(w.(heap := a.heap), None)
      else
        AttemptSpan(nid, w.heap, online, node, zoneHi, order, dmaBits);
        Settle(nid, w, a.heap, a.page.value, d, order, flags.noRefcount)
  }

  /**
   * The end of alloc_domheap_pages once alloc_heap_pages has handed out the
   * block at c, leaving the heap a: hand the block to d, or give it back
   * when assign_pages refuses.
   */
  function Settle(nid: Topology, w: World, a: Heap, c: nat, d: Option<nat>, order: nat, noRefcount: bool)
    : (r: DomAllocation)
    requires order <= MaxOrder && forall f | InSpan(f, c, order) :: f !in a.owner && !Flags(a, f).offlined
    requires d.Some? ==> d.value in w.doms
    ensures r.page.None? ==> r.world.doms == w.doms && r.world.scrub == w.scrub
    ensures r.page.Some? ==> r.page.value == c
  {
    if d.None? then DomAllocation(w.(heap := a), Some(c))
    else
      var s := AssignPages(w.doms[d.value], d.value, a.owner, c, order, noRefcount);
      if s.ret == 0 then
        DomAllocation(w.(heap := a.(owner := s.owner), doms := w.doms[d.value := s.dom]), Some(c))
      else
        DomAllocation(w.(heap := FreeHeapPages(nid, a, c, order)), None)
  }

  /** What Settle does for the domain. */
  lemma SettleAssigns(nid: Topology, w: World, a: Heap, c: nat, d: Option<nat>, order: nat, noRefcount: bool)
    requires order <= MaxOrder && forall f | InSpan(f, c, order) :: f !in a.owner && !Flags(a, f).offlined
    requires d.Some? ==> d.value in w.doms
    ensures var r := Settle(nid, w, a, c, d, order, noRefcount);
      r.page.Some? && d.Some? ==>
        var dom := w.doms[d.value];
        r.world.doms == w.doms[d.value := dom.(pages := dom.pages + SpanSeq(c, order),
                           totPages := if noRefcount then dom.totPages else dom.totPages + Pow2(order))]
        && forall f | InSpan(f, c, order) :: f in r.world.heap.owner && r.world.heap.owner[f] == d.value
    ensures var r := Settle(nid, w, a, c, d, order, noRefcount);
      r.page.Some? && d.None? ==>
        r.world.doms == w.doms && forall f | InSpan(f, c, order) :: f !in r.world.heap.owner
  {
    if d.Some? {
      var s := AssignPages(w.doms[d.value], d.value, a.owner, c, order, noRefcount);
      if s.ret == 0 {
        var r := Settle(nid, w, a, c, d, order, noRefcount);
        assert r.world.heap.owner == s.owner && r.world.doms == w.doms[d.value := s.dom];
      }
    }
  }

  /** Settle keeps the heap valid; a refused block goes back and the free frames are those before alloc_heap_pages. */
  lemma SettleValid(nid: Topology, w: World, a: Heap, c: nat, d: Option<nat>, order: nat, noRefcount: bool)
    requires Valid(nid, w.heap) && Taken(nid, w.heap, a, c, order)
    requires d.Some? ==> d.value in w.doms
    ensures order <= MaxOrder && forall f | InSpan(f, c, order) :: f !in a.owner && !Flags(a, f).offlined
    ensures var r := Settle(nid, w, a, c, d, order, noRefcount);
      Valid(nid, r.world.heap)
      && (r.page.None? ==> r.world.heap.free == w.heap.free)
      && (r.page.Some? ==> r.world.heap.free == w.heap.free - Span(c, order))
  {
    if d.Some? {
      var s := AssignPages(w.doms[d.value], d.value, a.owner, c, order, noRefcount);
      if s.ret == 0 {
        OwnerFrame(nid, a, s.owner);
      } else {
        GiveBack(nid, w.heap, a, c, order);
      }
    }
  }

  /**
   * What alloc_domheap_pages does for the domain: on success the block is
   * on the tail of its page list, counted unless MEMF_no_refcount, and
   * owned by it; an anonymous request leaves the block without an owner.
   */
  lemma AllocDomheapAssigns(nid: Topology, w: World, online: set<nat>, cpuNode: nat, d: Option<nat>,
                            domNode: nat, order: nat, flags: MemFlags, clamp: nat -> nat, dmaBits: nat)
    requires Valid(nid, w.heap) && OnlineOK(online)
    requires cpuNode < MaxNumNodes && domNode < MaxNumNodes
    requires flags.nodeField < 256 && (RequestedNode(flags) < MaxNumNodes || RequestedNode(flags) == NumaNoNode)
    requires d.Some? ==> d.value in w.doms
    ensures var r := AllocDomheapPages(nid, w, online, cpuNode, d, domNode, order, flags, clamp, dmaBits);
      r.page.Some? && d.Some? ==>
        var c, dom := r.page.value, w.doms[d.value];
        r.world.doms == w.doms[d.value := dom.(pages := dom.pages + SpanSeq(c, order),
                           totPages := if flags.noRefcount then dom.totPages else dom.totPages + Pow2(order))]
        && forall f | InSpan(f, c, order) :: f in r.world.heap.owner && r.world.heap.owner[f] == d.value
    ensures var r := AllocDomheapPages(nid, w, online, cpuNode, d, domNode, order, flags, clamp, dmaBits);
      r.page.Some? && d.None? ==>
        r.world.doms == w.doms && forall f | InSpan(f, r.page.value, order) :: f !in r.world.heap.owner
  {
    var zoneHi := DomZoneHi(flags, clamp);
    if zoneHi != 0 {
      var node := TargetNode(flags, d, domNode, cpuNode);
      var a := HeapAttempt(w.heap, online, node, zoneHi, order, dmaBits);
      if a.page.Some? {
        AttemptSpan(nid, w.heap, online, node, zoneHi, order, dmaBits);
        SettleAssigns(nid, w, a.heap, a.page.value, d, order, flags.noRefcount);
      }
    }
  }

  /** What alloc_heap_pages leaves behind for the block it hands out. */
  ghost predicate Taken(nid: Topology, h: Heap, a: Heap, c: nat, order: nat)
  {
    Valid(nid, a) && Returnable(nid, a, c, order)
    && a.free == h.free - Span(c, order) && (forall f | InSpan(f, c, order) :: f in h.free)
    && a.flags == h.flags && (forall f | InSpan(f, c, order) :: f !in a.owner)
  }

  /** The facts alloc_heap_pages establishes, gathered. */
  lemma TakenFrom(nid: Topology, h: Heap, a: Heap, c: nat, order: nat)
    requires Valid(nid, h) && Valid(nid, a) && c >= 1 && order <= MaxOrder && Aligned(c, order)
    requires (forall f | InSpan(f, c, order) :: f in h.free) && a.free == h.free - Span(c, order)
    requires a.flags == h.flags && forall f | InSpan(f, c, order) :: f !in a.owner
    ensures Taken(nid, h, a, c, order)
  {
    SpanUniform(nid, h, c, order);
    forall f | InSpan(f, c, order) ensures !Boundary(nid, f) && !Flags(a, f).offlined {
      assert f in h.free;
    }
  }

  /** alloc_heap_pages leaves the page states alone and the chunk without an owner. */
  lemma AllocKeeps(h: Heap, online: set<nat>, node: nat, zoneLo: nat, zoneHi: nat, order: nat)
    requires OnlineOK(online) && node < MaxNumNodes && zoneLo <= zoneHi < NrZones
    requires AllocHeapPages(h, online, node, zoneLo, zoneHi, order).page.Some?
    ensures var r := AllocHeapPages(h, online, node, zoneLo, zoneHi, order);
      order <= MaxOrder && r.heap.flags == h.flags
      && forall f | InSpan(f, r.page.value, order) :: f !in r.heap.owner
  {
    AllocUnfold(h, online, node, zoneLo, zoneHi, order);
  }

  /** alloc_heap_pages hands out a block it can take back. */
  lemma AllocTaken(nid: Topology, h: Heap, online: set<nat>, node: nat, zoneLo: nat, zoneHi: nat, order: nat)
    requires Valid(nid, h) && OnlineOK(online) && node < MaxNumNodes && zoneLo <= zoneHi < NrZones
    requires AllocHeapPages(h, online, node, zoneLo, zoneHi, order).page.Some?
    ensures var r := AllocHeapPages(h, online, node, zoneLo, zoneHi, order);
      Taken(nid, h, r.heap, r.page.value, order)
  {
    var r := AllocHeapPages(h, online, node, zoneLo, zoneHi, order);
    AllocValid(nid, h, online, node, zoneLo, zoneHi, order);
    AllocKeeps(h, online, node, zoneLo, zoneHi, order);
    TakenFrom(nid, h, r.heap, r.page.value, order);
  }

  lemma AttemptTaken(nid: Topology, h: Heap, online: set<nat>, node: nat, zoneHi: nat, order: nat, dmaBits: nat)
    requires Valid(nid, h) && OnlineOK(online) && node < MaxNumNodes && 1 <= zoneHi < NrZones
    requires HeapAttempt(h, online, node, zoneHi, order, dmaBits).page.Some?
    ensures var r := HeapAttempt(h, online, node, zoneHi, order, dmaBits);
      Taken(nid, h, r.heap, r.page.value, order)
  {
    var lo := AttemptLo(h, online, node, zoneHi, order, dmaBits);
    AllocTaken(nid, h, online, node, lo, zoneHi, order);
  }

  /** What alloc_domheap_pages needs of the block to assign it or give it back. */
  lemma AttemptSpan(nid: Topology, h: Heap, online: set<nat>, node: nat, zoneHi: nat, order: nat, dmaBits: nat)
    requires Valid(nid, h) && OnlineOK(online) && node < MaxNumNodes && 1 <= zoneHi < NrZones
    requires HeapAttempt(h, online, node, zoneHi, order, dmaBits).page.Some?
    ensures var r := HeapAttempt(h, online, node, zoneHi, order, dmaBits);
      order <= MaxOrder
      && forall f | InSpan(f, r.page.value, order) :: f !in r.heap.owner && !Flags(r.heap, f).offlined
  {
    AttemptTaken(nid, h, online, node, zoneHi, order, dmaBits);
  }

  /** Who owns a frame is no part of the heap invariant. */
  lemma OwnerFrame(nid: Topology, h: Heap, owner: map<nat, nat>)
    requires Valid(nid, h)
    ensures Valid(nid, h.(owner := owner))
  {
    var h' := h.(owner := owner);
    SameShape(nid, h, h');
    FreeOKFrame(nid, h, h');
    AvailFrame(nid, h, h');
    CleanFrame(h, h', {});
  }

  /**
   * alloc_domheap_pages keeps the heap valid.  When it fails after
   * alloc_heap_pages succeeded (assign_pages refused), the block goes back
   * and the free frames are exactly those before the call.
   */
  lemma AllocDomheapValid(nid: Topology, w: World, online: set<nat>, cpuNode: nat, d: Option<nat>,
                          domNode: nat, order: nat, flags: MemFlags, clamp: nat -> nat, dmaBits: nat)
    requires Valid(nid, w.heap) && OnlineOK(online)
    requires cpuNode < MaxNumNodes && domNode < MaxNumNodes
    requires flags.nodeField < 256 && (RequestedNode(flags) < MaxNumNodes || RequestedNode(flags) == NumaNoNode)
    requires d.Some? ==> d.value in w.doms
    ensures var r := AllocDomheapPages(nid, w, online, cpuNode, d, domNode, order, flags, clamp, dmaBits);
      Valid(nid, r.world.heap)
      && (r.page.None? ==> r.world.heap.free == w.heap.free)
      && (r.page.Some? ==> r.world.heap.free == w.heap.free - Span(r.page.value, order)
                           && forall f | InSpan(f, r.page.value, order) :: f in w.heap.free)
  {
    var zoneHi := DomZoneHi(flags, clamp);
    if zoneHi != 0 {
      var node := TargetNode(flags, d, domNode, cpuNode);
      var a := HeapAttempt(w.heap, online, node, zoneHi, order, dmaBits);
      if a.page.Some? {
        AttemptTaken(nid, w.heap, online, node, zoneHi, order, dmaBits);
        SettleValid(nid, w, a.heap, a.page.value, d, order, flags.noRefcount);
      }
    }
  }

  /** A block alloc_heap_pages just handed out, freed again, leaves the free frames as they were. */
  lemma GiveBack(nid: Topology, h: Heap, a: Heap, c: nat, order: nat)
    requires Valid(nid, h) && Taken(nid, h, a, c, order)
    ensures Valid(nid, FreeHeapPages(nid, a, c, order))
    ensures FreeHeapPages(nid, a, c, order).free == h.free
  {
    FreeValid(nid, a, c, order);
    FreedBack(nid, h, a, c, order, FreeHeapPages(nid, a, c, order));
  }

  lemma FreedBack(nid: Topology, h: Heap, a: Heap, c: nat, order: nat, r: Heap)
    requires Valid(nid, h) && Taken(nid, h, a, c, order) && Freed(nid, a, r, c, order)
    ensures Valid(nid, r) && r.free == h.free
  {
    assert TaintedIn(a, c, order) == {} by {
      forall f | InSpan(f, c, order) ensures !Flags(a, f).offlining {
        assert f in h.free;
      }
    }
  }

  // ---------------------------------------------------------------------
  // free_domheap_pages

  /** The outcome of free_domheap_pages: the new world and whether the domain reference is dropped. */
  datatype DomFreeing = DomFreeing(world: World, dropRef: bool)

  /** A frame owned by a known domain. */
  predicate OwnedBy(w: World, f: nat)
  {
    f in w.heap.owner && w.heap.owner[f] in w.doms
  }

  /**
   * free_domheap_pages(pg, order).  A Xen-heap page (PGC_xen_heap, the set
   * xenHeap) only leaves its domain's Xen-page list.  A page of a live
   * domain leaves the page list and returns to the heap; one of a dying
   * domain loses its owner and joins the head of the scrub queue instead.
   * An anonymous page just returns to the heap.
   */
  function FreeDomheapPages(nid: Topology, w: World, xenHeap: set<nat>, pg: nat, order: nat): (r: DomFreeing)
    requires order <= MaxOrder && forall f | InSpan(f, pg, order) :: !Flags(w.heap, f).offlined
    requires pg in xenHeap ==> OwnedBy(w, pg)
    requires pg in w.heap.owner ==> OwnedBy(w, pg)
    ensures pg in xenHeap ==> r.world.heap == w.heap && r.world.scrub == w.scrub
    ensures pg !in xenHeap && !OwnedBy(w, pg) ==>
      r == DomFreeing(w.(heap := FreeHeapPages(nid, w.heap, pg, order)), false)
    ensures pg !in xenHeap && OwnedBy(w, pg) ==>
      var id := w.heap.owner[pg];
      var d' := Release(w.doms[id], pg, order);
      r.world.doms == w.doms[id := d'] && r.dropRef == (d'.totPages == 0)
      && (!w.doms[id].dying ==> r.world.heap == FreeHeapPages(nid, w.heap, pg, order) && r.world.scrub == w.scrub)
      && (w.doms[id].dying ==>
            r.world.heap == w.heap.(owner := w.heap.owner - Span(pg, order))
            && r.world.scrub == SpanSeqDown(pg, order) + w.scrub
            && r.world.scrubPages == w.scrubPages + Pow2(order))
  {
    if pg in xenHeap then
      var id := w.heap.owner[pg];
      var d := w.doms[id];
      var x := Uint(d.xenheapPages - Pow2(order));
      var d' := d.(xenPages := Without(d.xenPages, Span(pg, order)), xenheapPages := x);
      DomFreeing(w.(doms := w.doms[id := d']), x == 0)
    else if pg in w.heap.owner then
      var id := w.heap.owner[pg];
      var d := w.doms[id];
      var d' := Release(d, pg, order);
      var w1 := w.(doms := w.doms[id := d']);
      if !d.dying then
        DomFreeing(w1.(heap := FreeHeapPages(nid, w.heap, pg, order)), d'.totPages == 0)
      else
        DomFreeing(w1.(heap := w.heap.(owner := w.heap.owner - Span(pg, order)),
                       scrub := SpanSeqDown(pg, order) + w.scrub,
                       scrubPages := w.scrubPages + Pow2(order)),
                   d'.totPages == 0)
    else
      DomFreeing(w.(heap := FreeHeapPages(nid, w.heap, pg, order)), false)
  }

  // ---------------------------------------------------------------------
  // The scrub queue

  /**
   * The queue is well formed: no frame twice, scrub_pages counts it, and
   * every queued frame is an allocated, ownerless frame that can be freed
   * at order 0.
   */
  ghost predicate ScrubOK(nid: Topology, w: World)
  {
    NoDup(w.scrub) && w.scrubPages == |w.scrub|
    && forall f | f in w.scrub :: Returnable(nid, w.heap, f, 0) && f !in w.heap.owner
  }

  /**
   * free_domheap_pages keeps the heap valid and the queue well formed.  A
   * dying domain's frames do not become free: they sit at the head of the
   * queue, ownerless; any other page is freed as free_heap_pages frees it.
   */
  lemma FreeDomheapValid(nid: Topology, w: World, xenHeap: set<nat>, pg: nat, order: nat)
    requires Valid(nid, w.heap) && ScrubOK(nid, w) && Returnable(nid, w.heap, pg, order)
    requires pg in xenHeap ==> OwnedBy(w, pg)
    requires pg in w.heap.owner ==> OwnedBy(w, pg)
    requires forall f | InSpan(f, pg, order) :: (f in w.heap.owner <==> pg in w.heap.owner) && f !in w.scrub
    ensures var r := FreeDomheapPages(nid, w, xenHeap, pg, order);
      Valid(nid, r.world.heap) && ScrubOK(nid, r.world)
      && (pg in xenHeap || (OwnedBy(w, pg) && w.doms[w.heap.owner[pg]].dying) ==> r.world.heap.free == w.heap.free)
      && (pg !in xenHeap && !(OwnedBy(w, pg) && w.doms[w.heap.owner[pg]].dying) ==>
            Freed(nid, w.heap, r.world.heap, pg, order))
  {
    var r := FreeDomheapPages(nid, w, xenHeap, pg, order);
    if pg in xenHeap {
    } else if OwnedBy(w, pg) && w.doms[w.heap.owner[pg]].dying {
      OwnerFrame(nid, w.heap, w.heap.owner - Span(pg, order));
      DyingQueued(nid, w, pg, order, r.world);
    } else {
      FreeValid(nid, w.heap, pg, order);
      FreedScrubOK(nid, w, pg, order, r.world);
    }
  }

  /** The frames of a dying domain's block join the queue without breaking it. */
  lemma DyingQueued(nid: Topology, w: World, pg: nat, order: nat, w': World)
    requires ScrubOK(nid, w) && Returnable(nid, w.heap, pg, order)
    requires forall f | InSpan(f, pg, order) :: f in w.heap.owner
    requires w'.heap == w.heap.(owner := w.heap.owner - Span(pg, order))
    requires w'.scrub == SpanSeqDown(pg, order) + w.scrub && w'.scrubPages == w.scrubPages + Pow2(order)
    ensures ScrubOK(nid, w')
  {
    var a := SpanSeqDown(pg, order);
    assert Pow2(0) == 1;
    forall f | f in w'.scrub ensures Returnable(nid, w'.heap, f, 0) && f !in w'.heap.owner {
      if f in a {
        var i :| 0 <= i < |a| && a[i] == f;
        assert InSpan(f, pg, order);
      }
    }
    forall i, j | 0 <= i < j < |w'.scrub| ensures w'.scrub[i] != w'.scrub[j] {
      if j < |a| {
        assert w'.scrub[i] == a[i] && w'.scrub[j] == a[j];
      } else if i < |a| {
        assert InSpan(w'.scrub[i], pg, order);
        assert w'.scrub[j] == w.scrub[j - |a|];
        assert w'.scrub[j] in w.scrub;
      } else {
        assert w'.scrub[i] == w.scrub[i - |a|] && w'.scrub[j] == w.scrub[j - |a|];
      }
    }
  }

  /** Freeing a block that is not queued keeps the queue well formed. */
  lemma FreedScrubOK(nid: Topology, w: World, pg: nat, order: nat, w': World)
    requires ScrubOK(nid, w) && forall f | InSpan(f, pg, order) :: f !in w.scrub
    requires w'.heap.free == w.heap.free + (Span(pg, order) - TaintedIn(w.heap, pg, order))
    requires w'.heap.owner == w.heap.owner
    requires forall f | !InSpan(f, pg, order) :: Flags(w'.heap, f) == Flags(w.heap, f)
    requires w'.scrub == w.scrub && w'.scrubPages == w.scrubPages
    ensures ScrubOK(nid, w')
  {
    assert Pow2(0) == 1;
    forall f | f in w.scrub ensures Returnable(nid, w'.heap, f, 0) {
      assert f !in w.heap.free && InSpan(f, f, 0);
    }
  }

  /** How many pages one batch of page_scrub_softirq takes. */
  function BatchSize(w: World): (n: nat)
    ensures n <= |w.scrub| && n <= ScrubBatchSize
    ensures n == ScrubBatchSize || n == |w.scrub|
  {
    if |w.scrub| < ScrubBatchSize then |w.scrub| else ScrubBatchSize
  }

  /** The frames of s that free_heap_pages frees: all but those being offlined. */
  function Cleared(h: Heap, s: seq<nat>): (S: set<nat>)
    ensures forall f :: f in S <==> f in s && !Flags(h, f).offlining
  {
    set f | f in s && !Flags(h, f).offlining
  }

  /**
   * One batch of page_scrub_softirq: up to 16 pages leave the head of the
   * queue, scrub_pages drops by their number, and each is freed at order 0
   * (the clearing of their contents is not modelled).  The heap stays
   * valid, the queue well formed, and exactly the batch's frames that are
   * not being offlined become free.
   */
  method ScrubBatch(nid: Topology, w: World) returns (r: World)
    requires Valid(nid, w.heap) && ScrubOK(nid, w)
    ensures Valid(nid, r.heap) && ScrubOK(nid, r)
    ensures r.scrub == w.scrub[BatchSize(w)..] && r.doms == w.doms
    ensures r.heap.free == w.heap.free + Cleared(w.heap, w.scrub[..BatchSize(w)])
  {
    var n := BatchSize(w);
    var h := w.heap;
    var i := 0;
    assert Pow2(0) == 1;
    while i < n
      invariant 0 <= i <= n
      invariant Valid(nid, h) && h.owner == w.heap.owner
      invariant h.free == w.heap.free + Cleared(w.heap, w.scrub[..i])
      invariant forall j | i <= j < |w.scrub| ::
        Returnable(nid, h, w.scrub[j], 0) && Flags(h, w.scrub[j]) == Flags(w.heap, w.scrub[j])
    {
      var f := w.scrub[i];
      assert Pow2(0) == 1;
      var h' := FreeHeapPages(nid, h, f, 0);
      FreeValid(nid, h, f, 0);
      ScrubFreed(w.heap, w.scrub, h, h', i);
      ScrubLeaves(nid, w.heap, w.scrub, h, h', i);
      h, i := h', i + 1;
    }
    r := w.(heap := h, scrub := w.scrub[n..], scrubPages := w.scrubPages - n);
    ScrubRest(nid, w, r, n);
  }

  /** Freeing the i-th queued frame at order 0 frees it unless it is being offlined. */
  lemma ScrubFreed(h0: Heap, scrub: seq<nat>, h: Heap, h': Heap, i: nat)
    requires i < |scrub| && h.free == h0.free + Cleared(h0, scrub[..i])
    requires Flags(h, scrub[i]) == Flags(h0, scrub[i])
    requires h'.free == h.free + (Span(scrub[i], 0) - TaintedIn(h, scrub[i], 0))
    ensures h'.free == h0.free + Cleared(h0, scrub[..i + 1])
  {
    var f := scrub[i];
    assert Pow2(0) == 1;
    assert forall g :: InSpan(g, f, 0) <==> g == f;
    assert Span(f, 0) == {f};
    assert TaintedIn(h, f, 0) == (if Flags(h0, f).offlining then {f} else {});
    assert scrub[..i + 1] == scrub[..i] + [f];
  }

  /** Freeing the i-th queued frame leaves the frames behind it as they were. */
  lemma ScrubLeaves(nid: Topology, h0: Heap, scrub: seq<nat>, h: Heap, h': Heap, i: nat)
    requires NoDup(scrub) && i < |scrub|
    requires forall j | i <= j < |scrub| :: Returnable(nid, h, scrub[j], 0) && Flags(h, scrub[j]) == Flags(h0, scrub[j])
    requires h'.free == h.free + (Span(scrub[i], 0) - TaintedIn(h, scrub[i], 0))
    requires forall g | !InSpan(g, scrub[i], 0) :: Flags(h', g) == Flags(h, g)
    ensures forall j | i + 1 <= j < |scrub| ::
      Returnable(nid, h', scrub[j], 0) && Flags(h', scrub[j]) == Flags(h0, scrub[j])
  {
    assert Pow2(0) == 1;
    forall j | i + 1 <= j < |scrub|
      ensures Returnable(nid, h', scrub[j], 0) && Flags(h', scrub[j]) == Flags(h0, scrub[j])
    {
      assert scrub[j] != scrub[i];
      assert InSpan(scrub[j], scrub[j], 0);
    }
  }

  /** What is left of the queue after a batch is still well formed. */
  lemma ScrubRest(nid: Topology, w: World, r: World, n: nat)
    requires ScrubOK(nid, w) && n <= |w.scrub|
    requires r.scrub == w.scrub[n..] && r.scrubPages == w.scrubPages - n
    requires r.heap.owner == w.heap.owner
    requires forall j | n <= j < |w.scrub| :: Returnable(nid, r.heap, w.scrub[j], 0)
    ensures ScrubOK(nid, r)
  {
    forall f | f in r.scrub ensures Returnable(nid, r.heap, f, 0) && f !in r.heap.owner {
      var k :| 0 <= k < |r.scrub| && r.scrub[k] == f;
      assert f == w.scrub[n + k];
    }
    forall i, j | 0 <= i < j < |r.scrub| ensures r.scrub[i] != r.scrub[j] {
      assert r.scrub[i] == w.scrub[n + i] && r.scrub[j] == w.scrub[n + j];
    }
  }
}
