/**
 * free_heap_pages (page_alloc.c:506-586) and reserve_offlined_page
 * (page_alloc.c:431-504).
 *
 * Freeing a block first settles the page states of its frames (a frame
 * being offlined becomes offlined and marks the block tainted), clears their
 * allocation bits and raises the counter of the block's node and zone.  The
 * block then merges with its buddy as long as the buddy is free and records
 * the same order, and the merged block goes on the tail of its list.  A
 * tainted block is handed to reserve_offlined_page, which takes it off its
 * list again, lists the runs of good frames as smaller blocks and withholds
 * every offlined frame from the heap.
 */
module HeapFree {
  import opened Arith
  import opened Zones
  import opened Blocks
  import opened Heap

  // ---------------------------------------------------------------------
  // Settling the page states

  /** count_info &= PGC_offlining | PGC_broken, then offlining turns into offlined. */
  function FreedFlags(p: PageFlags): PageFlags
  {
    PageFlags(false, p.offlining, p.broken)
  }

  /** The frames of the block that were being offlined when it was freed. */
  function TaintedIn(h: Heap, pg: nat, order: nat): (s: set<nat>)
    ensures forall f :: f in s <==> InSpan(f, pg, order) && Flags(h, f).offlining
  {
    set f: nat | pg <= f < pg + Pow2(order) && Flags(h, f).offlining
  }

  /** A frame of a single-frame block that is being offlined is the block's head. */
  lemma TaintedSingle(h: Heap, pg: nat, order: nat)
    requires TaintedIn(h, pg, order) != {}
    ensures order == 0 ==> Flags(h, pg).offlining
  {
    var f :| f in TaintedIn(h, pg, order);
  }

  /** The flags loop on its own: settled page states and need_tlbflush = (owner != NULL). */
  function SettleFlags(h: Heap, pg: nat, order: nat): (r: Heap)
    ensures r == h.(flags := r.flags, needFlush := r.needFlush)
    ensures forall f :: Flags(r, f) == if InSpan(f, pg, order) then FreedFlags(Flags(h, f)) else Flags(h, f)
    ensures forall f :: f in r.needFlush <==> if InSpan(f, pg, order) then f in h.owner else f in h.needFlush
  {
    var S := Span(pg, order);
    h.(flags := map f | f in h.flags.Keys + S :: if f in S then FreedFlags(Flags(h, f)) else h.flags[f],
       needFlush := (h.needFlush - S) + (set f | f in S && f in h.owner))
  }

  /** map_free of the block and avail[node][zone] += 2^order. */
  function Deposit(h: Heap, n: nat, z: nat, pg: nat, order: nat): (r: Heap)
    ensures r == h.(free := r.free, avail := r.avail)
    ensures r.free == h.free + Span(pg, order)
    ensures Avail(r, n, z) == Avail(h, n, z) + Pow2(order)
    ensures forall n': nat, z': nat | (n', z') != (n, z) :: Avail(r, n', z') == Avail(h, n', z')
  {
    h.(free := h.free + Span(pg, order), avail := h.avail[(n, z) := Avail(h, n, z) + Pow2(order)])
  }

  // ---------------------------------------------------------------------
  // Merging

  /**
   * The merge loop: while below MAX_ORDER, bit `order` of the block's frame
   * number says whether the buddy is the predecessor or the successor; the
   * loop stops at a buddy that is allocated or records another order, and
   * otherwise takes the buddy off the list heap(node, zone, order) and
   * doubles the block.  The result is the merged block's head and order.
   */
  function Merge(h: Heap, node: nat, zone: nat, pg: nat, order: nat): (r: (Heap, nat, nat))
    requires order <= MaxOrder
    decreases MaxOrder - order
    ensures order <= r.2 <= MaxOrder
    ensures r.1 <= pg && pg + Pow2(order) <= r.1 + Pow2(r.2)
    ensures r.0 == h.(lists := r.0.lists)
  {
    if order == MaxOrder then (h, pg, order)
    else
      var mask := Pow2(order);
      assert Pow2(order + 1) == 2 * mask;
      UpperHalfBound(pg, order);
      if UpperHalf(pg, order) then
        if pg - mask !in h.free || PfnOrder(h, pg - mask) != order then (h, pg, order)
        else Merge(Delete(h, ListKey(node, zone, order), pg - mask), node, zone, pg - mask, order + 1)
      else
        if pg + mask !in h.free || PfnOrder(h, pg + mask) != order then (h, pg, order)
        else Merge(Delete(h, ListKey(node, zone, order), pg + mask), node, zone, pg, order + 1)
  }

  // ---------------------------------------------------------------------
  // reserve_offlined_page

  /** No frame in [lo, hi) is offlined. */
  predicate RangeClean(h: Heap, lo: nat, hi: nat)
  {
    forall f | lo <= f < hi :: !Flags(h, f).offlined
  }

  /** The offlined frames in [lo, hi). */
  function OfflinedIn(h: Heap, lo: nat, hi: nat): (s: set<nat>)
    ensures forall f :: f in s <==> lo <= f < hi && Flags(h, f).offlined
  {
    set f: nat | lo <= f < hi && Flags(h, f).offlined
  }

  /**
   * The inner loop of the carving: the order of the block listed at cur.
   * The block grows from order co to co + 1 while the doubled block ends
   * before `end` and its new upper half has no offlined frame.  With
   * checkAlign the block also grows only while cur stays aligned to the
   * doubled order; the source as written has no such test.
   */
  function CarveOrder(h: Heap, end: nat, cur: nat, co: nat, ho: nat, checkAlign: bool): (r: nat)
    requires co < ho
    requires cur + Pow2(co) <= end <= cur + Pow2(ho)
    decreases ho - co
    ensures co <= r < ho && cur + Pow2(r) <= end
    ensures RangeClean(h, cur + Pow2(co), cur + Pow2(r))
    ensures checkAlign && Aligned(cur, co) ==> Aligned(cur, r)
  {
    var next := co + 1;
    if cur + Pow2(next) >= end || (checkAlign && !Aligned(cur, next)) then co
    else if !RangeClean(h, cur + Pow2(co), cur + Pow2(next)) then co
    else
      Pow2Less(next, ho);
      CarveOrder(h, end, cur, next, ho, checkAlign)
  }

  /**
   * The outer loop of the carving, from cur up to end: offlined frames are
   * skipped, and at every other frame a block of the order the inner loop
   * finds goes on the tail of heap(node, zone, order).
   */
  function Carve(h: Heap, node: nat, zone: nat, end: nat, ho: nat, cur: nat, checkAlign: bool): (r: Heap)
    requires cur <= end <= cur + Pow2(ho)
    requires ho >= 1 || cur == end || Flags(h, cur).offlined
    decreases end - cur
    ensures r == h.(lists := r.lists, pfnOrder := r.pfnOrder)
  {
    if cur >= end then h
    else if Flags(h, cur).offlined then Carve(h, node, zone, end, ho, cur + 1, checkAlign)
    else
      var co := CarveOrder(h, end, cur, 0, ho, checkAlign);
      Carve(AddTail(h, ListKey(node, zone, co), cur), node, zone, end, ho, cur + Pow2(co), checkAlign)
  }

  /**
   * The second loop: every offlined frame in [cur, end) is withheld from the
   * heap: its counter goes down, its allocation bit is set, and it goes on
   * the broken list if it is broken and on the offlined list otherwise.
   * The result also carries how many frames were withheld.
   */
  function Withhold(h: Heap, node: nat, zone: nat, end: nat, cur: nat): (r: (Heap, nat))
    decreases end - cur
    ensures r.0.lists == h.lists && r.0.pfnOrder == h.pfnOrder && r.0.flags == h.flags
    ensures r.0.owner == h.owner && r.0.needFlush == h.needFlush
  {
    if cur >= end then (h, 0)
    else if !Flags(h, cur).offlined then Withhold(h, node, zone, end, cur + 1)
    else
      var r := Withhold(WithholdFrame(h, node, zone, cur), node, zone, end, cur + 1);
      (r.0, r.1 + 1)
  }

  /**
   * One frame of the second loop: avail[node][zone]--, map_alloc of the
   * frame, and page_list_add_tail on the broken or the offlined list.  The
   * counter is decremented only while positive; the heap invariant
   * guarantees that it is.
   */
  function WithholdFrame(h: Heap, node: nat, zone: nat, f: nat): (r: Heap)
    ensures r.lists == h.lists && r.pfnOrder == h.pfnOrder && r.flags == h.flags
    ensures r.owner == h.owner && r.needFlush == h.needFlush
    ensures r.free == h.free - {f}
    ensures Avail(h, node, zone) > 0 ==> Avail(r, node, zone) + 1 == Avail(h, node, zone)
    ensures forall n': nat, z': nat | (n', z') != (node, zone) :: Avail(r, n', z') == Avail(h, n', z')
    ensures forall g :: g in r.brokenList <==> g in h.brokenList || (g == f && Flags(h, f).broken)
    ensures forall g :: g in r.offlinedList <==> g in h.offlinedList || (g == f && !Flags(h, f).broken)
  {
    var a := Avail(h, node, zone);
    h.(avail := h.avail[(node, zone) := if a > 0 then a - 1 else 0],
       free := h.free - {f},
       brokenList := if Flags(h, f).broken then h.brokenList + [f] else h.brokenList,
       offlinedList := if Flags(h, f).broken then h.offlinedList else h.offlinedList + [f])
  }

  /** The outcome of reserve_offlined_page: the new state and the number of frames withheld. */
  datatype Reservation = Reservation(heap: Heap, count: nat)

  /**
   * reserve_offlined_page on the block headed by head, whose order is read
   * from PFN_ORDER.  The source loops forever on a block of order 0 whose
   * only frame is not offlined; no caller passes one.
   */
  function ReserveOfflinedPage(nid: Topology, h: Heap, head: nat, checkAlign: bool): (r: Reservation)
    requires PfnOrder(h, head) >= 1 || Flags(h, head).offlined
    ensures r.heap.flags == h.flags && r.heap.owner == h.owner && r.heap.needFlush == h.needFlush
  {
    var node, zone, ho := NodeOf(nid, head), Zone(head), PfnOrder(h, head);
    var end := head + Pow2(ho);
    var w := Withhold(Carve(Delete(h, ListKey(node, zone, ho), head), node, zone, end, ho, head, checkAlign), node, zone, end, head);
    Reservation(w.0, w.1)
  }

  // ---------------------------------------------------------------------
  // free_heap_pages

  /**
   * free_heap_pages: release, merge, list the merged block, and reserve it
   * when one of its frames was being offlined.  The source asserts that no
   * frame of the block is offlined already.
   */
  function FreeHeapPages(nid: Topology, h: Heap, pg: nat, order: nat): (r: Heap)
    requires order <= MaxOrder
    requires forall f | InSpan(f, pg, order) :: !Flags(h, f).offlined
    ensures forall f | InSpan(f, pg, order) ::
      !Flags(r, f).offlining && Flags(r, f).offlined == Flags(h, f).offlining && Flags(r, f).broken == Flags(h, f).broken
    ensures forall f | !InSpan(f, pg, order) :: Flags(r, f) == Flags(h, f)
    ensures forall f | InSpan(f, pg, order) :: f in r.needFlush <==> f in h.owner
    ensures r.owner == h.owner
  {
    var node, zone := NodeOf(nid, pg), Zone(pg);
    var h0 := SettleFlags(h, pg, order);
    var h1 := Deposit(h0, node, zone, pg, order);
    var m := Merge(h1, node, zone, pg, order);
    var h2 := AddTail(m.0, ListKey(node, zone, m.2), m.1);
    assert h2.flags == h0.flags && h2.needFlush == h0.needFlush && h2.owner == h.owner;
    var r := if TaintedIn(h, pg, order) != {} then
      TaintedSingle(h, pg, order);
      assert m.2 == 0 ==> m.1 == pg && InSpan(pg, pg, order) && Flags(h, pg).offlining;
      ReserveOfflinedPage(nid, h2, m.1, true).heap
    else h2;
    assert r.flags == h0.flags && r.needFlush == h0.needFlush && r.owner == h.owner;
    r
  }

  // ---------------------------------------------------------------------
  // What the merge loop keeps

  /**
   * One merge step: when the buddy of the floating block is free and records
   * the block's order, it is a listed block in the same node and zone;
   * taking it off its list leaves the parent block floating.
   */
  lemma MergeStep(nid: Topology, h: Heap, node: nat, zone: nat, pg: nat, order: nat)
    requires Inv(nid, h, Span(pg, order))
    requires pg >= 1 && order < MaxOrder && Aligned(pg, order)
    requires NodeOf(nid, pg) == node && Zone(pg) == zone
    requires Buddy(pg, order) in h.free && PfnOrder(h, Buddy(pg, order)) == order
    ensures Inv(nid, Delete(h, ListKey(node, zone, order), Buddy(pg, order)), Span(Parent(pg, order), order + 1))
    ensures Parent(pg, order) >= 1 && NodeOf(nid, Parent(pg, order)) == node && Zone(Parent(pg, order)) == zone
  {
    var r := Parent(pg, order);
    MergeStepShape(nid, h, node, zone, pg, order);
    ListsFrameAt(nid, h, Delete(h, ListKey(node, zone, order), Buddy(pg, order)), Span(r, order + 1), Span(r, order + 1));
  }

  /** The lists and blocks part of one merge step. */
  lemma MergeStepShape(nid: Topology, h: Heap, node: nat, zone: nat, pg: nat, order: nat)
    requires FreeOK(nid, h) && ListsOK(nid, h) && BlocksOK(FreeBlocks(nid, h), h.free, Span(pg, order))
    requires pg >= 1 && order < MaxOrder && Aligned(pg, order)
    requires NodeOf(nid, pg) == node && Zone(pg) == zone
    requires Buddy(pg, order) in h.free && PfnOrder(h, Buddy(pg, order)) == order
    ensures ListsOK(nid, Delete(h, ListKey(node, zone, order), Buddy(pg, order)))
    ensures BlocksOK(FreeBlocks(nid, Delete(h, ListKey(node, zone, order), Buddy(pg, order))), h.free,
                     Span(Parent(pg, order), order + 1))
    ensures Parent(pg, order) >= 1 && NodeOf(nid, Parent(pg, order)) == node && Zone(Parent(pg, order)) == zone
  {
    var B := FreeBlocks(nid, h);
    var q := Buddy(pg, order);
    MergeBlock(B, h.free, pg, order);
    MergeParent(nid, h, pg, order);
    DeleteListed(nid, h, ListKey(node, zone, order), q);
  }

  /** The parent of a free block and its free buddy lies in the same node and zone. */
  lemma MergeParent(nid: Topology, h: Heap, pg: nat, order: nat)
    requires FreeOK(nid, h)
    requires order < MaxOrder && Aligned(pg, order)
    requires forall f | InSpan(f, Parent(pg, order), order + 1) :: f in h.free
    ensures Parent(pg, order) >= 1
    ensures NodeOf(nid, Buddy(pg, order)) == NodeOf(nid, pg) == NodeOf(nid, Parent(pg, order))
    ensures Zone(Buddy(pg, order)) == Zone(pg) == Zone(Parent(pg, order))
  {
    var r := Parent(pg, order);
    assert InSpan(r, r, order + 1) && r in h.free;
    assert InSpan(pg, r, order + 1) && InSpan(Buddy(pg, order), r, order + 1);
    BlockUniform(nid, h, r, order + 1, Buddy(pg, order));
    BlockUniform(nid, h, r, order + 1, pg);
  }

  /** Unlisting a listed block from its own list. */
  lemma DeleteListed(nid: Topology, h: Heap, k: ListKey, b: nat)
    requires ListsOK(nid, h) && b in FreeBlocks(nid, h)
    requires k == ListKey(NodeOf(nid, b), Zone(b), PfnOrder(h, b))
    ensures ListsOK(nid, Delete(h, k, b))
    ensures FreeBlocks(nid, Delete(h, k, b)) == FreeBlocks(nid, h) - {b}
  {
    DeleteOK(nid, h, b);
  }

  /**
   * The merge loop keeps the invariant with the merged block floating, and
   * the frames outside any set S that were clean stay clean.
   */
  lemma {:induction false} MergeInv(nid: Topology, h: Heap, node: nat, zone: nat, pg: nat, order: nat, S: set<nat>)
    returns (m: (Heap, nat, nat))
    requires Inv(nid, h, Span(pg, order)) && Clean(h, S)
    requires pg >= 1 && order <= MaxOrder && Aligned(pg, order)
    requires NodeOf(nid, pg) == node && Zone(pg) == zone
    decreases MaxOrder - order
    ensures m == Merge(h, node, zone, pg, order)
    ensures Inv(nid, m.0, Span(m.1, m.2)) && Clean(m.0, S)
  {
    if order == MaxOrder {
      m := (h, pg, order);
    } else {
      var q := Buddy(pg, order);
      MergeUnfold(h, node, zone, pg, order);
      if q in h.free && PfnOrder(h, q) == order {
        MergeStep(nid, h, node, zone, pg, order);
        CleanFrame(h, Delete(h, ListKey(node, zone, order), q), S);
        m := MergeInv(nid, Delete(h, ListKey(node, zone, order), q), node, zone, Parent(pg, order), order + 1, S);
      } else {
        m := (h, pg, order);
      }
    }
  }

  /** The merged block is aligned to its order. */
  lemma {:induction false} MergeAligned(h: Heap, node: nat, zone: nat, pg: nat, order: nat)
    requires order <= MaxOrder && Aligned(pg, order)
    decreases MaxOrder - order
    ensures Aligned(Merge(h, node, zone, pg, order).1, Merge(h, node, zone, pg, order).2)
  {
    if order < MaxOrder {
      var q := Buddy(pg, order);
      MergeUnfold(h, node, zone, pg, order);
      if q in h.free && PfnOrder(h, q) == order {
        MergeAligned(Delete(h, ListKey(node, zone, order), q), node, zone, Parent(pg, order), order + 1);
      }
    }
  }

  /** The merge loop in terms of the buddy and the parent block. */
  lemma MergeUnfold(h: Heap, node: nat, zone: nat, pg: nat, order: nat)
    requires order < MaxOrder && Aligned(pg, order)
    ensures var q := Buddy(pg, order);
      Merge(h, node, zone, pg, order) ==
        if q in h.free && PfnOrder(h, q) == order
        then Merge(Delete(h, ListKey(node, zone, order), q), node, zone, Parent(pg, order), order + 1)
        else (h, pg, order)
  {
    UpperHalfBound(pg, order);
  }

  // ---------------------------------------------------------------------
  // What reserve_offlined_page keeps

  /** The second loop withholds exactly the offlined frames and counts them. */
  lemma {:induction false} WithholdFree(h: Heap, node: nat, zone: nat, end: nat, cur: nat)
    decreases end - cur
    ensures var r := Withhold(h, node, zone, end, cur);
      r.0.free == h.free - OfflinedIn(h, cur, end) && r.1 == |OfflinedIn(h, cur, end)|
    ensures var r := Withhold(h, node, zone, end, cur);
      forall n': nat, z': nat | (n', z') != (node, zone) :: Avail(r.0, n', z') == Avail(h, n', z')
    ensures var r := Withhold(h, node, zone, end, cur);
      r.1 <= Avail(h, node, zone) ==> Avail(r.0, node, zone) + r.1 == Avail(h, node, zone)
  {
    if cur >= end {
      assert OfflinedIn(h, cur, end) == {};
    } else if !Flags(h, cur).offlined {
      WithholdFree(h, node, zone, end, cur + 1);
      assert OfflinedIn(h, cur, end) == OfflinedIn(h, cur + 1, end);
    } else {
      var h1 := WithholdFrame(h, node, zone, cur);
      WithholdFree(h1, node, zone, end, cur + 1);
      assert OfflinedIn(h1, cur + 1, end) == OfflinedIn(h, cur + 1, end);
      assert OfflinedIn(h, cur, end) == {cur} + OfflinedIn(h, cur + 1, end);
    }
  }

  /** Withheld frames go on the broken list when broken and on the offlined list otherwise. */
  lemma {:induction false} WithholdLists(h: Heap, node: nat, zone: nat, end: nat, cur: nat)
    decreases end - cur
    ensures var r := Withhold(h, node, zone, end, cur);
      forall f :: f in r.0.brokenList <==> f in h.brokenList || (f in OfflinedIn(h, cur, end) && Flags(h, f).broken)
    ensures var r := Withhold(h, node, zone, end, cur);
      forall f :: f in r.0.offlinedList <==> f in h.offlinedList || (f in OfflinedIn(h, cur, end) && !Flags(h, f).broken)
  {
    if cur < end {
      if !Flags(h, cur).offlined {
        WithholdLists(h, node, zone, end, cur + 1);
        assert OfflinedIn(h, cur, end) == OfflinedIn(h, cur + 1, end);
      } else {
        var h1 := WithholdFrame(h, node, zone, cur);
        WithholdLists(h1, node, zone, end, cur + 1);
        assert OfflinedIn(h1, cur + 1, end) == OfflinedIn(h, cur + 1, end);
        assert OfflinedIn(h, cur, end) == {cur} + OfflinedIn(h, cur + 1, end);
      }
    }
  }

  /**
   * The floating frames while the carving is at cur: the frames from cur to
   * the end of the block, and the offlined frames already skipped.
   */
  function CarveFloat(h: Heap, head: nat, end: nat, cur: nat): (s: set<nat>)
    requires cur <= end
    ensures forall f :: f in s <==> cur <= f < end || (head <= f < cur && Flags(h, f).offlined)
  {
    Range(cur, end - cur) + OfflinedIn(h, head, cur)
  }

  /** The skipped and floating frames depend only on the page states. */
  lemma OfflinedFrame(h: Heap, h': Heap, lo: nat, hi: nat)
    requires h'.flags == h.flags
    ensures OfflinedIn(h', lo, hi) == OfflinedIn(h, lo, hi)
  {
  }

  /** Listing the block the inner loop finds at cur moves the floating frames past it. */
  lemma CarveAdd(B: BlockMap, free: set<nat>, h: Heap, head: nat, end: nat, cur: nat, co: nat, next: nat)
    requires next == cur + Pow2(co)
    requires 1 <= cur && head <= cur && next <= end
    requires BlocksOK(B, free, CarveFloat(h, head, end, cur))
    requires co <= MaxOrder && Aligned(cur, co)
    requires !Flags(h, cur).offlined && RangeClean(h, cur + 1, cur + Pow2(co))
    ensures cur !in B
    ensures BlocksOK(B[cur := co], free, CarveFloat(h, head, end, next))
  {
    var F := CarveFloat(h, head, end, cur);
    AddBlock(B, free, F, cur, co);
    assert F - Span(cur, co) == CarveFloat(h, head, end, next);
  }

  /**
   * The state of the carving at cur: the lists are consistent, the frames
   * from cur to the end float with the offlined frames skipped so far, and
   * the rest of the block lies in one node and zone.
   */
  ghost predicate CarveReady(nid: Topology, h: Heap, node: nat, zone: nat, head: nat, end: nat, ho: nat, cur: nat)
  {
    head <= cur <= end <= cur + Pow2(ho) && ho <= MaxOrder
    && FreeOK(nid, h) && ShapedWith(nid, h, h.free, CarveFloat(h, head, end, cur))
    && (ho >= 1 || cur == end || Flags(h, cur).offlined)
    && forall f | cur <= f < end :: NodeOf(nid, f) == node && Zone(f) == zone
  }

  /** One block of the carving. */
  lemma CarveStep(nid: Topology, h: Heap, node: nat, zone: nat, head: nat, end: nat, ho: nat, cur: nat, co: nat, next: nat)
    requires CarveReady(nid, h, node, zone, head, end, ho, cur)
    requires cur < end && !Flags(h, cur).offlined
    requires co == CarveOrder(h, end, cur, 0, ho, true) && next == cur + Pow2(co)
    ensures CarveReady(nid, AddTail(h, ListKey(node, zone, co), cur), node, zone, head, end, ho, next)
  {
    CarveStepShape(nid, h, node, zone, head, end, ho, cur, co, next);
    FreeOKFrame(nid, h, AddTail(h, ListKey(node, zone, co), cur));
  }

  /** The lists and blocks part of one block of the carving. */
  lemma CarveStepShape(nid: Topology, h: Heap, node: nat, zone: nat, head: nat, end: nat, ho: nat, cur: nat, co: nat,
                       next: nat)
    requires head <= cur < end <= cur + Pow2(ho) && 1 <= ho <= MaxOrder
    requires FreeOK(nid, h) && ListsOK(nid, h) && BlocksOK(FreeBlocks(nid, h), h.free, CarveFloat(h, head, end, cur))
    requires !Flags(h, cur).offlined
    requires NodeOf(nid, cur) == node && Zone(cur) == zone
    requires co == CarveOrder(h, end, cur, 0, ho, true) && next == cur + Pow2(co)
    ensures next <= end
    ensures var h' := AddTail(h, ListKey(node, zone, co), cur);
      h'.free == h.free && ShapedWith(nid, h', h'.free, CarveFloat(h', head, end, next))
  {
    var h' := AddTail(h, ListKey(node, zone, co), cur);
    var B := FreeBlocks(nid, h);
    assert cur in CarveFloat(h, head, end, cur);
    CarveAdd(B, h.free, h, head, end, cur, co, next);
    AddTailOK(nid, h, ListKey(node, zone, co), cur);
    CarveFloatFrame(h, h', head, end, next);
    BlocksSubst(B[cur := co], FreeBlocks(nid, h'), h.free, h'.free, CarveFloat(h, head, end, next),
                CarveFloat(h', head, end, next));
  }

  /** An offlined frame of the carving. */
  lemma CarveSkip(nid: Topology, h: Heap, node: nat, zone: nat, head: nat, end: nat, ho: nat, cur: nat, next: nat)
    requires CarveReady(nid, h, node, zone, head, end, ho, cur)
    requires cur < end && Flags(h, cur).offlined && next == cur + 1
    ensures CarveReady(nid, h, node, zone, head, end, ho, next)
  {
    assert CarveFloat(h, head, end, next) == CarveFloat(h, head, end, cur);
  }

  /** The carving past an offlined frame, one step unfolded. */
  lemma CarveUnfoldSkip(h: Heap, node: nat, zone: nat, end: nat, ho: nat, cur: nat, next: nat)
    requires cur < end <= cur + Pow2(ho) && Flags(h, cur).offlined && next == cur + 1
    ensures Carve(h, node, zone, end, ho, cur, true) == Carve(h, node, zone, end, ho, next, true)
  {
  }

  /** The carving at a frame that is not offlined, one step unfolded. */
  lemma CarveUnfoldBlock(h: Heap, node: nat, zone: nat, end: nat, ho: nat, cur: nat, co: nat, next: nat)
    requires cur < end <= cur + Pow2(ho) && ho >= 1 && !Flags(h, cur).offlined
    requires co == CarveOrder(h, end, cur, 0, ho, true) && next == cur + Pow2(co)
    ensures Carve(h, node, zone, end, ho, cur, true) ==
      Carve(AddTail(h, ListKey(node, zone, co), cur), node, zone, end, ho, next, true)
  {
  }

  /** The lists are consistent and the listed blocks leave exactly S floating. */
  ghost predicate ShapedWith(nid: Topology, h: Heap, free: set<nat>, S: set<nat>)
  {
    ListsOK(nid, h) && BlocksOK(FreeBlocks(nid, h), free, S)
  }

  /** What holds of the carving after the block at cur holds of the carving from cur. */
  lemma CarveBlockShape(nid: Topology, h: Heap, node: nat, zone: nat, head: nat, end: nat, ho: nat, cur: nat,
                        co: nat, next: nat)
    requires cur < end <= cur + Pow2(ho) && ho >= 1 && !Flags(h, cur).offlined
    requires co == CarveOrder(h, end, cur, 0, ho, true) && next == cur + Pow2(co)
    requires var h' := AddTail(h, ListKey(node, zone, co), cur);
      ShapedWith(nid, Carve(h', node, zone, end, ho, next, true), h'.free, OfflinedIn(h', head, end))
    ensures ShapedWith(nid, Carve(h, node, zone, end, ho, cur, true), h.free, OfflinedIn(h, head, end))
  {
    CarveUnfoldBlock(h, node, zone, end, ho, cur, co, next);
    OfflinedFrame(h, AddTail(h, ListKey(node, zone, co), cur), head, end);
  }

  /** What holds of the carving after an offlined frame holds of the carving from it. */
  lemma CarveSkipShape(nid: Topology, h: Heap, node: nat, zone: nat, head: nat, end: nat, ho: nat, cur: nat, next: nat)
    requires cur < end <= cur + Pow2(ho) && Flags(h, cur).offlined && next == cur + 1
    requires ShapedWith(nid, Carve(h, node, zone, end, ho, next, true), h.free, OfflinedIn(h, head, end))
    ensures ShapedWith(nid, Carve(h, node, zone, end, ho, cur, true), h.free, OfflinedIn(h, head, end))
  {
    CarveUnfoldSkip(h, node, zone, end, ho, cur, next);
  }

  /** The floating frames depend only on the page states. */
  lemma CarveFloatFrame(h: Heap, h': Heap, head: nat, end: nat, cur: nat)
    requires cur <= end
    requires h'.flags == h.flags
    ensures CarveFloat(h', head, end, cur) == CarveFloat(h, head, end, cur)
  {
    OfflinedFrame(h, h', head, cur);
  }

  /**
   * The carving lists blocks that cover every frame of [cur, end) but the
   * offlined ones, which are left floating with those skipped before.
   */
  lemma {:induction false} CarveInv(nid: Topology, h: Heap, node: nat, zone: nat, head: nat, end: nat, ho: nat, cur: nat)
    requires CarveReady(nid, h, node, zone, head, end, ho, cur)
    decreases end - cur, 1
    ensures ShapedWith(nid, Carve(h, node, zone, end, ho, cur, true), h.free, OfflinedIn(h, head, end))
  {
    if cur >= end {
      CarveInvDone(nid, h, node, zone, head, end, ho, cur);
    } else if Flags(h, cur).offlined {
      var next := cur + 1;
      CarveSkip(nid, h, node, zone, head, end, ho, cur, next);
      CarveInv(nid, h, node, zone, head, end, ho, next);
      CarveSkipShape(nid, h, node, zone, head, end, ho, cur, next);
    } else {
      CarveInvBlock(nid, h, node, zone, head, end, ho, cur);
    }
  }

  /** The carving at the end of the block lists nothing more. */
  lemma CarveInvDone(nid: Topology, h: Heap, node: nat, zone: nat, head: nat, end: nat, ho: nat, cur: nat)
    requires CarveReady(nid, h, node, zone, head, end, ho, cur) && cur >= end
    ensures ShapedWith(nid, Carve(h, node, zone, end, ho, cur, true), h.free, OfflinedIn(h, head, end))
  {
    assert CarveFloat(h, head, end, cur) == OfflinedIn(h, head, end);
  }

  /** The carving from a frame that is not offlined, the block found there listed first. */
  lemma {:induction false} CarveInvBlock(nid: Topology, h: Heap, node: nat, zone: nat, head: nat, end: nat, ho: nat,
                                         cur: nat)
    requires CarveReady(nid, h, node, zone, head, end, ho, cur)
    requires cur < end && !Flags(h, cur).offlined
    decreases end - cur, 0
    ensures ShapedWith(nid, Carve(h, node, zone, end, ho, cur, true), h.free, OfflinedIn(h, head, end))
  {
    var co := CarveOrder(h, end, cur, 0, ho, true);
    var next := cur + Pow2(co);
    CarveStep(nid, h, node, zone, head, end, ho, cur, co, next);
    CarveInv(nid, AddTail(h, ListKey(node, zone, co), cur), node, zone, head, end, ho, next);
    CarveBlockShape(nid, h, node, zone, head, end, ho, cur, co, next);
  }

  /** Taking the block off its list starts the carving with the whole block floating. */
  lemma ReserveStart(nid: Topology, h: Heap, head: nat, node: nat, zone: nat, ho: nat, end: nat, h1: Heap)
    requires Shape(nid, h, {}) && head in FreeBlocks(nid, h)
    requires PfnOrder(h, head) >= 1 || Flags(h, head).offlined
    requires node == NodeOf(nid, head) && zone == Zone(head) && ho == PfnOrder(h, head) && end == head + Pow2(ho)
    requires h1 == Delete(h, ListKey(node, zone, ho), head)
    ensures CarveReady(nid, h1, node, zone, head, end, ho, head)
  {
    ReserveStartShape(nid, h, head, node, zone, ho, end, h1);
    FreeOKFrame(nid, h, h1);
    SpanUniform(nid, h, head, ho);
  }

  /** At the start of the carving the whole block floats. */
  lemma CarveFloatStart(h: Heap, head: nat, o: nat, end: nat)
    requires end == head + Pow2(o)
    ensures CarveFloat(h, head, end, head) == {} + Span(head, o)
  {
  }

  /** The lists and blocks part of taking the block off its list. */
  lemma ReserveStartShape(nid: Topology, h: Heap, head: nat, node: nat, zone: nat, ho: nat, end: nat, h1: Heap)
    requires ListsOK(nid, h) && BlocksOK(FreeBlocks(nid, h), h.free, {}) && head in FreeBlocks(nid, h)
    requires node == NodeOf(nid, head) && zone == Zone(head) && ho == PfnOrder(h, head) && end == head + Pow2(ho)
    requires h1 == Delete(h, ListKey(node, zone, ho), head)
    ensures ho <= MaxOrder && Aligned(head, ho) && (forall f | InSpan(f, head, ho) :: f in h.free)
    ensures ShapedWith(nid, h1, h1.free, CarveFloat(h1, head, end, head))
  {
    var B := FreeBlocks(nid, h);
    assert B[head] == ho;
    DeleteListed(nid, h, ListKey(node, zone, ho), head);
    RemoveBlock(B, h.free, {}, head);
    CarveFloatStart(h1, head, ho, end);
    BlocksSubst(B - {head}, FreeBlocks(nid, h1), h.free, h1.free, {} + Span(head, B[head]), CarveFloat(h1, head, end, head));
  }

  /** The lists and blocks part of withholding the offlined frames. */
  lemma ReserveEndShape(nid: Topology, h: Heap, h': Heap, Off: set<nat>)
    requires ShapedWith(nid, h, h.free, Off)
    requires h'.lists == h.lists && h'.pfnOrder == h.pfnOrder && h'.free == h.free - Off
    ensures Off <= h.free
    ensures ShapedWith(nid, h', h'.free, {})
  {
    var B := FreeBlocks(nid, h);
    SameShape(nid, h, h');
    Withdraw(B, h.free, Off, Off);
    assert Off - Off == {};
    BlocksSubst(B, FreeBlocks(nid, h'), h.free - Off, h'.free, Off - Off, {});
  }

  /**
   * The outcome of a reservation that withheld the set Off of frames of
   * node `node`, zone `zone` from the heap h: the new heap is valid, Off is
   * no longer free, Off frames were counted and only the counter of that
   * node and zone went down, by their number.
   */
  ghost predicate Reserved(nid: Topology, h: Heap, r: Heap, count: nat, node: nat, zone: nat, Off: set<nat>)
  {
    Valid(nid, r) && r.free == h.free - Off && count == |Off|
    && Avail(r, node, zone) + count == Avail(h, node, zone)
    && forall n': nat, z': nat | (n', z') != (node, zone) :: Avail(r, n', z') == Avail(h, n', z')
  }

  /**
   * The second loop ends the reservation: with the offlined frames of the
   * block withheld, the heap is valid again and the node's counter is
   * lowered by their number.
   */
  lemma ReserveEnd(nid: Topology, h: Heap, node: nat, zone: nat, head: nat, ho: nat, end: nat)
    requires end == head + Pow2(ho)
    requires FreeOK(nid, h) && AvailOK(nid, h) && ShapedWith(nid, h, h.free, OfflinedIn(h, head, end))
    requires forall f | head <= f < end :: NodeOf(nid, f) == node && Zone(f) == zone
    requires forall f | InSpan(f, head, ho) :: !Flags(h, f).offlining
    requires Clean(h, Span(head, ho))
    ensures var w := Withhold(h, node, zone, end, head);
      Reserved(nid, h, w.0, w.1, node, zone, OfflinedIn(h, head, end))
  {
    var Off := OfflinedIn(h, head, end);
    var w := Withhold(h, node, zone, end, head);
    WithholdFree(h, node, zone, end, head);
    ReserveEndShape(nid, h, w.0, Off);
    AvailCovers(nid, h, Off, node, zone);
    AvailWithdraw(nid, h, w.0, Off, node, zone);
    FreeOKSub(nid, h, w.0);
    ReserveEndClean(h, w.0, head, ho, end);
  }

  /** Withholding the offlined frames of the block leaves only clean frames free. */
  lemma ReserveEndClean(h: Heap, h': Heap, head: nat, ho: nat, end: nat)
    requires end == head + Pow2(ho)
    requires forall f | InSpan(f, head, ho) :: !Flags(h, f).offlining
    requires Clean(h, Span(head, ho))
    requires h'.flags == h.flags && h'.free == h.free - OfflinedIn(h, head, end)
    ensures Clean(h', {})
  {
    forall f | f in h'.free ensures !Flags(h', f).offlined && !Flags(h', f).offlining {
      assert Flags(h', f) == Flags(h, f);
      if InSpan(f, head, ho) {
        assert f !in OfflinedIn(h, head, end);
      }
    }
  }

  /**
   * reserve_offlined_page (with the alignment test) on a listed block of a
   * heap whose frames outside the block are clean: the offlined frames of
   * the block are withheld and counted, and the heap is valid again.
   */
  lemma ReserveValid(nid: Topology, h: Heap, head: nat, end: nat)
    requires Shape(nid, h, {}) && head in FreeBlocks(nid, h)
    requires PfnOrder(h, head) >= 1 || Flags(h, head).offlined
    requires Clean(h, Span(head, PfnOrder(h, head)))
    requires forall f | InSpan(f, head, PfnOrder(h, head)) :: !Flags(h, f).offlining
    requires end == head + Pow2(PfnOrder(h, head))
    ensures var r := ReserveOfflinedPage(nid, h, head, true);
      Reserved(nid, h, r.heap, r.count, NodeOf(nid, head), Zone(head), OfflinedIn(h, head, end))
  {
    var node, zone, ho := NodeOf(nid, head), Zone(head), PfnOrder(h, head);
    var h1 := Delete(h, ListKey(node, zone, ho), head);
    ReserveCarved(nid, h, head, node, zone, ho, end, h1);
    ReserveUnfold(nid, h, head, node, zone, ho, end, h1, true);
  }

  /** reserve_offlined_page, its two loops spelt out. */
  lemma ReserveUnfold(nid: Topology, h: Heap, head: nat, node: nat, zone: nat, ho: nat, end: nat, h1: Heap,
                      checkAlign: bool)
    requires PfnOrder(h, head) >= 1 || Flags(h, head).offlined
    requires node == NodeOf(nid, head) && zone == Zone(head) && ho == PfnOrder(h, head) && end == head + Pow2(ho)
    requires h1 == Delete(h, ListKey(node, zone, ho), head)
    ensures var w := Withhold(Carve(h1, node, zone, end, ho, head, checkAlign), node, zone, end, head);
      ReserveOfflinedPage(nid, h, head, checkAlign).heap == w.0 && ReserveOfflinedPage(nid, h, head, checkAlign).count == w.1
  {
  }

  /** The two loops of the reservation, on the block taken off its list. */
  lemma ReserveCarved(nid: Topology, h: Heap, head: nat, node: nat, zone: nat, ho: nat, end: nat, h1: Heap)
    requires Shape(nid, h, {}) && head in FreeBlocks(nid, h)
    requires PfnOrder(h, head) >= 1 || Flags(h, head).offlined
    requires Clean(h, Span(head, PfnOrder(h, head)))
    requires forall f | InSpan(f, head, PfnOrder(h, head)) :: !Flags(h, f).offlining
    requires node == NodeOf(nid, head) && zone == Zone(head) && ho == PfnOrder(h, head) && end == head + Pow2(ho)
    requires h1 == Delete(h, ListKey(node, zone, ho), head)
    ensures var w := Withhold(Carve(h1, node, zone, end, ho, head, true), node, zone, end, head);
      Reserved(nid, h, w.0, w.1, node, zone, OfflinedIn(h, head, end))
  {
    var h2 := Carve(h1, node, zone, end, ho, head, true);
    ReserveCarvedShape(nid, h, head, node, zone, ho, end, h1);
    SpanUniform(nid, h, head, ho);
    FreeOKFrame(nid, h, h2);
    AvailFrame(nid, h, h2);
    CleanFrame(h, h2, Span(head, ho));
    OfflinedFrame(h, h2, head, end);
    OfflinedFrame(h1, h2, head, end);
    ShapedSubst(nid, h2, h1.free, OfflinedIn(h1, head, end), h2.free, OfflinedIn(h2, head, end));
    ReserveEnd(nid, h2, node, zone, head, ho, end);
    var w := Withhold(h2, node, zone, end, head);
    ReservedSubst(nid, h2, h, w.0, w.1, node, zone, OfflinedIn(h2, head, end), OfflinedIn(h, head, end));
  }

  /** The carving leaves exactly the offlined frames of the block floating. */
  lemma ReserveCarvedShape(nid: Topology, h: Heap, head: nat, node: nat, zone: nat, ho: nat, end: nat, h1: Heap)
    requires Shape(nid, h, {}) && head in FreeBlocks(nid, h)
    requires PfnOrder(h, head) >= 1 || Flags(h, head).offlined
    requires node == NodeOf(nid, head) && zone == Zone(head) && ho == PfnOrder(h, head) && end == head + Pow2(ho)
    requires h1 == Delete(h, ListKey(node, zone, ho), head)
    ensures ShapedWith(nid, Carve(h1, node, zone, end, ho, head, true), h1.free, OfflinedIn(h1, head, end))
  {
    ReserveStart(nid, h, head, node, zone, ho, end, h1);
    CarveInv(nid, h1, node, zone, head, end, ho, head);
  }

  /** A reservation outcome, carried over to a heap with the same free frames and counters. */
  lemma ReservedSubst(nid: Topology, h: Heap, h': Heap, r: Heap, count: nat, node: nat, zone: nat,
                      Off: set<nat>, Off': set<nat>)
    requires Reserved(nid, h, r, count, node, zone, Off)
    requires h'.free == h.free && h'.avail == h.avail && Off' == Off
    ensures Reserved(nid, h', r, count, node, zone, Off')
  {
    forall n, z ensures Avail(h', n, z) == Avail(h, n, z) {
    }
  }

  /** The shape of the lists, carried over to equal sets. */
  lemma ShapedSubst(nid: Topology, h: Heap, free: set<nat>, S: set<nat>, free': set<nat>, S': set<nat>)
    requires ShapedWith(nid, h, free, S) && free' == free && S' == S
    ensures ShapedWith(nid, h, free', S')
  {
  }

  // ---------------------------------------------------------------------
  // What free_heap_pages keeps

  /**
   * What the caller of free_heap_pages hands back: an aligned block of
   * allocated frames that lies in one node and one zone, none of them
   * offlined or a withheld node boundary.
   */
  ghost predicate Returnable(nid: Topology, h: Heap, pg: nat, order: nat)
  {
    pg >= 1 && order <= MaxOrder && Aligned(pg, order)
    && forall f | InSpan(f, pg, order) ::
         f !in h.free && !Boundary(nid, f) && !Flags(h, f).offlined
         && NodeOf(nid, f) == NodeOf(nid, pg) && Zone(f) == Zone(pg)
  }

  /**
   * The outcome of freeing the block of order `order` at pg into the heap h:
   * the heap is valid, the frames of the block that were being offlined
   * stay allocated and the others are free, and the counter of the block's
   * node and zone went up by the number of frames that became free.
   */
  ghost predicate Freed(nid: Topology, h: Heap, r: Heap, pg: nat, order: nat)
  {
    var node, zone, T := NodeOf(nid, pg), Zone(pg), TaintedIn(h, pg, order);
    Valid(nid, r) && r.free == h.free + (Span(pg, order) - T)
    && Avail(r, node, zone) + |T| == Avail(h, node, zone) + Pow2(order)
    && forall n': nat, z': nat | (n', z') != (node, zone) :: Avail(r, n', z') == Avail(h, n', z')
  }

  /** Settling the page states and depositing the block: the block floats. */
  lemma FreeStartShape(nid: Topology, h: Heap, pg: nat, order: nat, node: nat, zone: nat, h0: Heap, h1: Heap)
    requires Valid(nid, h) && Returnable(nid, h, pg, order)
    requires node == NodeOf(nid, pg) && zone == Zone(pg)
    requires h0 == SettleFlags(h, pg, order) && h1 == Deposit(h0, node, zone, pg, order)
    ensures Shape(nid, h1, Span(pg, order))
  {
    FreeStartBlocks(nid, h, pg, order, h1);
    FreeStartCount(nid, h, pg, order, node, zone, h1);
  }

  /** Depositing the block adds it to the free set, floating. */
  lemma FreeStartBlocks(nid: Topology, h: Heap, pg: nat, order: nat, h1: Heap)
    requires Valid(nid, h) && Returnable(nid, h, pg, order)
    requires h1.lists == h.lists && h1.pfnOrder == h.pfnOrder && h1.free == h.free + Span(pg, order)
    ensures FreeOK(nid, h1) && ListsOK(nid, h1) && BlocksOK(FreeBlocks(nid, h1), h1.free, Span(pg, order))
  {
    var S := Span(pg, order);
    SameShape(nid, h, h1);
    AddFree(FreeBlocks(nid, h), h.free, {}, S);
    BlocksSubst(FreeBlocks(nid, h), FreeBlocks(nid, h1), h.free + S, h1.free, {} + S, S);
  }

  /** Depositing the block raises the counter of its node and zone by its size. */
  lemma FreeStartCount(nid: Topology, h: Heap, pg: nat, order: nat, node: nat, zone: nat, h1: Heap)
    requires Valid(nid, h) && Returnable(nid, h, pg, order)
    requires node == NodeOf(nid, pg) && zone == Zone(pg)
    requires h1.free == h.free + Span(pg, order)
    requires Avail(h1, node, zone) == Avail(h, node, zone) + Pow2(order)
    requires forall n': nat, z': nat | (n', z') != (node, zone) :: Avail(h1, n', z') == Avail(h, n', z')
    ensures AvailOK(nid, h1)
  {
    SpanCard(pg, order);
    AvailDeposit(nid, h, h1, Span(pg, order), node, zone);
  }

  /**
   * Settling the page states: no free frame is being offlined, the frames
   * outside the block stay clean, and without tainted frames all are clean.
   */
  lemma FreeStartClean(h: Heap, pg: nat, order: nat, node: nat, zone: nat, h0: Heap, h1: Heap)
    requires Clean(h, {})
    requires h0 == SettleFlags(h, pg, order) && h1 == Deposit(h0, node, zone, pg, order)
    ensures Clean(h1, Span(pg, order))
    ensures forall f | f in h1.free :: !Flags(h1, f).offlining
    ensures TaintedIn(h, pg, order) == {} ==> Clean(h1, {})
  {
    assert h1.flags == h0.flags && h1.free == h.free + Span(pg, order);
    if TaintedIn(h, pg, order) == {} {
      forall f | f in h1.free ensures !Flags(h1, f).offlined {
        if InSpan(f, pg, order) {
          assert f !in TaintedIn(h, pg, order);
        }
      }
    }
  }

  /** The merged block goes on the list of its node, zone and order. */
  lemma FreeListed(nid: Topology, h: Heap, node: nat, zone: nat, head: nat, ho: nat, h2: Heap, C: set<nat>)
    requires Inv(nid, h, Span(head, ho)) && Clean(h, C)
    requires head >= 1 && ho <= MaxOrder && Aligned(head, ho)
    requires node == NodeOf(nid, head) && zone == Zone(head)
    requires h2 == AddTail(h, ListKey(node, zone, ho), head)
    ensures Shape(nid, h2, {}) && head in FreeBlocks(nid, h2) && PfnOrder(h2, head) == ho
    ensures Clean(h2, Span(head, ho)) && Clean(h2, C)
    ensures h2.free == h.free && h2.avail == h.avail && h2.flags == h.flags
  {
    var B := FreeBlocks(nid, h);
    var S := Span(head, ho);
    AddBlock(B, h.free, S, head, ho);
    AddTailOK(nid, h, ListKey(node, zone, ho), head);
    assert S - S == {};
    BlocksSubst(B[head := ho], FreeBlocks(nid, h2), h.free, h2.free, S - S, {});
    FreeOKFrame(nid, h, h2);
    AvailFrame(nid, h, h2);
    CleanFrame(h, h2, S);
    CleanFrame(h, h2, C);
  }

  /**
   * The heap after the merge loop and the listing of the merged block of
   * order m.2 at m.1: the lists are consistent, the merged block is listed
   * and contains the freed block, and the frames outside it are clean, as
   * are those outside C.
   */
  lemma FreeMerged(nid: Topology, h: Heap, pg: nat, order: nat, node: nat, zone: nat, h0: Heap, h1: Heap,
                   m: (Heap, nat, nat), h2: Heap, C: set<nat>)
    requires Valid(nid, h) && Returnable(nid, h, pg, order)
    requires node == NodeOf(nid, pg) && zone == Zone(pg)
    requires h0 == SettleFlags(h, pg, order) && h1 == Deposit(h0, node, zone, pg, order)
    requires m == Merge(h1, node, zone, pg, order) && h2 == AddTail(m.0, ListKey(node, zone, m.2), m.1)
    requires C == {} || C == Span(pg, order)
    requires C == {} ==> TaintedIn(h, pg, order) == {}
    ensures Shape(nid, h2, {}) && m.1 in FreeBlocks(nid, h2) && PfnOrder(h2, m.1) == m.2
    ensures m.1 >= 1 && m.2 <= MaxOrder && Aligned(m.1, m.2)
    ensures NodeOf(nid, m.1) == node && Zone(m.1) == zone
    ensures m.1 <= pg && pg + Pow2(order) <= m.1 + Pow2(m.2)
    ensures Clean(h2, Span(m.1, m.2)) && Clean(h2, C)
    ensures h2.free == h1.free && h2.avail == h1.avail && h2.flags == h1.flags
  {
    FreeStartShape(nid, h, pg, order, node, zone, h0, h1);
    FreeStartClean(h, pg, order, node, zone, h0, h1);
    var m' := MergeInv(nid, h1, node, zone, pg, order, C);
    MergeAligned(h1, node, zone, pg, order);
    FreeMergedHead(nid, m.0, pg, order, m.1, m.2);
    FreeListed(nid, m.0, node, zone, m.1, m.2, h2, C);
  }

  /** The merged block is a proper block in the node and zone of the block it contains. */
  lemma FreeMergedHead(nid: Topology, h: Heap, pg: nat, order: nat, head: nat, ho: nat)
    requires Inv(nid, h, Span(head, ho))
    requires ho <= MaxOrder && Aligned(head, ho)
    requires head <= pg && pg + Pow2(order) <= head + Pow2(ho)
    ensures head >= 1 && NodeOf(nid, head) == NodeOf(nid, pg) && Zone(head) == Zone(pg)
  {
    assert InSpan(head, head, ho) && head in h.free;
    SpanUniform(nid, h, head, ho);
    assert head <= pg < head + Pow2(ho);
  }

  /** free_heap_pages, its steps spelt out. */
  lemma FreeUnfold(nid: Topology, h: Heap, pg: nat, order: nat, node: nat, zone: nat, h0: Heap, h1: Heap,
                   m: (Heap, nat, nat), h2: Heap)
    requires order <= MaxOrder && forall f | InSpan(f, pg, order) :: !Flags(h, f).offlined
    requires node == NodeOf(nid, pg) && zone == Zone(pg)
    requires h0 == SettleFlags(h, pg, order) && h1 == Deposit(h0, node, zone, pg, order)
    requires m == Merge(h1, node, zone, pg, order) && h2 == AddTail(m.0, ListKey(node, zone, m.2), m.1)
    ensures TaintedIn(h, pg, order) == {} ==> FreeHeapPages(nid, h, pg, order) == h2
    ensures TaintedIn(h, pg, order) != {} ==>
      (PfnOrder(h2, m.1) >= 1 || Flags(h2, m.1).offlined)
      && FreeHeapPages(nid, h, pg, order) == ReserveOfflinedPage(nid, h2, m.1, true).heap
  {
    if TaintedIn(h, pg, order) != {} {
      TaintedSingle(h, pg, order);
    }
  }

  /**
   * The offlined frames of the merged block are the frames of the freed
   * block that were being offlined: the merged-in buddies were clean.
   */
  lemma FreeTaintedSet(h: Heap, h2: Heap, pg: nat, order: nat, head: nat, ho: nat, end: nat)
    requires Clean(h, {}) && forall f | InSpan(f, pg, order) :: f !in h.free
    requires h2.flags == SettleFlags(h, pg, order).flags && h2.free == h.free + Span(pg, order)
    requires forall f | InSpan(f, head, ho) :: f in h2.free
    requires head <= pg && pg + Pow2(order) <= head + Pow2(ho) && end == head + Pow2(ho)
    ensures OfflinedIn(h2, head, end) == TaintedIn(h, pg, order)
  {
    forall f ensures f in OfflinedIn(h2, head, end) <==> f in TaintedIn(h, pg, order) {
    }
  }

  /** A reservation of the tainted frames after the merge completes the freeing. */
  lemma FreedByReserve(nid: Topology, h: Heap, h2: Heap, r: Heap, count: nat, pg: nat, order: nat, node: nat,
                       zone: nat)
    requires node == NodeOf(nid, pg) && zone == Zone(pg)
    requires forall f | InSpan(f, pg, order) :: f !in h.free
    requires Reserved(nid, h2, r, count, node, zone, TaintedIn(h, pg, order))
    requires h2.free == h.free + Span(pg, order)
    requires Avail(h2, node, zone) == Avail(h, node, zone) + Pow2(order)
    requires forall n': nat, z': nat | (n', z') != (node, zone) :: Avail(h2, n', z') == Avail(h, n', z')
    ensures Freed(nid, h, r, pg, order)
  {
    var T := TaintedIn(h, pg, order);
    assert r.free == h.free + (Span(pg, order) - T);
  }

  /** Freeing a block with no frame being offlined. */
  lemma FreeUntainted(nid: Topology, h: Heap, pg: nat, order: nat, node: nat, zone: nat, h0: Heap, h1: Heap,
                      m: (Heap, nat, nat), h2: Heap)
    requires Valid(nid, h) && Returnable(nid, h, pg, order) && TaintedIn(h, pg, order) == {}
    requires node == NodeOf(nid, pg) && zone == Zone(pg)
    requires h0 == SettleFlags(h, pg, order) && h1 == Deposit(h0, node, zone, pg, order)
    requires m == Merge(h1, node, zone, pg, order) && h2 == AddTail(m.0, ListKey(node, zone, m.2), m.1)
    ensures Freed(nid, h, h2, pg, order)
  {
    FreeMerged(nid, h, pg, order, node, zone, h0, h1, m, h2, {});
    FreedDirect(nid, h, h1, h2, pg, order, node, zone);
  }

  /** The merged and listed block completes the freeing when nothing was tainted. */
  lemma FreedDirect(nid: Topology, h: Heap, h1: Heap, r: Heap, pg: nat, order: nat, node: nat, zone: nat)
    requires node == NodeOf(nid, pg) && zone == Zone(pg) && TaintedIn(h, pg, order) == {}
    requires Shape(nid, r, {}) && Clean(r, {})
    requires r.free == h1.free && r.avail == h1.avail && h1.free == h.free + Span(pg, order)
    requires Avail(h1, node, zone) == Avail(h, node, zone) + Pow2(order)
    requires forall n': nat, z': nat | (n', z') != (node, zone) :: Avail(h1, n', z') == Avail(h, n', z')
    ensures Freed(nid, h, r, pg, order)
  {
    assert Span(pg, order) - TaintedIn(h, pg, order) == Span(pg, order);
  }

  /** What the merge leaves for the reservation when some frame was being offlined. */
  lemma FreeTaintedReady(nid: Topology, h: Heap, pg: nat, order: nat, node: nat, zone: nat, h0: Heap, h1: Heap,
                         m: (Heap, nat, nat), h2: Heap)
    requires Valid(nid, h) && Returnable(nid, h, pg, order) && TaintedIn(h, pg, order) != {}
    requires node == NodeOf(nid, pg) && zone == Zone(pg)
    requires h0 == SettleFlags(h, pg, order) && h1 == Deposit(h0, node, zone, pg, order)
    requires m == Merge(h1, node, zone, pg, order) && h2 == AddTail(m.0, ListKey(node, zone, m.2), m.1)
    ensures Shape(nid, h2, {}) && m.1 in FreeBlocks(nid, h2) && PfnOrder(h2, m.1) == m.2
    ensures NodeOf(nid, m.1) == node && Zone(m.1) == zone
    ensures Clean(h2, Span(m.1, m.2)) && forall f | InSpan(f, m.1, m.2) :: !Flags(h2, f).offlining
    ensures m.1 <= pg && pg + Pow2(order) <= m.1 + Pow2(m.2)
    ensures h2.free == h.free + Span(pg, order) && h2.flags == SettleFlags(h, pg, order).flags
    ensures Avail(h2, node, zone) == Avail(h, node, zone) + Pow2(order)
    ensures forall n': nat, z': nat | (n', z') != (node, zone) :: Avail(h2, n', z') == Avail(h, n', z')
  {
    FreeMerged(nid, h, pg, order, node, zone, h0, h1, m, h2, Span(pg, order));
    FreeStartClean(h, pg, order, node, zone, h0, h1);
    assert forall f | InSpan(f, m.1, m.2) :: f in h2.free;
  }

  /** Freeing a block some of whose frames were being offlined. */
  lemma FreeTainted(nid: Topology, h: Heap, h2: Heap, pg: nat, order: nat, node: nat, zone: nat, head: nat,
                    ho: nat)
    requires Valid(nid, h) && Returnable(nid, h, pg, order)
    requires node == NodeOf(nid, pg) && zone == Zone(pg)
    requires Shape(nid, h2, {}) && head in FreeBlocks(nid, h2) && PfnOrder(h2, head) == ho
    requires NodeOf(nid, head) == node && Zone(head) == zone && (ho >= 1 || Flags(h2, head).offlined)
    requires Clean(h2, Span(head, ho)) && forall f | InSpan(f, head, ho) :: !Flags(h2, f).offlining
    requires head <= pg && pg + Pow2(order) <= head + Pow2(ho)
    requires h2.free == h.free + Span(pg, order) && h2.flags == SettleFlags(h, pg, order).flags
    requires Avail(h2, node, zone) == Avail(h, node, zone) + Pow2(order)
    requires forall n': nat, z': nat | (n', z') != (node, zone) :: Avail(h2, n', z') == Avail(h, n', z')
    ensures Freed(nid, h, ReserveOfflinedPage(nid, h2, head, true).heap, pg, order)
  {
    var end := head + Pow2(ho);
    ReserveValid(nid, h2, head, end);
    FreeTaintedSet(h, h2, pg, order, head, ho, end);
    var r := ReserveOfflinedPage(nid, h2, head, true);
    FreedByReserve(nid, h, h2, r.heap, r.count, pg, order, node, zone);
  }

  /**
   * free_heap_pages keeps the heap valid: the block is merged with its free
   * buddies and listed, its frames that were being offlined are withheld
   * and the counter rises by the number of frames that became free.
   */
  lemma FreeValid(nid: Topology, h: Heap, pg: nat, order: nat)
    requires Valid(nid, h) && Returnable(nid, h, pg, order)
    ensures Freed(nid, h, FreeHeapPages(nid, h, pg, order), pg, order)
  {
    var node, zone := NodeOf(nid, pg), Zone(pg);
    var h0 := SettleFlags(h, pg, order);
    var h1 := Deposit(h0, node, zone, pg, order);
    var m := Merge(h1, node, zone, pg, order);
    var h2 := AddTail(m.0, ListKey(node, zone, m.2), m.1);
    FreeUnfold(nid, h, pg, order, node, zone, h0, h1, m, h2);
    if TaintedIn(h, pg, order) == {} {
      FreeUntainted(nid, h, pg, order, node, zone, h0, h1, m, h2);
    } else {
      FreeTaintedReady(nid, h, pg, order, node, zone, h0, h1, m, h2);
      FreeTainted(nid, h, h2, pg, order, node, zone, m.1, m.2);
    }
  }

}
module ReserveSample {
  import opened Arith
  import opened Zones
  import opened Blocks
  import opened Heap
  import opened HeapFree

  /** A machine with one node. */
  const OneNode: Topology := f => 0

  /** A free block of order 2 at frames 4 to 7 whose head frame is offlined. */
  const Sample: Heap := Heap({4, 5, 6, 7}, map[ListKey(0, 2, 2) := [4]], map[4 := 2], map[(0, 2) := 4],
                             map[4 := PageFlags(false, true, false)], map[], {}, [], [])

  lemma SampleZones()
    ensures Zone(4) == 2 && Zone(5) == 2 && Zone(6) == 2 && Zone(7) == 2
  {
    assert Fls(1) == 1;
    assert Fls(2) == 2 && Fls(3) == 2;
  }

  /** The carving as written lists frame 5 with order 1. */
  lemma SampleCarve()
    ensures var c := Carve(Delete(Sample, ListKey(0, 2, 2), 4), 0, 2, 8, 2, 4, false);
      c.pfnOrder == map[4 := 2, 5 := 1, 7 := 0] && List(c, ListKey(0, 2, 1)) == [5]
  {
    var h1 := Delete(Sample, ListKey(0, 2, 2), 4);
    assert List(h1, ListKey(0, 2, 2)) == [];
    assert Pow2(2) == 4 && Pow2(1) == 2 && Pow2(0) == 1;
    assert CarveOrder(h1, 8, 5, 0, 2, false) == 1;
    var h2 := AddTail(h1, ListKey(0, 2, 1), 5);
    assert CarveOrder(h2, 8, 7, 0, 2, false) == 0;
    var h3 := AddTail(h2, ListKey(0, 2, 0), 7);
    assert Carve(h3, 0, 2, 8, 2, 8, false) == h3;
    assert Carve(h2, 0, 2, 8, 2, 7, false) == h3;
    assert Carve(h1, 0, 2, 8, 2, 5, false) == h3;
  }

  /**
   * reserve_offlined_page as written, on the sample block: frame 5 goes on
   * the list of order 1 although it is not a multiple of 2, so the heap it
   * leaves is not valid.
   */
  lemma ReserveAsWrittenMisaligns()
    ensures var r := ReserveOfflinedPage(OneNode, Sample, 4, false).heap;
      5 in FreeBlocks(OneNode, r) && FreeBlocks(OneNode, r)[5] == 1 && !Aligned(5, 1) && !Valid(OneNode, r)
  {
    SampleZones();
    SampleCarve();
    var h1 := Delete(Sample, ListKey(0, 2, 2), 4);
    assert Pow2(2) == 4;
    ReserveUnfold(OneNode, Sample, 4, 0, 2, 2, 8, h1, false);
    var r := ReserveOfflinedPage(OneNode, Sample, 4, false).heap;
    assert List(r, ListKey(0, 2, 1)) == [5];
    assert 5 in FreeBlocks(OneNode, r);
  }
}
