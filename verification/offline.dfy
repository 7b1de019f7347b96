/**
 * The page offline state machine (page_alloc.c:589-821): mark_page_offline,
 * reserve_heap_page, offline_page, online_page and query_page_offline.
 *
 * A page asked to go offline becomes "offlined" at once when it is free, and
 * is then withheld from the heap; an allocated page becomes "offlining" and
 * turns offlined when it is freed.  A broken page stays broken.  Onlining
 * clears the offline states and returns an offlined page to the heap.
 *
 * The heap lock and the compare-and-exchange loop are single steps.  What
 * the operations learn about the machine (max_page, the frames of Xen's own
 * image, conventional RAM, the PGC_xen_heap bit) is a parameter of type
 * Machine.
 */
module HeapOffline {
  import opened Options
  import opened Arith
  import opened Zones
  import opened Blocks
  import opened Heap
  import opened HeapFree

  const EPERM: int := 1
  const EINVAL: int := 22

  /** DOMID_XEN and DOMID_INVALID, as reported in the owner field of a status. */
  const DomidXen: nat := 0x7FF2
  const DomidInvalid: nat := 0x7FF4

  /**
   * max_page (one past the last frame of the frame table), the frames for
   * which is_xen_fixed_mfn holds, the frames for which page_is_ram_type(.,
   * RAM_TYPE_CONVENTIONAL) holds, and the frames with PGC_xen_heap set.
   */
  datatype Machine = Machine(maxPage: nat, xenFixed: set<nat>, conventional: set<nat>, xenHeap: set<nat>)

  /** The frame has a page_info in the frame table. */
  predicate InFrameTable(m: Machine, mfn: nat)
  {
    mfn < m.maxPage
  }

  // ---------------------------------------------------------------------
  // mark_page_offline

  /**
   * mark_page_offline, the compare-and-exchange loop as one step.  Returns
   * the new state and the page state before the step.  A page both offlined
   * and broken is left alone; an offlined page can only gain the broken bit;
   * any other page becomes offlining when allocated and offlined when free;
   * broken is added whenever it is asked for.
   */
  function MarkPageOffline(h: Heap, f: nat, broken: bool): (r: (Heap, PageFlags))
    ensures r.1 == Flags(h, f)
    ensures r.0 == h.(flags := r.0.flags)
    ensures forall g | g != f :: Flags(r.0, g) == Flags(h, g)
    ensures Flags(h, f).offlined && Flags(h, f).broken ==> Flags(r.0, f) == Flags(h, f)
    ensures Flags(h, f).offlined ==> Flags(r.0, f) == Flags(h, f).(broken := Flags(h, f).broken || broken)
    ensures !Flags(h, f).offlined ==>
      Flags(r.0, f) == PageFlags(Flags(h, f).offlining || f !in h.free, f in h.free, Flags(h, f).broken || broken)
  {
    var x := Flags(h, f);
    if x.offlined && x.broken then (h, x)
    else if x.offlined && !(broken && !x.broken) then (h, x)
    else
      var nx := if x.offlined then x.(broken := true)
                else if f !in h.free then x.(offlining := true)
                else x.(offlined := true);
      var nx' := if broken then nx.(broken := true) else nx;
      (h.(flags := h.flags[f := nx']), x)
  }

  /** Marking never clears a bit: the offline states only move forward. */
  lemma MarkMonotone(h: Heap, f: nat, broken: bool)
    ensures var p, q := Flags(h, f), Flags(MarkPageOffline(h, f, broken).0, f);
      (p.offlining ==> q.offlining) && (p.offlined ==> q.offlined) && (p.broken ==> q.broken)
      && (q.offlined || q.offlining) && (broken ==> q.broken)
  {
  }

  // ---------------------------------------------------------------------
  // reserve_heap_page

  /** The first head on list s whose block of order o holds frame pg. */
  function FirstContaining(s: seq<nat>, pg: nat, o: nat): (r: Option<nat>)
    ensures r.Some? ==> r.value in s && InSpan(pg, r.value, o)
    ensures r.None? ==> forall b | b in s :: !InSpan(pg, b, o)
  {
    if |s| == 0 then None
    else if s[0] <= pg < s[0] + Pow2(o) then Some(s[0])
    else FirstContaining(s[1..], pg, o)
  }

  /**
   * The search of reserve_heap_page: orders i up to MAX_ORDER of node and
   * zone, each list from its head; the first listed block holding pg and
   * its order.
   */
  function FindHead(h: Heap, node: nat, zone: nat, pg: nat, i: nat): (r: Option<(nat, nat)>)
    decreases MaxOrder + 1 - i
    ensures r.Some? ==>
      i <= r.value.1 <= MaxOrder && r.value.0 in List(h, ListKey(node, zone, r.value.1))
      && InSpan(pg, r.value.0, r.value.1)
    ensures r.None? ==>
      forall o: nat, b | i <= o <= MaxOrder && b in List(h, ListKey(node, zone, o)) :: !InSpan(pg, b, o)
  {
    if i > MaxOrder then None
    else match FirstContaining(List(h, ListKey(node, zone, i)), pg, i)
      case Some(b) => Some((b, i))
      case None => FindHead(h, node, zone, pg, i + 1)
  }

  /**
   * reserve_heap_page: the block on the free lists of pg's node and zone
   * that holds pg is handed to reserve_offlined_page; None is -EINVAL, no
   * such block.  The page must already be offlined (offline_page marks it
   * first), so that a single-frame block found is one reserve_offlined_page
   * can work on.
   */
  function ReserveHeapPage(nid: Topology, h: Heap, pg: nat): (r: Option<Reservation>)
    requires ListsOK(nid, h) && Flags(h, pg).offlined
    ensures r.None? ==>
      forall o: nat, b | o <= MaxOrder && b in List(h, ListKey(NodeOf(nid, pg), Zone(pg), o)) :: !InSpan(pg, b, o)
    ensures r.Some? ==> r.value.heap.flags == h.flags && r.value.heap.owner == h.owner
  {
    match FindHead(h, NodeOf(nid, pg), Zone(pg), pg, 0)
    case None => None
    case Some((b, o)) =>
      assert KeyOf(nid, h, b) == ListKey(NodeOf(nid, pg), Zone(pg), o);
      assert o == 0 ==> b == pg;
      Some(ReserveOfflinedPage(nid, h, b, true))
  }

  /**
   * In a heap whose only unclean free frame is pg, the block holding pg is
   * found: it is a listed block in pg's node and zone.
   */
  lemma ReserveHeapPageFinds(nid: Topology, h: Heap, pg: nat) returns (b: nat, o: nat)
    requires Shape(nid, h, {}) && pg in h.free && Flags(h, pg).offlined
    ensures b in FreeBlocks(nid, h) && PfnOrder(h, b) == o && InSpan(pg, b, o)
    ensures NodeOf(nid, b) == NodeOf(nid, pg) && Zone(b) == Zone(pg)
    ensures forall g | InSpan(g, b, o) :: g in h.free
    ensures FindHead(h, NodeOf(nid, pg), Zone(pg), pg, 0) == Some((b, o))
  {
    var B := FreeBlocks(nid, h);
    assert Listed(B, pg);
    b :| b in B && InSpan(pg, b, B[b]);
    o := B[b];
    BlockUniform(nid, h, b, o, pg);
    FindHeadFinds(nid, h, pg, b, o);
  }

  /** The search of pg's node and zone lists stops at the free block that holds pg. */
  lemma FindHeadFinds(nid: Topology, h: Heap, pg: nat, b: nat, o: nat)
    requires Shape(nid, h, {}) && b in FreeBlocks(nid, h) && FreeBlocks(nid, h)[b] == o && InSpan(pg, b, o)
    requires NodeOf(nid, b) == NodeOf(nid, pg) && Zone(b) == Zone(pg)
    ensures FindHead(h, NodeOf(nid, pg), Zone(pg), pg, 0) == Some((b, o))
  {
    var B := FreeBlocks(nid, h);
    var node, zone := NodeOf(nid, pg), Zone(pg);
    assert b in List(h, ListKey(node, zone, o));
    var r := FindHead(h, node, zone, pg, 0);
    var b', o' := r.value.0, r.value.1;
    assert KeyOf(nid, h, b') == ListKey(node, zone, o');
    assert b' in B && B[b'] == o';
  }

  /**
   * reserve_heap_page on a free page just marked offlined withholds exactly
   * that page and leaves the heap valid.
   */
  lemma ReserveHeapPageValid(nid: Topology, h: Heap, pg: nat)
    requires Shape(nid, h, {}) && pg in h.free && Clean(h, {pg})
    requires Flags(h, pg).offlined && !Flags(h, pg).offlining
    ensures ReserveHeapPage(nid, h, pg).Some?
    ensures var r := ReserveHeapPage(nid, h, pg).value;
      Reserved(nid, h, r.heap, r.count, NodeOf(nid, pg), Zone(pg), {pg})
  {
    var b, o := ReserveHeapPageFinds(nid, h, pg);
    var end := b + Pow2(o);
    ReserveBlockReady(h, pg, b, o, end);
    ReserveValid(nid, h, b, end);
  }

  /** The block holding pg is one reserve_offlined_page can work on, and pg is its only offlined frame. */
  lemma ReserveBlockReady(h: Heap, pg: nat, b: nat, o: nat, end: nat)
    requires Clean(h, {pg}) && Flags(h, pg).offlined && !Flags(h, pg).offlining
    requires InSpan(pg, b, o) && PfnOrder(h, b) == o && end == b + Pow2(o)
    requires forall g | InSpan(g, b, o) :: g in h.free
    ensures PfnOrder(h, b) >= 1 || Flags(h, b).offlined
    ensures Clean(h, Span(b, o)) && forall f | InSpan(f, b, o) :: !Flags(h, f).offlining
    ensures OfflinedIn(h, b, end) == {pg}
  {
    assert o == 0 ==> b == pg;
  }

  // ---------------------------------------------------------------------
  // offline_page

  /** The PG_OFFLINE_* bits of an offline_page status. */
  datatype OfflineBit = Offlined | Pending | Failed | Owned | XenPage | Anonymous | NotConvRam | Broken

  /** A status word: its bits and the domain in its owner field. */
  datatype OfflineStatus = OfflineStatus(bits: set<OfflineBit>, owner: nat)

  /** The new state, the return value, and the status written (None: not written). */
  datatype OfflineResult = OfflineResult(heap: Heap, ret: int, status: Option<OfflineStatus>)

  /**
   * offline_page.  A frame outside the frame table is -EINVAL; a frame of
   * Xen's image is -EPERM; a frame that is not conventional RAM is -EINVAL.
   * Otherwise the page is marked, a free page is reserved at once, and the
   * status says what became of it.
   */
  function OfflinePage(nid: Topology, h: Heap, m: Machine, mfn: nat, broken: bool): (r: OfflineResult)
    requires ListsOK(nid, h)
    ensures r.ret == 0 <==> InFrameTable(m, mfn) && mfn !in m.xenFixed && mfn in m.conventional
    ensures r.status.Some? ==> InFrameTable(m, mfn)
    ensures r.ret != 0 ==> r.heap == h
    ensures r.ret == 0 ==> (
      r.status.Some? && r.heap.owner == h.owner
      && (Offlined in r.status.value.bits <==> mfn in h.free || Flags(h, mfn).offlined)
      && (Broken in r.status.value.bits <==> broken)
      && (Flags(r.heap, mfn).offlined || Flags(r.heap, mfn).offlining)
      && (broken ==> Flags(r.heap, mfn).broken))
  {
    if !InFrameTable(m, mfn) then OfflineResult(h, -EINVAL, None) else OfflineFrame(nid, h, m, mfn, broken)
  }

  /** offline_page past its range check: the Xen-image and RAM-type checks, then the marking. */
  function OfflineFrame(nid: Topology, h: Heap, m: Machine, mfn: nat, broken: bool): (r: OfflineResult)
    requires ListsOK(nid, h)
    ensures r.status.Some?
    ensures r.ret == 0 <==> mfn !in m.xenFixed && mfn in m.conventional
    ensures mfn in m.xenFixed ==> r == OfflineResult(h, -EPERM, Some(OfflineStatus({XenPage, Failed}, DomidXen)))
    ensures mfn !in m.xenFixed && mfn !in m.conventional ==>
      r == OfflineResult(h, -EINVAL, Some(OfflineStatus({Failed, NotConvRam}, 0)))
    ensures r.ret == 0 ==> (
      r.heap.owner == h.owner
      && (Offlined in r.status.value.bits <==> mfn in h.free || Flags(h, mfn).offlined)
      && (Broken in r.status.value.bits <==> broken)
      && (Flags(r.heap, mfn).offlined || Flags(r.heap, mfn).offlining)
      && (broken ==> Flags(r.heap, mfn).broken))
  {
    if mfn in m.xenFixed then OfflineResult(h, -EPERM, Some(OfflineStatus({XenPage, Failed}, DomidXen)))
    else if mfn !in m.conventional then OfflineResult(h, -EINVAL, Some(OfflineStatus({Failed, NotConvRam}, 0)))
    else
      var h1 := MarkPageOffline(h, mfn, broken).0;
      SameShape(nid, h, h1);
      OfflineResult(OfflineHeap(nid, h1, mfn), 0, Some(OfflineReport(h1, m, mfn, broken)))
  }

  /** The state after marking: a free page is reserved at once. */
  function OfflineHeap(nid: Topology, h1: Heap, mfn: nat): (r: Heap)
    requires ListsOK(nid, h1) && (mfn in h1.free ==> Flags(h1, mfn).offlined)
    ensures r.flags == h1.flags && r.owner == h1.owner
    ensures mfn !in h1.free ==> r == h1
  {
    if mfn in h1.free then
      match ReserveHeapPage(nid, h1, mfn)
      case None => h1
      case Some(v) => v.heap
    else h1
  }

  /**
   * The status offline_page reports for a marked page: offlined when it is
   * free or already offlined; otherwise pending with its owner, pending as
   * a Xen heap page, or failed as an anonymous page; broken when asked.
   */
  function OfflineReport(h1: Heap, m: Machine, mfn: nat, broken: bool): (s: OfflineStatus)
    ensures Offlined in s.bits <==> mfn in h1.free || Flags(h1, mfn).offlined
    ensures Pending in s.bits <==> mfn !in h1.free && !Flags(h1, mfn).offlined && (mfn in h1.owner || mfn in m.xenHeap)
    ensures Broken in s.bits <==> broken
  {
    var s :=
      if mfn in h1.free then OfflineStatus({Offlined}, 0)
      else if Flags(h1, mfn).offlined then OfflineStatus({Offlined}, 0)
      else if mfn in h1.owner then OfflineStatus({Owned, Pending}, h1.owner[mfn])
      else if mfn in m.xenHeap then OfflineStatus({XenPage, Pending}, DomidXen)
      else OfflineStatus({Anonymous, Failed}, DomidInvalid);
    if broken then s.(bits := s.bits + {Broken}) else s
  }

  /**
   * Offlining a free page withholds it: the heap stays valid, the page
   * leaves the free set and its node and zone count one frame fewer.
   */
  lemma OfflineFreeValid(nid: Topology, h: Heap, m: Machine, mfn: nat, broken: bool)
    requires Valid(nid, h) && mfn in h.free
    requires InFrameTable(m, mfn) && mfn !in m.xenFixed && mfn in m.conventional
    ensures var r := OfflinePage(nid, h, m, mfn, broken);
      Valid(nid, r.heap) && r.heap.free == h.free - {mfn}
      && Avail(r.heap, NodeOf(nid, mfn), Zone(mfn)) + 1 == Avail(h, NodeOf(nid, mfn), Zone(mfn))
      && (forall n': nat, z': nat | (n', z') != (NodeOf(nid, mfn), Zone(mfn)) :: Avail(r.heap, n', z') == Avail(h, n', z'))
      && r.status == Some(OfflineStatus(if broken then {Offlined, Broken} else {Offlined}, 0))
  {
    var h1 := MarkPageOffline(h, mfn, broken).0;
    OfflineMarkedShape(nid, h, h1, mfn);
    ReserveHeapPageValid(nid, h1, mfn);
    OfflineFreeUnfold(nid, h, m, mfn, broken, h1);
  }

  /** offline_page on a free page, its steps spelt out. */
  lemma OfflineFreeUnfold(nid: Topology, h: Heap, m: Machine, mfn: nat, broken: bool, h1: Heap)
    requires ListsOK(nid, h) && mfn in h.free
    requires InFrameTable(m, mfn) && mfn !in m.xenFixed && mfn in m.conventional
    requires h1 == MarkPageOffline(h, mfn, broken).0
    ensures ListsOK(nid, h1) && Flags(h1, mfn).offlined && mfn in h1.free
    ensures ReserveHeapPage(nid, h1, mfn).Some? ==>
      OfflinePage(nid, h, m, mfn, broken).heap == ReserveHeapPage(nid, h1, mfn).value.heap
    ensures OfflinePage(nid, h, m, mfn, broken).status == Some(OfflineStatus(if broken then {Offlined, Broken} else {Offlined}, 0))
  {
    SameShape(nid, h, h1);
    assert OfflinePage(nid, h, m, mfn, broken) == OfflineResult(OfflineHeap(nid, h1, mfn), 0, Some(OfflineReport(h1, m, mfn, broken)));
    assert {Offlined} + {Broken} == {Offlined, Broken};
  }

  /** Marking a free, clean page leaves the invariant with that page as its only unclean free frame. */
  lemma OfflineMarkedShape(nid: Topology, h: Heap, h1: Heap, mfn: nat)
    requires Valid(nid, h) && mfn in h.free
    requires h1 == h.(flags := h1.flags) && forall g | g != mfn :: Flags(h1, g) == Flags(h, g)
    ensures Shape(nid, h1, {}) && Clean(h1, {mfn})
  {
    SameShape(nid, h, h1);
    FreeOKFrame(nid, h, h1);
    AvailFrame(nid, h, h1);
  }

  /**
   * Offlining an allocated page only marks it: the free set, the counters
   * and the validity of the heap are untouched.
   */
  lemma OfflineAllocatedValid(nid: Topology, h: Heap, m: Machine, mfn: nat, broken: bool)
    requires Valid(nid, h) && mfn !in h.free
    ensures var r := OfflinePage(nid, h, m, mfn, broken);
      Valid(nid, r.heap) && r.heap.free == h.free && r.heap.avail == h.avail
  {
    var h1 := MarkPageOffline(h, mfn, broken).0;
    SameShape(nid, h, h1);
    FreeOKFrame(nid, h, h1);
    AvailFrame(nid, h, h1);
  }

  // ---------------------------------------------------------------------
  // online_page

  /** The PG_ONLINE_* bits of an online_page status. */
  datatype OnlineBit = Onlined | OnlineFailed | OnlineBroken

  datatype OnlineResult = OnlineResult(heap: Heap, ret: int, status: Option<set<OnlineBit>>)

  /**
   * online_page past its range check: a broken page fails; an offlined page
   * is cleared, leaves the offlined list and is freed at order 0; an
   * offlining page is cleared; any other page reports nothing.
   */
  function OnlineFrame(nid: Topology, h: Heap, mfn: nat): (r: OnlineResult)
    ensures r.status.Some?
    ensures Flags(h, mfn).broken ==> r == OnlineResult(h, -EINVAL, Some({OnlineFailed, OnlineBroken}))
    ensures !Flags(h, mfn).broken ==> (
      r.ret == 0
      && (r.status.value == {Onlined} <==> Flags(h, mfn).offlined || Flags(h, mfn).offlining)
      && (r.status.value == {} <==> !Flags(h, mfn).offlined && !Flags(h, mfn).offlining))
    ensures !Flags(h, mfn).offlined ==> r.heap.free == h.free
    ensures !Flags(h, mfn).broken && !(Flags(h, mfn).offlined && Flags(h, mfn).offlining) ==>
      Flags(r.heap, mfn) == Online
  {
    var x := Flags(h, mfn);
    if x.broken then OnlineResult(h, -EINVAL, Some({OnlineFailed, OnlineBroken}))
    else if x.offlined then
      var h1 := h.(flags := h.flags[mfn := x.(offlined := false)], offlinedList := Remove(h.offlinedList, mfn));
      assert forall f | InSpan(f, mfn, 0) :: f == mfn;
      OnlineResult(FreeHeapPages(nid, h1, mfn, 0), 0, Some({Onlined}))
    else if x.offlining then OnlineResult(h.(flags := h.flags[mfn := x.(offlining := false)]), 0, Some({Onlined}))
    else OnlineResult(h, 0, Some({}))
  }

  /**
   * online_page.  The range check rejects frames outside the frame table;
   * see GuardAsWritten for the check as the source writes it.
   */
  function OnlinePage(nid: Topology, h: Heap, m: Machine, mfn: nat): (r: OnlineResult)
    ensures r.status.Some? <==> InFrameTable(m, mfn)
    ensures !InFrameTable(m, mfn) ==> r == OnlineResult(h, -EINVAL, None)
  {
    if !InFrameTable(m, mfn) then OnlineResult(h, -EINVAL, None) else OnlineFrame(nid, h, mfn)
  }

  /** The range check as offline_page, online_page and query_page_offline write it: mfn > max_page fails. */
  predicate GuardAsWritten(m: Machine, mfn: nat)
  {
    !(mfn > m.maxPage)
  }

  /** online_page with the range check as written. */
  function OnlinePageAsWritten(nid: Topology, h: Heap, m: Machine, mfn: nat): (r: OnlineResult)
    ensures r.status.Some? <==> GuardAsWritten(m, mfn)
  {
    if !GuardAsWritten(m, mfn) then OnlineResult(h, -EINVAL, None) else OnlineFrame(nid, h, mfn)
  }

  /** offline_page with the range check as written. */
  function OfflinePageAsWritten(nid: Topology, h: Heap, m: Machine, mfn: nat, broken: bool): (r: OfflineResult)
    requires ListsOK(nid, h)
    ensures r.status.Some? <==> GuardAsWritten(m, mfn)
    ensures r.ret == 0 <==> GuardAsWritten(m, mfn) && mfn !in m.xenFixed && mfn in m.conventional
  {
    if !GuardAsWritten(m, mfn) then OfflineResult(h, -EINVAL, None) else OfflineFrame(nid, h, m, mfn, broken)
  }

  /**
   * Everywhere but at max_page the checks as written and the corrected ones
   * agree, for all three operations.
   */
  lemma GuardsAgree(nid: Topology, h: Heap, m: Machine, mfn: nat, broken: bool)
    requires ListsOK(nid, h) && mfn != m.maxPage
    ensures OfflinePageAsWritten(nid, h, m, mfn, broken) == OfflinePage(nid, h, m, mfn, broken)
    ensures OnlinePageAsWritten(nid, h, m, mfn) == OnlinePage(nid, h, m, mfn)
    ensures QueryPageOfflineAsWritten(h, m, mfn) == QueryPageOffline(h, m, mfn)
  {
  }

  /**
   * offline_page as written goes past the range check at max_page, a frame
   * with no page_info: when that frame counts as conventional RAM it is
   * marked and success is reported, and otherwise a failure status is
   * written; the corrected check refuses it with no status.
   */
  lemma OfflineAsWrittenPastTable(nid: Topology, h: Heap, m: Machine, broken: bool)
    requires ListsOK(nid, h) && m.maxPage !in m.xenFixed
    ensures !InFrameTable(m, m.maxPage)
    ensures OfflinePage(nid, h, m, m.maxPage, broken) == OfflineResult(h, -EINVAL, None)
    ensures m.maxPage in m.conventional ==> OfflinePageAsWritten(nid, h, m, m.maxPage, broken).ret == 0
    ensures m.maxPage !in m.conventional ==>
      OfflinePageAsWritten(nid, h, m, m.maxPage, broken) == OfflineResult(h, -EINVAL, Some(OfflineStatus({Failed, NotConvRam}, 0)))
  {
  }

  /**
   * The check as written lets max_page itself through, a frame with no
   * page_info: online_page reads and writes past the end of the frame
   * table and reports success, where the corrected check refuses.
   */
  lemma OnlineAsWrittenPastTable(nid: Topology, h: Heap, m: Machine)
    requires !Flags(h, m.maxPage).broken
    ensures !InFrameTable(m, m.maxPage)
    ensures OnlinePageAsWritten(nid, h, m, m.maxPage).ret == 0
    ensures OnlinePageAsWritten(nid, h, m, m.maxPage).status.Some?
    ensures OnlinePage(nid, h, m, m.maxPage).ret == -EINVAL
  {
  }

  /**
   * Onlining a withheld offlined page returns it to the heap: the heap stays
   * valid, the page is free again and online, and its node and zone count
   * one frame more.
   */
  lemma OnlineValid(nid: Topology, h: Heap, mfn: nat)
    requires Valid(nid, h) && mfn >= 1 && !Boundary(nid, mfn) && mfn !in h.free
    requires Flags(h, mfn) == PageFlags(false, true, false)
    ensures var r := OnlineFrame(nid, h, mfn).heap;
      Valid(nid, r) && r.free == h.free + {mfn} && Flags(r, mfn) == Online
      && Avail(r, NodeOf(nid, mfn), Zone(mfn)) == Avail(h, NodeOf(nid, mfn), Zone(mfn)) + 1
  {
    var x := Flags(h, mfn);
    var h1 := h.(flags := h.flags[mfn := x.(offlined := false)], offlinedList := Remove(h.offlinedList, mfn));
    SameShape(nid, h, h1);
    FreeOKFrame(nid, h, h1);
    AvailFrame(nid, h, h1);
    assert Span(mfn, 0) == {mfn};
    assert Returnable(nid, h1, mfn, 0);
    assert TaintedIn(h1, mfn, 0) == {};
    FreeValid(nid, h1, mfn, 0);
  }

  // ---------------------------------------------------------------------
  // query_page_offline

  /** The PG_OFFLINE_STATUS_* bits. */
  datatype QueryStatus = QueryStatus(offlinePending: bool, broken: bool, offlined: bool)

  /**
   * query_page_offline: -EINVAL outside the frame table or conventional
   * RAM, otherwise 0 with the page's offline state.
   */
  function QueryPageOffline(h: Heap, m: Machine, mfn: nat): (r: (int, Option<QueryStatus>))
    ensures r.0 == 0 <==> r.1.Some?
    ensures r.0 == 0 <==> InFrameTable(m, mfn) && mfn in m.conventional
    ensures r.0 != 0 ==> r.0 == -EINVAL
  {
    if !InFrameTable(m, mfn) || mfn !in m.conventional then (-EINVAL, None)
    else
      var x := Flags(h, mfn);
      (0, Some(QueryStatus(x.offlining, x.broken, x.offlined)))
  }

  /** query_page_offline with the range check as written. */
  function QueryPageOfflineAsWritten(h: Heap, m: Machine, mfn: nat): (r: (int, Option<QueryStatus>))
    ensures r.0 == 0 <==> r.1.Some?
    ensures r.0 == 0 <==> GuardAsWritten(m, mfn) && mfn in m.conventional
  {
    if !GuardAsWritten(m, mfn) || mfn !in m.conventional then (-EINVAL, None)
    else
      var x := Flags(h, mfn);
      (0, Some(QueryStatus(x.offlining, x.broken, x.offlined)))
  }

  /**
   * query_page_offline as written answers for max_page when that frame
   * counts as conventional RAM, reading a page_info past the frame table;
   * the corrected check refuses.
   */
  lemma QueryAsWrittenPastTable(h: Heap, m: Machine)
    requires m.maxPage in m.conventional
    ensures !InFrameTable(m, m.maxPage)
    ensures QueryPageOfflineAsWritten(h, m, m.maxPage).0 == 0
    ensures QueryPageOffline(h, m, m.maxPage) == (-EINVAL, None)
  {
  }

  /**
   * After a successful offline_page a query reports the page offlined or
   * pending, broken when that was asked, and offlined exactly when the
   * offline status said so.
   */
  lemma QueryAfterOffline(nid: Topology, h: Heap, m: Machine, mfn: nat, broken: bool)
    requires ListsOK(nid, h) && OfflinePage(nid, h, m, mfn, broken).ret == 0
    ensures var r := OfflinePage(nid, h, m, mfn, broken);
      var q := QueryPageOffline(r.heap, m, mfn);
      q.0 == 0 && (q.1.value.offlined || q.1.value.offlinePending)
      && (broken ==> q.1.value.broken)
      && (q.1.value.offlined <==> Offlined in r.status.value.bits)
  {
  }

  /**
   * After onlining a page that is not broken and not left pending, a query
   * reports it neither offlined nor pending.
   */
  lemma QueryAfterOnline(nid: Topology, h: Heap, m: Machine, mfn: nat)
    requires InFrameTable(m, mfn) && mfn in m.conventional
    requires !Flags(h, mfn).broken && !(Flags(h, mfn).offlined && Flags(h, mfn).offlining)
    ensures var q := QueryPageOffline(OnlinePage(nid, h, m, mfn).heap, m, mfn);
      q.0 == 0 && !q.1.value.offlined && !q.1.value.offlinePending
  {
  }
}
