/**
 * alloc_heap_pages (page_alloc.c:336-429): the search for a block and the
 * splitting of the block found.
 *
 * The search starts at the requested node and tries each zone from zone_hi
 * down to zone_lo; a zone is tried only when its counter covers the request,
 * and then the smallest order at or above the requested one with a
 * non-empty list wins.  When the node has nothing, the next online node is
 * tried, wrapping around, for as many nodes as are online.  The block found
 * is halved until it has the requested order: each lower half goes to the
 * tail of its list, and the caller gets the highest-addressed chunk.
 */
module HeapAlloc {
  import opened Arith
  import opened Zones
  import opened Blocks
  import opened Heap
  import opened Options

  // ---------------------------------------------------------------------
  // The node ring

  predicate OnlineOK(online: set<nat>)
  {
    forall x | x in online :: x < MaxNumNodes
  }

  /** find_next_bit over the online map: the first online node at or above m, or MAX_NUMNODES. */
  function FirstFrom(online: set<nat>, m: nat): (r: nat)
    requires m <= MaxNumNodes
    decreases MaxNumNodes - m
    ensures m <= r <= MaxNumNodes
    ensures r < MaxNumNodes ==> r in online
    ensures forall x | m <= x < r :: x !in online
  {
    if m == MaxNumNodes then MaxNumNodes
    else if m in online then m
    else FirstFrom(online, m + 1)
  }

  /** next_node(n), replaced by first_node when it runs off the end. */
  function NextNode(online: set<nat>, n: nat): (m: nat)
    requires OnlineOK(online) && online != {}
    requires n < MaxNumNodes
    ensures m in online
    ensures n < m ==> forall x | n < x < m :: x !in online
    ensures m <= n ==> forall x | x in online :: m <= x <= n
  {
    var next := FirstFrom(online, n + 1);
    if next < MaxNumNodes then next
    else
      var x :| x in online;
      var first := FirstFrom(online, 0);
      assert first <= x;
      first
  }

  /** The i-th node the search visits, starting from n. */
  function Ring(online: set<nat>, n: nat, i: nat): (m: nat)
    requires OnlineOK(online) && (i > 0 ==> online != {})
    requires n < MaxNumNodes
    ensures m < MaxNumNodes
    ensures i > 0 ==> m in online
    decreases i
  {
    if i == 0 then n else Ring(online, NextNode(online, n), i - 1)
  }

  // ---------------------------------------------------------------------
  // The search

  /** The smallest order at or above j whose list for node n, zone z is not empty. */
  function FindOrder(h: Heap, n: nat, z: nat, j: nat): (r: Option<nat>)
    decreases MaxOrder + 1 - j
    ensures r.Some? ==> j <= r.value <= MaxOrder && |List(h, ListKey(n, z, r.value))| > 0
    ensures forall i | j <= i <= MaxOrder && (r.None? || i < r.value) :: |List(h, ListKey(n, z, i))| == 0
  {
    if j > MaxOrder then None
    else if |List(h, ListKey(n, z, j))| > 0 then Some(j)
    else FindOrder(h, n, z, j + 1)
  }

  /** Zone z of node n passes the counter test and has a block big enough. */
  predicate CanServe(h: Heap, n: nat, z: nat, order: nat)
  {
    Avail(h, n, z) >= Pow2(order) && FindOrder(h, n, z, order).Some?
  }

  /** The first zone from z down to zone_lo that can serve the request. */
  function FindZone(h: Heap, n: nat, zoneLo: nat, z: nat, order: nat): (r: Option<nat>)
    requires zoneLo <= z
    decreases z
    ensures r.Some? ==> zoneLo <= r.value <= z && CanServe(h, n, r.value, order)
    ensures r.Some? ==> forall z' | r.value < z' <= z :: !CanServe(h, n, z', order)
    ensures r.None? ==> forall z' | zoneLo <= z' <= z :: !CanServe(h, n, z', order)
  {
    if CanServe(h, n, z, order) then Some(z)
    else if z == zoneLo then None
    else FindZone(h, n, zoneLo, z - 1, order)
  }

  /** No zone from zone_hi down to zone_lo of the first k nodes along the ring from n can serve. */
  predicate NoneCanServe(h: Heap, online: set<nat>, n: nat, k: nat, zoneLo: nat, zoneHi: nat, order: nat)
    requires OnlineOK(online) && (k > 0 ==> online != {}) && n < MaxNumNodes
  {
    forall i, z | 0 <= i < k && zoneLo <= z <= zoneHi :: !CanServe(h, Ring(online, n, i), z, order)
  }

  /** The ring from n is node n followed by the ring from the node after n. */
  lemma NoneCanServeStep(h: Heap, online: set<nat>, n: nat, k: nat, zoneLo: nat, zoneHi: nat, order: nat)
    requires OnlineOK(online) && k > 0 && online != {} && n < MaxNumNodes
    ensures NoneCanServe(h, online, n, k, zoneLo, zoneHi, order) <==>
      (forall z | zoneLo <= z <= zoneHi :: !CanServe(h, n, z, order))
      && NoneCanServe(h, online, NextNode(online, n), k - 1, zoneLo, zoneHi, order)
  {
    var m := NextNode(online, n);
    forall i | 0 <= i < k - 1 ensures Ring(online, n, i + 1) == Ring(online, m, i) {
    }
    if NoneCanServe(h, online, n, k, zoneLo, zoneHi, order) {
      forall i, z | 0 <= i < k - 1 && zoneLo <= z <= zoneHi ensures !CanServe(h, Ring(online, m, i), z, order) {
        assert Ring(online, n, i + 1) == Ring(online, m, i);
      }
      forall z | zoneLo <= z <= zoneHi ensures !CanServe(h, n, z, order) {
        assert Ring(online, n, 0) == n;
      }
    }
    if (forall z | zoneLo <= z <= zoneHi :: !CanServe(h, n, z, order))
      && NoneCanServe(h, online, m, k - 1, zoneLo, zoneHi, order)
    {
      forall i, z | 0 <= i < k && zoneLo <= z <= zoneHi ensures !CanServe(h, Ring(online, n, i), z, order) {
        if i > 0 {
          assert Ring(online, n, i) == Ring(online, m, i - 1);
        }
      }
    }
  }

  /** The first of k nodes along the ring from n with a zone that can serve: (ring index, zone). */
  function FindNode(h: Heap, online: set<nat>, n: nat, k: nat, zoneLo: nat, zoneHi: nat, order: nat)
    : (r: Option<(nat, nat)>)
    requires OnlineOK(online) && (k > 0 ==> online != {})
    requires n < MaxNumNodes && zoneLo <= zoneHi
    decreases k
    ensures r.Some? ==> r.value.0 < k && zoneLo <= r.value.1 <= zoneHi
    ensures r.Some? ==> FindZone(h, Ring(online, n, r.value.0), zoneLo, zoneHi, order) == Some(r.value.1)
    ensures r.Some? ==> NoneCanServe(h, online, n, r.value.0, zoneLo, zoneHi, order)
    ensures r.None? <==> NoneCanServe(h, online, n, k, zoneLo, zoneHi, order)
  {
    if k == 0 then None
    else
      NoneCanServeStep(h, online, n, k, zoneLo, zoneHi, order);
      match FindZone(h, n, zoneLo, zoneHi, order)
      case Some(z) => Some((0, z))
      case None =>
        var r := FindNode(h, online, NextNode(online, n), k - 1, zoneLo, zoneHi, order);
        if r.Some? then
          NoneCanServeStep(h, online, n, r.value.0 + 1, zoneLo, zoneHi, order);
          Some((r.value.0 + 1, r.value.1))
        else None
  }

  // ---------------------------------------------------------------------
  // Splitting

  /**
   * Halve the block of order j at b down to the requested order: at each
   * step the lower half goes on the tail of its list and the search moves to
   * the upper half.
   */
  function Split(h: Heap, n: nat, z: nat, b: nat, j: nat, order: nat): (r: Heap)
    requires order <= j
    decreases j
    ensures r.free == h.free && r.avail == h.avail && r.flags == h.flags && r.owner == h.owner
    ensures r.needFlush == h.needFlush && r.offlinedList == h.offlinedList && r.brokenList == h.brokenList
    ensures forall i | order <= i < j :: List(r, ListKey(n, z, i)) == List(h, ListKey(n, z, i)) + [Top(b, j, i + 1)]
    ensures forall k: ListKey | !(k.node == n && k.zone == z && order <= k.order < j) :: List(r, k) == List(h, k)
  {
    if j == order then h
    else
      var h1 := AddTail(h, ListKey(n, z, j - 1), b);
      assert Pow2(j) == 2 * Pow2(j - 1);
      assert List(h1, ListKey(n, z, j - 1)) == List(h, ListKey(n, z, j - 1)) + [b];
      Split(h1, n, z, b + Pow2(j - 1), j - 1, order)
  }

  /** The outcome of alloc_heap_pages: the new state, the first frame or NULL, and whether a TLB flush is due. */
  datatype Allocation = Allocation(heap: Heap, page: Option<nat>, flush: bool)

  /** The list alloc_heap_pages takes its block from, if any. */
  function Found(h: Heap, online: set<nat>, node: nat, zoneLo: nat, zoneHi: nat, order: nat): (r: Option<ListKey>)
    requires OnlineOK(online) && node < MaxNumNodes && zoneLo <= zoneHi
    ensures r.Some? ==> order <= r.value.order <= MaxOrder && |List(h, r.value)| > 0
    ensures r.Some? ==> Avail(h, r.value.node, r.value.zone) >= Pow2(order)
    ensures r.None? <==> order > MaxOrder || FindNode(h, online, node, |online|, zoneLo, zoneHi, order).None?
  {
    if order > MaxOrder then None
    else match FindNode(h, online, node, |online|, zoneLo, zoneHi, order)
      case None => None
      case Some((i, z)) =>
        var n := Ring(online, node, i);
        Some(ListKey(n, z, FindOrder(h, n, z, order).value))
  }

  /**
   * alloc_heap_pages: the node, zone and order search, then the split.  The
   * chunk handed out is map_alloc'ed, its counter lowered, its owner
   * cleared; a flush is due when any of its pages needs one.
   */
  function AllocHeapPages(h: Heap, online: set<nat>, node: nat, zoneLo: nat, zoneHi: nat, order: nat)
    : (r: Allocation)
    requires OnlineOK(online) && node < MaxNumNodes
    requires zoneLo <= zoneHi < NrZones
    ensures r.page.None? <==> Found(h, online, node, zoneLo, zoneHi, order).None?
    ensures r.page.None? ==> r.heap == h && !r.flush
    ensures r.page.Some? ==> (r.flush <==> exists f :: f in Span(r.page.value, order) && f in h.needFlush)
  {
    match Found(h, online, node, zoneLo, zoneHi, order)
    case None => Allocation(h, None, false)
    case Some(k) =>
      var b := List(h, k)[0];
      var c := Top(b, k.order, order);
      var h0 := RemoveHead(h, k);
      assert Avail(h0, k.node, k.zone) == Avail(h, k.node, k.zone);
      var h1 := Split(h0, k.node, k.zone, b, k.order, order);
      assert Avail(h1, k.node, k.zone) == Avail(h0, k.node, k.zone);
      MeetNonEmpty(Span(c, order), h.needFlush);
      Allocation(TakeChunk(h1, k.node, k.zone, c, order), Some(c), Span(c, order) * h.needFlush != {})
  }

  lemma MeetNonEmpty(S: set<nat>, T: set<nat>)
    ensures S * T != {} <==> exists f :: f in S && f in T
  {
    if S * T != {} {
      var f :| f in S * T;
      assert f in S && f in T;
    }
    if exists f :: f in S && f in T {
      var f :| f in S && f in T;
      assert f in S * T;
    }
  }

  /** map_alloc of the chunk, avail[node][zone] -= 2^order, owners cleared. */
  function TakeChunk(h: Heap, n: nat, z: nat, c: nat, order: nat): (r: Heap)
    requires Avail(h, n, z) >= Pow2(order)
    ensures r.free == h.free - Span(c, order)
    ensures Avail(r, n, z) + Pow2(order) == Avail(h, n, z)
    ensures forall n': nat, z': nat | (n', z') != (n, z) :: Avail(r, n', z') == Avail(h, n', z')
  {
    h.(free := h.free - Span(c, order), avail := h.avail[(n, z) := Avail(h, n, z) - Pow2(order)],
       owner := h.owner - Span(c, order))
  }

  /** The head of the top chunk of order o of the block of order j >= o at b. */
  function Top(b: nat, j: nat, o: nat): (c: nat)
    requires o <= j
    ensures b <= c && c + Pow2(o) == b + Pow2(j)
    ensures Aligned(b, j) ==> Aligned(c, o)
  {
    Pow2Monotone(o, j);
    if Aligned(b, j) then
      AlignedWeaken(b, j, o);
      Pow2Aligned(j, o);
      Pow2Aligned(o, o);
      AlignedAdd(b, Pow2(j), o);
      AlignedSub(b + Pow2(j), Pow2(o), o);
      b + Pow2(j) - Pow2(o)
    else
      b + Pow2(j) - Pow2(o)
  }

  // ---------------------------------------------------------------------
  // What alloc_heap_pages promises

  /**
   * alloc_heap_pages fails exactly when the order is above MAX_ORDER or no
   * zone from zone_hi down to zone_lo of any node on the ring passes the
   * counter test and has a block of a sufficient order.
   */
  lemma AllocFails(h: Heap, online: set<nat>, node: nat, zoneLo: nat, zoneHi: nat, order: nat)
    requires OnlineOK(online) && node < MaxNumNodes
    requires zoneLo <= zoneHi < NrZones
    ensures AllocHeapPages(h, online, node, zoneLo, zoneHi, order).page.None? <==>
      order > MaxOrder || NoneCanServe(h, online, node, |online|, zoneLo, zoneHi, order)
    ensures AllocHeapPages(h, online, node, zoneLo, zoneHi, order).page.None? ==>
      AllocHeapPages(h, online, node, zoneLo, zoneHi, order).heap == h
  {
    var r := AllocHeapPages(h, online, node, zoneLo, zoneHi, order);
    var found := Found(h, online, node, zoneLo, zoneHi, order);
    assert r.page.None? <==> found.None?;
    if order <= MaxOrder {
      var fn := FindNode(h, online, node, |online|, zoneLo, zoneHi, order);
      assert found.None? <==> fn.None?;
    }
  }

  // ---------------------------------------------------------------------
  // What the ring visits

  /** How far the search walks from node n to reach node x, wrapping at MAX_NUMNODES. */
  function Dist(n: nat, x: nat): (d: nat)
    requires n < MaxNumNodes && x < MaxNumNodes
    ensures d < MaxNumNodes && (d == 0 <==> x == n)
  {
    if n <= x then x - n else x + MaxNumNodes - n
  }

  /** The online nodes after n, up to and including m, in ring order. */
  function Between(online: set<nat>, n: nat, m: nat): (B: set<nat>)
    requires OnlineOK(online) && n < MaxNumNodes && m < MaxNumNodes
    ensures B <= online - {n}
  {
    set x | x in online && 0 < Dist(n, x) <= Dist(n, m)
  }

  /** The node after n is the online node nearest to n along the ring. */
  lemma NextNearest(online: set<nat>, n: nat)
    requires OnlineOK(online) && n in online && online != {n}
    ensures NextNode(online, n) != n
    ensures forall x | x in online && x != n :: Dist(n, NextNode(online, n)) <= Dist(n, x)
  {
    var m := NextNode(online, n);
    var y :| y in online && y != n;
  }

  /** Stepping to the next node removes exactly that node from the online nodes still to pass. */
  lemma BetweenStep(online: set<nat>, n: nat, m: nat)
    requires OnlineOK(online) && n in online && m in online && m != n
    ensures NextNode(online, n) in Between(online, n, m)
    ensures Between(online, n, m) == Between(online, NextNode(online, n), m) + {NextNode(online, n)}
    ensures NextNode(online, n) !in Between(online, NextNode(online, n), m)
  {
    var n' := NextNode(online, n);
    NextNearest(online, n);
    var d := Dist(n, n');
    forall x | x in online && x != n ensures Dist(n', x) == Dist(n, x) - d {
    }
    assert Dist(n', n) == MaxNumNodes - d;
    assert Dist(n', m) == Dist(n, m) - d;
    forall x | x in online ensures x in Between(online, n, m) <==> x == n' || x in Between(online, n', m) {
      if x != n && x != n' {
        assert Dist(n, x) != d;
      }
    }
  }

  /** Node m is reached after as many steps as there are online nodes from n to m. */
  lemma {:induction false} Reach(online: set<nat>, n: nat, m: nat)
    requires OnlineOK(online) && n in online && m in online
    decreases |Between(online, n, m)|
    ensures Ring(online, n, |Between(online, n, m)|) == m
  {
    if m == n {
      assert Between(online, n, m) == {};
    } else {
      var n' := NextNode(online, n);
      BetweenStep(online, n, m);
      Reach(online, n', m);
    }
  }

  /** The nodes of the first k steps of the search from n. */
  function Visited(online: set<nat>, n: nat, k: nat): set<nat>
    requires OnlineOK(online) && (k > 1 ==> online != {}) && n < MaxNumNodes
  {
    set i: nat | i < k :: Ring(online, n, i)
  }

  /**
   * From an online node, the |online| steps of the search visit every
   * online node and nothing else.
   */
  lemma RingCoversOnline(online: set<nat>, node: nat)
    requires OnlineOK(online) && node in online
    ensures Visited(online, node, |online|) == online
  {
    var R := Visited(online, node, |online|);
    forall m | m in online ensures m in R {
      Reach(online, node, m);
      var B := Between(online, node, m);
      var rest := online - {node};
      assert rest == B + (rest - B);
      assert |B| < |online|;
    }
    forall m | m in R ensures m in online {
      var i :| 0 <= i < |online| && Ring(online, node, i) == m;
      if i == 0 {
        assert m == node;
      }
    }
    assert R == online;
  }

  /**
   * From an online node, alloc_heap_pages fails exactly when the order is
   * above MAX_ORDER or no zone from zone_hi down to zone_lo of any online
   * node passes the counter test and has a block of a sufficient order.
   */
  lemma AllocFailsOnline(h: Heap, online: set<nat>, node: nat, zoneLo: nat, zoneHi: nat, order: nat)
    requires OnlineOK(online) && node in online
    requires zoneLo <= zoneHi < NrZones
    ensures AllocHeapPages(h, online, node, zoneLo, zoneHi, order).page.None? <==>
      order > MaxOrder || forall m, z | m in online && zoneLo <= z <= zoneHi :: !CanServe(h, m, z, order)
  {
    AllocFails(h, online, node, zoneLo, zoneHi, order);
    RingCoversOnline(online, node);
    var R := Visited(online, node, |online|);
    if NoneCanServe(h, online, node, |online|, zoneLo, zoneHi, order) {
      forall m, z | m in online && zoneLo <= z <= zoneHi ensures !CanServe(h, m, z, order) {
        assert m in R;
        var i :| 0 <= i < |online| && Ring(online, node, i) == m;
      }
    }
    if forall m, z | m in online && zoneLo <= z <= zoneHi :: !CanServe(h, m, z, order) {
      forall i, z | 0 <= i < |online| && zoneLo <= z <= zoneHi ensures !CanServe(h, Ring(online, node, i), z, order) {
        assert Ring(online, node, i) in R;
      }
    }
  }

  /**
   * From a node that is not online, the search tries that node and then
   * only |online| - 1 online nodes: with nodes 0 and 1 online and a search
   * from node 5, node 1 is never tried.
   */
  lemma OfflineStartSkips()
    ensures OnlineOK({0, 1}) && |{0, 1}| == 2
    ensures Ring({0, 1}, 5, 0) == 5 && Ring({0, 1}, 5, 1) == 0
    ensures forall i | 0 <= i < |{0, 1}| :: Ring({0, 1}, 5, i) != 1
  {
    var online: set<nat> := {0, 1};
    assert FirstFrom(online, 0) == 0;
    assert FirstFrom(online, 6) == MaxNumNodes by {
      forall x | 6 <= x < MaxNumNodes ensures x !in online { }
    }
    assert NextNode(online, 5) == 0;
  }

  /**
   * When alloc_heap_pages finds a block at the head of list k, it takes that
   * block off, puts the lower half of every split on the tail of the list of
   * that half's order, and hands out the top chunk of the block.
   */
  lemma AllocSplits(h: Heap, online: set<nat>, node: nat, zoneLo: nat, zoneHi: nat, order: nat)
    requires OnlineOK(online) && node < MaxNumNodes
    requires zoneLo <= zoneHi < NrZones
    requires Found(h, online, node, zoneLo, zoneHi, order).Some?
    ensures var k := Found(h, online, node, zoneLo, zoneHi, order).value;
      var b := List(h, k)[0];
      var r := AllocHeapPages(h, online, node, zoneLo, zoneHi, order);
      r.page == Some(Top(b, k.order, order))
      && List(r.heap, k) == List(h, k)[1..]
      && (forall i | order <= i < k.order ::
            List(r.heap, ListKey(k.node, k.zone, i)) == List(h, ListKey(k.node, k.zone, i)) + [Top(b, k.order, i + 1)])
      && (forall k': ListKey | k'.node != k.node || k'.zone != k.zone || k'.order < order || k'.order > k.order ::
            List(r.heap, k') == List(h, k'))
  {
    var k := Found(h, online, node, zoneLo, zoneHi, order).value;
    assert List(RemoveHead(h, k), k) == List(h, k)[1..];
    forall k': ListKey | k' != k ensures List(RemoveHead(h, k), k') == List(h, k') {
    }
  }

  /** The chunk of order o at the top of an aligned block of order j lies inside the block. */
  lemma ChunkInside(b: nat, j: nat, o: nat, f: nat)
    requires o <= j
    requires InSpan(f, Top(b, j, o), o)
    ensures InSpan(f, b, j)
  {
  }

  /** One split step: listing the lower half of a floating block leaves its upper half floating. */
  lemma SplitStep(nid: Topology, h: Heap, n: nat, z: nat, b: nat, j: nat)
    requires Inv(nid, h, Span(b, j)) && Clean(h, {})
    requires b >= 1 && 1 <= j <= MaxOrder && Aligned(b, j)
    requires n == NodeOf(nid, b) && z == Zone(b)
    ensures Inv(nid, AddTail(h, ListKey(n, z, j - 1), b), Span(b + Pow2(j - 1), j - 1))
    ensures Clean(AddTail(h, ListKey(n, z, j - 1), b), {})
  {
    SplitStepShape(nid, h, n, z, b, j);
    ListsFrame(nid, h, AddTail(h, ListKey(n, z, j - 1), b), Span(b + Pow2(j - 1), j - 1));
  }

  /** The lists and blocks part of one split step. */
  lemma SplitStepShape(nid: Topology, h: Heap, n: nat, z: nat, b: nat, j: nat)
    requires ListsOK(nid, h) && BlocksOK(FreeBlocks(nid, h), h.free, Span(b, j))
    requires b >= 1 && 1 <= j <= MaxOrder && Aligned(b, j)
    requires n == NodeOf(nid, b) && z == Zone(b)
    ensures ListsOK(nid, AddTail(h, ListKey(n, z, j - 1), b))
    ensures BlocksOK(FreeBlocks(nid, AddTail(h, ListKey(n, z, j - 1), b)), h.free, Span(b + Pow2(j - 1), j - 1))
  {
    var k := ListKey(n, z, j - 1);
    var B := FreeBlocks(nid, h);
    SplitBlock(B, h.free, b, j);
    AddTailOK(nid, h, k, b);
  }

  /** The upper half of a floating block is aligned and in the block's node and zone. */
  lemma UpperHalfUniform(nid: Topology, h: Heap, b: nat, j: nat)
    requires FreeOK(nid, h) && Span(b, j) <= h.free
    requires b >= 1 && 1 <= j <= MaxOrder && Aligned(b, j)
    ensures Aligned(b + Pow2(j - 1), j - 1) && NodeOf(nid, b + Pow2(j - 1)) == NodeOf(nid, b) && Zone(b + Pow2(j - 1)) == Zone(b)
  {
    HalvesOfParent(b, j - 1);
    assert Pow2(j) == 2 * Pow2(j - 1);
    BlockUniform(nid, h, b, j, b + Pow2(j - 1));
  }

  /** Splitting a floating block down to the requested order keeps the invariant; the chunk floats. */
  lemma {:induction false} SplitInv(nid: Topology, h: Heap, n: nat, z: nat, b: nat, j: nat, order: nat)
    requires Inv(nid, h, Span(b, j)) && Clean(h, {})
    requires b >= 1 && order <= j <= MaxOrder && Aligned(b, j)
    requires n == NodeOf(nid, b) && z == Zone(b)
    ensures Inv(nid, Split(h, n, z, b, j, order), Span(Top(b, j, order), order))
    ensures Clean(Split(h, n, z, b, j, order), {})
    decreases j
  {
    if j > order {
      UpperHalfUniform(nid, h, b, j);
      SplitStep(nid, h, n, z, b, j);
      SplitInv(nid, AddTail(h, ListKey(n, z, j - 1), b), n, z, b + Pow2(j - 1), j - 1, order);
      assert Top(b + Pow2(j - 1), j - 1, order) == Top(b, j, order);
    } else {
      assert Split(h, n, z, b, j, order) == h;
      assert Top(b, j, order) == b;
    }
  }

  /** Handing out the floating chunk restores the invariant with nothing floating. */
  lemma TakeChunkValid(nid: Topology, h: Heap, n: nat, z: nat, c: nat, order: nat)
    requires Inv(nid, h, Span(c, order)) && Clean(h, {})
    requires forall f | InSpan(f, c, order) :: NodeOf(nid, f) == n && Zone(f) == z
    requires Avail(h, n, z) >= Pow2(order)
    ensures Valid(nid, TakeChunk(h, n, z, c, order))
    ensures |TakeChunk(h, n, z, c, order).free| + Pow2(order) == |h.free|
  {
    var h' := TakeChunk(h, n, z, c, order);
    var S := Span(c, order);
    SameShape(nid, h, h');
    Withdraw(FreeBlocks(nid, h), h.free, S, S);
    assert S - S == {};
    SpanCard(c, order);
    AvailWithdraw(nid, h, h', S, n, z);
    forall f ensures Flags(h', f) == Flags(h, f) {
    }
  }

  /** The successful path of alloc_heap_pages, unfolded. */
  lemma AllocUnfold(h: Heap, online: set<nat>, node: nat, zoneLo: nat, zoneHi: nat, order: nat)
    requires OnlineOK(online) && node < MaxNumNodes
    requires zoneLo <= zoneHi < NrZones
    requires Found(h, online, node, zoneLo, zoneHi, order).Some?
    ensures var k := Found(h, online, node, zoneLo, zoneHi, order).value;
      var b := List(h, k)[0];
      var c := Top(b, k.order, order);
      var h1 := Split(RemoveHead(h, k), k.node, k.zone, b, k.order, order);
      var r := AllocHeapPages(h, online, node, zoneLo, zoneHi, order);
      Avail(h1, k.node, k.zone) == Avail(h, k.node, k.zone)
      && r.page == Some(c) && r.heap == TakeChunk(h1, k.node, k.zone, c, order)
  {
  }

  /**
   * alloc_heap_pages keeps the heap valid.  On success the chunk is aligned
   * to its order, was free, and is exactly what leaves the free set; the
   * counter of its node and zone drops by 2^order and no other changes.
   */
  lemma AllocValid(nid: Topology, h: Heap, online: set<nat>, node: nat, zoneLo: nat, zoneHi: nat, order: nat)
    requires Valid(nid, h)
    requires OnlineOK(online) && node < MaxNumNodes
    requires zoneLo <= zoneHi < NrZones
    ensures var r := AllocHeapPages(h, online, node, zoneLo, zoneHi, order);
      Valid(nid, r.heap) &&
      (r.page.Some? ==>
        var c := r.page.value;
        c >= 1 && Aligned(c, order)
        && (forall f | InSpan(f, c, order) :: f in h.free)
        && r.heap.free == h.free - Span(c, order)
        && |r.heap.free| + Pow2(order) == |h.free|
        && Avail(r.heap, NodeOf(nid, c), Zone(c)) + Pow2(order) == Avail(h, NodeOf(nid, c), Zone(c))
        && forall n: nat, z: nat | (n, z) != (NodeOf(nid, c), Zone(c)) :: Avail(r.heap, n, z) == Avail(h, n, z))
  {
    var found := Found(h, online, node, zoneLo, zoneHi, order);
    if found.Some? {
      var k := found.value;
      AllocUnfold(h, online, node, zoneLo, zoneHi, order);
      AllocStep(nid, h, k, order);
    }
  }

  /** Taking the block at the head of list k, splitting it and handing out its top chunk. */
  lemma AllocStep(nid: Topology, h: Heap, k: ListKey, order: nat)
    requires Valid(nid, h) && |List(h, k)| > 0
    requires order <= k.order && Avail(h, k.node, k.zone) >= Pow2(order)
    ensures var b := List(h, k)[0];
      var c := Top(b, k.order, order);
      var h1 := Split(RemoveHead(h, k), k.node, k.zone, b, k.order, order);
      Avail(h1, k.node, k.zone) == Avail(h, k.node, k.zone)
      && var r := TakeChunk(h1, k.node, k.zone, c, order);
      Valid(nid, r)
      && c >= 1 && Aligned(c, order) && NodeOf(nid, c) == k.node && Zone(c) == k.zone
      && (forall f | InSpan(f, c, order) :: f in h.free)
      && r.free == h.free - Span(c, order)
      && |r.free| + Pow2(order) == |h.free|
      && Avail(r, k.node, k.zone) + Pow2(order) == Avail(h, k.node, k.zone)
      && forall n: nat, z: nat | (n, z) != (k.node, k.zone) :: Avail(r, n, z) == Avail(h, n, z)
  {
    var b := List(h, k)[0];
    var c := Top(b, k.order, order);
    var h1 := Split(RemoveHead(h, k), k.node, k.zone, b, k.order, order);
    SplitChunk(nid, h, k, order);
    TakeChunkValid(nid, h1, k.node, k.zone, c, order);
    assert InSpan(c, c, order);
  }

  /** After the split the top chunk floats; it is aligned, was free, and lies in the list's node and zone. */
  lemma SplitChunk(nid: Topology, h: Heap, k: ListKey, order: nat)
    requires Valid(nid, h) && |List(h, k)| > 0
    requires order <= k.order
    ensures var b := List(h, k)[0];
      var c := Top(b, k.order, order);
      var h1 := Split(RemoveHead(h, k), k.node, k.zone, b, k.order, order);
      Inv(nid, h1, Span(c, order)) && Clean(h1, {})
      && h1.free == h.free && Avail(h1, k.node, k.zone) == Avail(h, k.node, k.zone)
      && c >= 1 && Aligned(c, order)
      && forall f | InSpan(f, c, order) :: NodeOf(nid, f) == k.node && Zone(f) == k.zone && f in h.free
  {
    var b := List(h, k)[0];
    var j := k.order;
    var h0 := RemoveHead(h, k);
    TakeHeadInv(nid, h, k);
    SplitInv(nid, h0, k.node, k.zone, b, j, order);
    var c := Top(b, j, order);
    forall f | InSpan(f, c, order) ensures NodeOf(nid, f) == k.node && Zone(f) == k.zone && f in h.free {
      ChunkInside(b, j, order, f);
      BlockUniform(nid, h, b, j, f);
    }
    assert InSpan(c, c, order);
  }

  /** Taking the head block off its list leaves it floating; it is aligned and in the list's node and zone. */
  lemma TakeHeadInv(nid: Topology, h: Heap, k: ListKey)
    requires Valid(nid, h) && |List(h, k)| > 0
    ensures var b := List(h, k)[0];
      Inv(nid, RemoveHead(h, k), Span(b, k.order)) && Clean(RemoveHead(h, k), {})
      && b >= 1 && k.order <= MaxOrder && Aligned(b, k.order)
      && NodeOf(nid, b) == k.node && Zone(b) == k.zone
      && forall f | InSpan(f, b, k.order) :: f in h.free
  {
    var b := List(h, k)[0];
    var B := FreeBlocks(nid, h);
    assert b in List(h, k);
    assert b in B && B[b] == k.order && KeyOf(nid, h, b) == k;
    RemoveHeadOK(nid, h, k);
    RemoveBlock(B, h.free, {}, b);
    assert {} + Span(b, k.order) == Span(b, k.order);
    ListsFrame(nid, h, RemoveHead(h, k), Span(b, k.order));
  }
}
