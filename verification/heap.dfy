/**
 * The state of the buddy heap (page_alloc.c:273-280) and its invariant.
 *
 * Free blocks are kept on lists indexed by (node, zone, order); the head of
 * a block records its order in PFN_ORDER; avail[node][zone] counts the free
 * frames of each node and zone.  The allocation bitmap is the set of free
 * frames (bit clear).  The NUMA layout, phys_to_nid on frame numbers, is a
 * parameter of type Topology.
 *
 * Inv(nid, h, F) is the invariant, allowing a set F of "floating" frames that
 * are free but on no list, as happens in the middle of an operation; Valid
 * is Inv with no floating frames.
 */
module Heap {
  import opened Arith
  import opened Zones
  import opened Blocks

  /** MAX_NUMNODES */
  const MaxNumNodes: nat := 64

  /** phys_to_nid on frame numbers. */
  type Topology = nat -> nat

  /** The node of frame f. */
  function NodeOf(nid: Topology, f: nat): nat
  {
    nid(f)
  }

  datatype ListKey = ListKey(node: nat, zone: nat, order: nat)

  /** The page states of count_info that the allocator reads and writes. */
  datatype PageFlags = PageFlags(offlining: bool, offlined: bool, broken: bool)

  const Online: PageFlags := PageFlags(false, false, false)

  datatype Heap = Heap(
    free: set<nat>,                   // frames whose allocation bit is clear
    lists: map<ListKey, seq<nat>>,    // heap(node, zone, order): the heads on each free list
    pfnOrder: map<nat, nat>,          // PFN_ORDER of the frames it was written for
    avail: map<(nat, nat), nat>,      // avail[node][zone]
    flags: map<nat, PageFlags>,       // offlining / offlined / broken bits
    owner: map<nat, nat>,             // page_get_owner: the owning domain, if any
    needFlush: set<nat>,              // u.free.need_tlbflush
    offlinedList: seq<nat>,           // page_offlined_list
    brokenList: seq<nat>)             // page_broken_list

  function List(h: Heap, k: ListKey): seq<nat>
  {
    if k in h.lists then h.lists[k] else []
  }

  function Avail(h: Heap, n: nat, z: nat): nat
  {
    if (n, z) in h.avail then h.avail[(n, z)] else 0
  }

  function Flags(h: Heap, f: nat): PageFlags
  {
    if f in h.flags then h.flags[f] else Online
  }

  function PfnOrder(h: Heap, f: nat): nat
  {
    if f in h.pfnOrder then h.pfnOrder[f] else 0
  }

  /** The list a block headed by b belongs on. */
  function KeyOf(nid: Topology, h: Heap, b: nat): ListKey
  {
    ListKey(NodeOf(nid, b), Zone(b), PfnOrder(h, b))
  }

  /** The listed blocks, head to order. */
  function FreeBlocks(nid: Topology, h: Heap): BlockMap
  {
    map b | b in h.pfnOrder && b in List(h, KeyOf(nid, h, b)) :: h.pfnOrder[b]
  }

  /**
   * Frames that init_heap_pages withholds from the heap: the first frame of
   * a node that does not start on a MAX_ORDER boundary.
   */
  predicate Boundary(nid: Topology, f: nat)
  {
    f >= 1 && NodeOf(nid, f) != NodeOf(nid, f - 1) && !Aligned(f, MaxOrder)
  }

  /** The free frames of node n in zone z. */
  function FreeIn(nid: Topology, free: set<nat>, n: nat, z: nat): set<nat>
  {
    set f | f in free && NodeOf(nid, f) == n && Zone(f) == z
  }

  predicate NoDup(s: seq<nat>)
  {
    forall i, j | 0 <= i < j < |s| :: s[i] != s[j]
  }

  /** Free frames are never frame 0 and never withheld node boundaries. */
  ghost predicate FreeOK(nid: Topology, h: Heap)
  {
    forall f | f in h.free :: f >= 1 && !Boundary(nid, f)
  }

  /** Every list entry has its order recorded and sits on its own list, once. */
  ghost predicate ListsOK(nid: Topology, h: Heap)
  {
    (forall k, b | b in List(h, k) :: b in h.pfnOrder && KeyOf(nid, h, b) == k)
    && (forall k :: NoDup(List(h, k)))
  }

  /** avail[node][zone] is the number of free frames of that node and zone. */
  ghost predicate AvailOK(nid: Topology, h: Heap)
  {
    forall n, z :: Avail(h, n, z) == |FreeIn(nid, h.free, n, z)|
  }

  /** Free frames on the lists are neither offlined nor being offlined. */
  ghost predicate Clean(h: Heap, F: set<nat>)
  {
    forall f | f in h.free && f !in F :: !Flags(h, f).offlined && !Flags(h, f).offlining
  }

  ghost predicate Inv(nid: Topology, h: Heap, F: set<nat>)
  {
    FreeOK(nid, h) && ListsOK(nid, h) && BlocksOK(FreeBlocks(nid, h), h.free, F)
    && AvailOK(nid, h) && Clean(h, F)
  }

  /** The invariant without its cleanliness part. */
  ghost predicate Shape(nid: Topology, h: Heap, F: set<nat>)
  {
    FreeOK(nid, h) && ListsOK(nid, h) && BlocksOK(FreeBlocks(nid, h), h.free, F) && AvailOK(nid, h)
  }

  ghost predicate Valid(nid: Topology, h: Heap)
  {
    Inv(nid, h, {})
  }

  // ---------------------------------------------------------------------
  // List operations

  /** page_list_remove_head */
  function RemoveHead(h: Heap, k: ListKey): Heap
    requires |List(h, k)| > 0
  {
    h.(lists := h.lists[k := List(h, k)[1..]])
  }

  /** PFN_ORDER(b) = k.order; page_list_add_tail(b, &heap(k.node, k.zone, k.order)) */
  function AddTail(h: Heap, k: ListKey, b: nat): Heap
  {
    h.(pfnOrder := h.pfnOrder[b := k.order], lists := h.lists[k := List(h, k) + [b]])
  }

  /** page_list_del */
  function Delete(h: Heap, k: ListKey, b: nat): Heap
  {
    h.(lists := h.lists[k := Remove(List(h, k), b)])
  }

  function Remove(s: seq<nat>, x: nat): (r: seq<nat>)
    ensures forall y :: y in r <==> y in s && y != x
  {
    if |s| == 0 then []
    else if s[0] == x then Remove(s[1..], x)
    else [s[0]] + Remove(s[1..], x)
  }

  lemma {:induction false} RemoveNoDup(s: seq<nat>, x: nat)
    requires NoDup(s)
    ensures NoDup(Remove(s, x))
  {
    if |s| > 0 {
      assert NoDup(s[1..]) by {
        forall i, j | 0 <= i < j < |s[1..]| ensures s[1..][i] != s[1..][j] {
          assert s[1..][i] == s[i + 1] && s[1..][j] == s[j + 1];
        }
      }
      RemoveNoDup(s[1..], x);
      if s[0] != x {
        var r := [s[0]] + Remove(s[1..], x);
        forall i, j | 0 <= i < j < |r| ensures r[i] != r[j] {
          if i == 0 {
            assert r[j] in Remove(s[1..], x);
            assert s[0] !in s[1..] by {
              forall m | 0 <= m < |s[1..]| ensures s[1..][m] != s[0] {
                assert s[1..][m] == s[m + 1];
              }
            }
          } else {
            assert r[i] == Remove(s[1..], x)[i - 1];
            assert r[j] == Remove(s[1..], x)[j - 1];
          }
        }
      }
    }
  }

  lemma TailMembers(s: seq<nat>, x: nat)
    requires NoDup(s) && |s| > 0
    ensures x in s[1..] <==> x in s && x != s[0]
  {
    if x in s[1..] {
      var m :| 0 <= m < |s[1..]| && s[1..][m] == x;
      assert s[m + 1] == x;
    }
    if x in s && x != s[0] {
      var m :| 0 <= m < |s| && s[m] == x;
      assert s[1..][m - 1] == x;
    }
  }

  lemma MapExt(A: BlockMap, B: BlockMap)
    requires forall x :: x in A <==> x in B
    requires forall x | x in A :: A[x] == B[x]
    ensures A == B
  {
  }

  /**
   * When the recorded orders agree and the lists agree on every list but k,
   * the listed blocks agree on every frame whose list is not k.
   */
  lemma SameOutside(nid: Topology, h: Heap, h': Heap, k: ListKey, x: nat)
    requires h'.pfnOrder == h.pfnOrder
    requires forall k' | k' != k :: List(h', k') == List(h, k')
    requires KeyOf(nid, h, x) != k
    ensures x in FreeBlocks(nid, h') <==> x in FreeBlocks(nid, h)
  {
    assert KeyOf(nid, h', x) == KeyOf(nid, h, x);
  }

  /** Replacing list k by a duplicate-free selection of its entries keeps the lists well formed. */
  lemma ReplaceListOK(nid: Topology, h: Heap, k: ListKey, t: seq<nat>)
    requires ListsOK(nid, h)
    requires forall x | x in t :: x in List(h, k)
    requires NoDup(t)
    ensures ListsOK(nid, h.(lists := h.lists[k := t]))
  {
    var h' := h.(lists := h.lists[k := t]);
    assert List(h', k) == t;
    forall k' | k' != k ensures List(h', k') == List(h, k') {
    }
  }

  /** Which blocks are listed after list k is replaced by t. */
  lemma ReplaceListBlocks(nid: Topology, h: Heap, k: ListKey, t: seq<nat>, x: nat)
    ensures x in FreeBlocks(nid, h.(lists := h.lists[k := t])) <==>
      if KeyOf(nid, h, x) == k then x in h.pfnOrder && x in t else x in FreeBlocks(nid, h)
  {
    var h' := h.(lists := h.lists[k := t]);
    assert List(h', k) == t;
    assert KeyOf(nid, h', x) == KeyOf(nid, h, x);
    if KeyOf(nid, h, x) != k {
      assert List(h', KeyOf(nid, h, x)) == List(h, KeyOf(nid, h, x));
    }
  }

  lemma TailNoDup(s: seq<nat>)
    requires NoDup(s) && |s| > 0
    ensures NoDup(s[1..])
  {
    forall i, j | 0 <= i < j < |s[1..]| ensures s[1..][i] != s[1..][j] {
      assert s[1..][i] == s[i + 1] && s[1..][j] == s[j + 1];
    }
  }

  /** Removing the head of list k unlists exactly that block. */
  lemma RemoveHeadOK(nid: Topology, h: Heap, k: ListKey)
    requires ListsOK(nid, h) && |List(h, k)| > 0
    ensures ListsOK(nid, RemoveHead(h, k))
    ensures FreeBlocks(nid, RemoveHead(h, k)) == FreeBlocks(nid, h) - {List(h, k)[0]}
  {
    var s := List(h, k);
    var t := s[1..];
    TailNoDup(s);
    forall x | x in t ensures x in s && x != s[0] {
      TailMembers(s, x);
    }
    ReplaceListOK(nid, h, k, t);
    var B, B' := FreeBlocks(nid, h), FreeBlocks(nid, RemoveHead(h, k));
    forall x ensures x in B' <==> x in B && x != s[0] {
      ReplaceListBlocks(nid, h, k, t, x);
      TailMembers(s, x);
    }
    MapExt(B', B - {s[0]});
  }

  /** Writing the order of a frame on no list changes no list entry's key. */
  lemma SetOrderOK(nid: Topology, h: Heap, b: nat, o: nat)
    requires ListsOK(nid, h) && b !in FreeBlocks(nid, h)
    ensures ListsOK(nid, h.(pfnOrder := h.pfnOrder[b := o]))
    ensures FreeBlocks(nid, h.(pfnOrder := h.pfnOrder[b := o])) == FreeBlocks(nid, h)
    ensures forall k :: b !in List(h, k)
  {
    var h' := h.(pfnOrder := h.pfnOrder[b := o]);
    Unlisted(nid, h, b);
    SetOrderKeys(nid, h, b, o);
    var B, B' := FreeBlocks(nid, h), FreeBlocks(nid, h');
    forall x ensures x in B' <==> x in B {
      assert List(h', KeyOf(nid, h', x)) == List(h, KeyOf(nid, h', x));
    }
    MapExt(B', B);
  }

  /** A frame that is not a listed block is on no list. */
  lemma Unlisted(nid: Topology, h: Heap, b: nat)
    requires ListsOK(nid, h) && b !in FreeBlocks(nid, h)
    ensures forall k :: b !in List(h, k)
  {
  }

  /** The keys and lists of the frames other than b stay as they were. */
  lemma SetOrderKeys(nid: Topology, h: Heap, b: nat, o: nat)
    requires ListsOK(nid, h) && forall k :: b !in List(h, k)
    ensures var h' := h.(pfnOrder := h.pfnOrder[b := o]);
      forall x | x != b :: KeyOf(nid, h', x) == KeyOf(nid, h, x)
    ensures ListsOK(nid, h.(pfnOrder := h.pfnOrder[b := o]))
  {
    var h' := h.(pfnOrder := h.pfnOrder[b := o]);
    forall x | x != b ensures KeyOf(nid, h', x) == KeyOf(nid, h, x) {
    }
    forall k ensures List(h', k) == List(h, k) {
    }
  }

  /** Listing a block that was not listed adds exactly that block. */
  lemma AddTailOK(nid: Topology, h: Heap, k: ListKey, b: nat)
    requires ListsOK(nid, h) && b !in FreeBlocks(nid, h)
    requires k.node == NodeOf(nid, b) && k.zone == Zone(b)
    ensures ListsOK(nid, AddTail(h, k, b))
    ensures FreeBlocks(nid, AddTail(h, k, b)) == FreeBlocks(nid, h)[b := k.order]
  {
    var o := k.order;
    var h1 := h.(pfnOrder := h.pfnOrder[b := o]);
    SetOrderOK(nid, h, b, o);
    var s := List(h1, k);
    var t := s + [b];
    assert NoDup(t) by {
      assert NoDup(s);
      forall i, j | 0 <= i < j < |t| ensures t[i] != t[j] {
        if j == |s| {
          assert t[i] in List(h, k);
        } else {
          assert t[i] == s[i] && t[j] == s[j];
        }
      }
    }
    var h' := h1.(lists := h1.lists[k := t]);
    assert h' == AddTail(h, k, b);
    forall k', x | x in List(h', k') ensures x in h'.pfnOrder && KeyOf(nid, h', x) == k' {
      if k' != k {
        assert List(h', k') == List(h1, k');
      } else if x != b {
        assert x in s;
      }
    }
    forall k' ensures NoDup(List(h', k')) {
      if k' != k {
        assert List(h', k') == List(h1, k');
      }
    }
    var B, B' := FreeBlocks(nid, h1), FreeBlocks(nid, h');
    forall x ensures x in B' <==> x in B || x == b {
      ReplaceListBlocks(nid, h1, k, t, x);
    }
    MapExt(B', B[b := o]);
  }

  /** Deleting a listed block from its list unlists exactly that block. */
  lemma DeleteOK(nid: Topology, h: Heap, b: nat)
    requires ListsOK(nid, h) && b in FreeBlocks(nid, h)
    ensures ListsOK(nid, Delete(h, KeyOf(nid, h, b), b))
    ensures FreeBlocks(nid, Delete(h, KeyOf(nid, h, b), b)) == FreeBlocks(nid, h) - {b}
  {
    var k := KeyOf(nid, h, b);
    var s := List(h, k);
    var t := Remove(s, b);
    RemoveNoDup(s, b);
    ReplaceListOK(nid, h, k, t);
    var B, B' := FreeBlocks(nid, h), FreeBlocks(nid, Delete(h, k, b));
    forall x ensures x in B' <==> x in B && x != b {
      ReplaceListBlocks(nid, h, k, t, x);
    }
    MapExt(B', B - {b});
  }

  // ---------------------------------------------------------------------
  // Counting free frames

  /** Taking frames of node n, zone z out of the free set lowers only that pair's count. */
  lemma WithdrawCount(nid: Topology, free: set<nat>, S: set<nat>, n: nat, z: nat, n': nat, z': nat)
    requires S <= free
    requires forall f | f in S :: NodeOf(nid, f) == n && Zone(f) == z
    ensures (n', z') == (n, z) ==> |FreeIn(nid, free - S, n', z')| + |S| == |FreeIn(nid, free, n', z')|
    ensures (n', z') != (n, z) ==> FreeIn(nid, free - S, n', z') == FreeIn(nid, free, n', z')
  {
    if (n', z') == (n, z) {
      assert FreeIn(nid, free - S, n, z) == FreeIn(nid, free, n, z) - S;
      assert S <= FreeIn(nid, free, n, z);
    }
  }

  /** Adding frames of node n, zone z to the free set raises only that pair's count. */
  lemma DepositCount(nid: Topology, free: set<nat>, S: set<nat>, n: nat, z: nat, n': nat, z': nat)
    requires S !! free
    requires forall f | f in S :: NodeOf(nid, f) == n && Zone(f) == z
    ensures (n', z') == (n, z) ==> |FreeIn(nid, free + S, n', z')| == |FreeIn(nid, free, n', z')| + |S|
    ensures (n', z') != (n, z) ==> FreeIn(nid, free + S, n', z') == FreeIn(nid, free, n', z')
  {
    if (n', z') == (n, z) {
      assert FreeIn(nid, free + S, n, z) == FreeIn(nid, free, n, z) + S;
      assert FreeIn(nid, free, n, z) !! S;
    }
  }

  /** map_alloc of S and avail[n][z] -= |S| keep the counters exact. */
  lemma AvailWithdraw(nid: Topology, h: Heap, h': Heap, S: set<nat>, n: nat, z: nat)
    requires AvailOK(nid, h)
    requires S <= h.free
    requires forall f | f in S :: NodeOf(nid, f) == n && Zone(f) == z
    requires h'.free == h.free - S
    requires forall n': nat, z': nat | (n', z') != (n, z) :: Avail(h', n', z') == Avail(h, n', z')
    requires Avail(h', n, z) + |S| == Avail(h, n, z)
    ensures AvailOK(nid, h')
  {
    forall n', z' ensures Avail(h', n', z') == |FreeIn(nid, h'.free, n', z')| {
      WithdrawCount(nid, h.free, S, n, z, n', z');
    }
  }

  /** S is free frames of node n, zone z, so avail[n][z] holds at least |S|. */
  lemma AvailCovers(nid: Topology, h: Heap, S: set<nat>, n: nat, z: nat)
    requires AvailOK(nid, h)
    requires S <= h.free
    requires forall f | f in S :: NodeOf(nid, f) == n && Zone(f) == z
    ensures |S| <= Avail(h, n, z)
  {
    WithdrawCount(nid, h.free, S, n, z, n, z);
  }

  /** map_free of S and avail[n][z] += |S| keep the counters exact. */
  lemma AvailDeposit(nid: Topology, h: Heap, h': Heap, S: set<nat>, n: nat, z: nat)
    requires AvailOK(nid, h)
    requires S !! h.free
    requires forall f | f in S :: NodeOf(nid, f) == n && Zone(f) == z
    requires h'.free == h.free + S
    requires forall n': nat, z': nat | (n', z') != (n, z) :: Avail(h', n', z') == Avail(h, n', z')
    requires Avail(h', n, z) == Avail(h, n, z) + |S|
    ensures AvailOK(nid, h')
  {
    forall n', z' ensures Avail(h', n', z') == |FreeIn(nid, h'.free, n', z')| {
      DepositCount(nid, h.free, S, n, z, n', z');
    }
  }

  // ---------------------------------------------------------------------
  // Blocks lie in one node and one zone

  /**
   * The frames of an aligned block of order at most MAX_ORDER none of which
   * is a withheld node boundary all belong to the node of the block's head.
   */
  lemma {:induction false} NodeUniform(nid: Topology, b: nat, o: nat, f: nat)
    requires o <= MaxOrder && Aligned(b, o)
    requires forall g | InSpan(g, b, o) :: !Boundary(nid, g)
    requires InSpan(f, b, o)
    ensures NodeOf(nid, f) == NodeOf(nid, b)
    decreases f - b
  {
    if f > b {
      assert !Aligned(f, MaxOrder) by {
        if Aligned(f, MaxOrder) {
          AlignedWeaken(f, MaxOrder, o);
          AlignedUnique(b, f, o);
        }
      }
      assert !Boundary(nid, f);
      NodeUniform(nid, b, o, f - 1);
    }
  }

  /** A block of free frames lies in one node and one zone. */
  lemma BlockUniform(nid: Topology, h: Heap, b: nat, o: nat, f: nat)
    requires FreeOK(nid, h)
    requires o <= MaxOrder && Aligned(b, o)
    requires forall g | InSpan(g, b, o) :: g in h.free
    requires InSpan(f, b, o)
    ensures NodeOf(nid, f) == NodeOf(nid, b) && Zone(f) == Zone(b)
  {
    assert b in h.free;
    NodeUniform(nid, b, o, f);
    ZoneOfBlock(b, o, f);
  }

  /** The same, for every frame of the block. */
  lemma SpanUniform(nid: Topology, h: Heap, b: nat, o: nat)
    requires FreeOK(nid, h)
    requires o <= MaxOrder && Aligned(b, o)
    requires forall g | InSpan(g, b, o) :: g in h.free
    ensures forall f | b <= f < b + Pow2(o) :: NodeOf(nid, f) == NodeOf(nid, b) && Zone(f) == Zone(b)
  {
    forall f | b <= f < b + Pow2(o) ensures NodeOf(nid, f) == NodeOf(nid, b) && Zone(f) == Zone(b) {
      BlockUniform(nid, h, b, o, f);
    }
  }

  // ---------------------------------------------------------------------
  // Framing: what each part of the invariant depends on

  /** A step that changes only the lists and recorded orders keeps the other parts of the invariant. */
  lemma ListsFrame(nid: Topology, h: Heap, h': Heap, F': set<nat>)
    requires FreeOK(nid, h) && AvailOK(nid, h) && Clean(h, {})
    requires h'.free == h.free && h'.avail == h.avail && h'.flags == h.flags
    requires ListsOK(nid, h') && BlocksOK(FreeBlocks(nid, h'), h'.free, F')
    ensures Inv(nid, h', F') && Clean(h', {})
  {
    forall n, z ensures Avail(h', n, z) == Avail(h, n, z) {
    }
    forall f ensures Flags(h', f) == Flags(h, f) {
    }
  }

  /** The same, for any floating set F and any set C of frames exempt from cleanliness. */
  lemma ListsFrameAt(nid: Topology, h: Heap, h': Heap, F: set<nat>, C: set<nat>)
    requires FreeOK(nid, h) && AvailOK(nid, h) && Clean(h, C)
    requires h'.free == h.free && h'.avail == h.avail && h'.flags == h.flags
    requires ListsOK(nid, h') && BlocksOK(FreeBlocks(nid, h'), h'.free, F)
    ensures Shape(nid, h', F) && Clean(h', C)
  {
    forall n, z ensures Avail(h', n, z) == Avail(h, n, z) {
    }
    forall f ensures Flags(h', f) == Flags(h, f) {
    }
  }

  /** The first part of the invariant depends only on the free set. */
  lemma FreeOKFrame(nid: Topology, h: Heap, h': Heap)
    requires FreeOK(nid, h) && h'.free == h.free
    ensures FreeOK(nid, h')
  {
  }

  /** The counters are exact as long as the free set and the counters are the same. */
  lemma AvailFrame(nid: Topology, h: Heap, h': Heap)
    requires AvailOK(nid, h) && h'.free == h.free && h'.avail == h.avail
    ensures AvailOK(nid, h')
  {
    forall n, z ensures Avail(h', n, z) == Avail(h, n, z) {
    }
  }

  /** Removing frames from the free set keeps the first part of the invariant. */
  lemma FreeOKSub(nid: Topology, h: Heap, h': Heap)
    requires FreeOK(nid, h) && h'.free <= h.free
    ensures FreeOK(nid, h')
  {
  }

  /** Cleanliness depends only on the free set and the page states. */
  lemma CleanFrame(h: Heap, h': Heap, C: set<nat>)
    requires Clean(h, C)
    requires h'.free == h.free && h'.flags == h.flags
    ensures Clean(h', C)
  {
    forall f ensures Flags(h', f) == Flags(h, f) {
    }
  }

  /** The listed blocks depend only on the lists and the recorded orders. */
  lemma SameShape(nid: Topology, h: Heap, h': Heap)
    requires h'.lists == h.lists && h'.pfnOrder == h.pfnOrder
    ensures FreeBlocks(nid, h') == FreeBlocks(nid, h)
    ensures ListsOK(nid, h) ==> ListsOK(nid, h')
  {
    forall k ensures List(h', k) == List(h, k) {
    }
    forall b ensures KeyOf(nid, h', b) == KeyOf(nid, h, b) {
    }
    MapExt(FreeBlocks(nid, h'), FreeBlocks(nid, h));
  }
}
