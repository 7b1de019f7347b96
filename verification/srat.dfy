/**
 * NUMA node discovery from the ACPI System Resource Affinity Table and the
 * System Locality Information Table (sections 5.2.15 and 5.2.16 of ACPI 3.0),
 * as done by srat.c.
 *
 * The state is the proximity-domain-to-node map pxm2node (256 bytes, 0xff
 * for "no node yet"), the node masks nodes_found and nodes_parsed, the
 * address range of every node, acpi_numa and apicid_to_node.  Every
 * operation is a function returning the new state.  Addresses are 64-bit
 * unsigned; where the source adds or subtracts them the wrap-around is
 * written out.
 */
module Srat {
  import opened Options
  import Arith
  import Heap

  /** 2^64, the modulus of u64 arithmetic. */
  const U64Mod: int := 0x1_0000_0000_0000_0000

  type U64 = x: int | 0 <= x < 0x1_0000_0000_0000_0000
  type U8 = x: int | 0 <= x < 256

  /**
   * The u64 value of a sum or difference of two u64 values: x reduced
   * modulo 2^64, which takes at most one correction.
   */
  function Wrap(x: int): (r: U64)
    requires -U64Mod <= x < 2 * U64Mod
    ensures r == x || r == x + U64Mod || r == x - U64Mod
  {
    if x < 0 then x + U64Mod else if x >= U64Mod then x - U64Mod else x
  }

  /** The number of proximity domains pxm2node can hold. */
  const PxmCount: nat := 256

  /** The pxm2node value of a proximity domain with no node. */
  const NoNode: nat := 0xFF

  /** NODE_MIN_SIZE: nodes smaller than this are dropped. */
  const NodeMinSize: nat := 4 * 1024 * 1024

  /** The distance of a node to itself, and the default distance to others. */
  const LocalDistance: nat := 10
  const RemoteDistance: nat := 20

  /** A node's address range [start, end). */
  datatype Range = Range(start: U64, end: U64)

  predicate Empty(nd: Range)
  {
    nd.start == nd.end
  }

  /** Whether address x lies in nd. */
  predicate Holds(nd: Range, x: int)
  {
    nd.start <= x < nd.end
  }

  datatype Srat = Srat(
    pxm2node: seq<U8>,
    nodesFound: set<nat>,
    nodesParsed: set<nat>,
    nodes: seq<Range>,
    /** acpi_numa: negative once the table was rejected (bad_srat). */
    acpiNuma: int,
    /** apicid_to_node; an absent APIC id maps to NUMA_NO_NODE. */
    apicToNode: map<nat, nat>)

  /** The array sizes of the source. */
  predicate Shaped(s: Srat)
  {
    |s.pxm2node| == PxmCount && |s.nodes| == Heap.MaxNumNodes
  }

  /** The nodes assigned to some proximity domain. */
  function Assigned(t: seq<U8>): set<nat>
  {
    set p | 0 <= p < |t| && t[p] != NoNode :: t[p] as nat
  }

  /**
   * The invariant setup_node keeps: every pxm2node entry is 0xff or a node
   * number, nodes_found is the set of assigned nodes, and no two proximity
   * domains share a node.
   */
  predicate Inv(s: Srat)
  {
    && Shaped(s)
    && (forall p | 0 <= p < PxmCount :: s.pxm2node[p] == NoNode || s.pxm2node[p] < Heap.MaxNumNodes)
    && s.nodesFound == Assigned(s.pxm2node)
    && (forall p, q | 0 <= p < q < PxmCount && s.pxm2node[p] != NoNode :: s.pxm2node[p] != s.pxm2node[q])
  }

  /** The state before any table entry is seen. */
  function Initial(): (s: Srat)
    ensures Inv(s) && s.nodesFound == {} && s.nodesParsed == {}
  {
    var s := Srat(seq(PxmCount, _ => NoNode as U8), {}, {}, seq(Heap.MaxNumNodes, _ => Range(0, 0)), 0, map[]);
    assert Assigned(s.pxm2node) == {};
    s
  }

  /** bad_srat: the table is not used. */
  function BadSrat(s: Srat): (r: Srat)
    ensures r.acpiNuma < 0 && r.apicToNode == map[]
    ensures r.pxm2node == s.pxm2node && r.nodesFound == s.nodesFound
    ensures r.nodesParsed == s.nodesParsed && r.nodes == s.nodes
  {
    s.(acpiNuma := -1, apicToNode := map[])
  }

  /** srat_disabled. */
  predicate Disabled(s: Srat, numaOff: bool)
  {
    numaOff || s.acpiNuma < 0
  }

  /* ---------------- pxm_to_node ---------------- */

  /**
   * pxm_to_node: the node of a proximity domain, -1 when there is none.  The
   * byte is read as a signed char, so 0xff becomes -1.
   */
  function PxmToNode(t: seq<U8>, pxm: int): (r: int)
    requires |t| == PxmCount
    ensures !(0 <= pxm < PxmCount) ==> r == -1
    ensures 0 <= pxm < PxmCount && t[pxm] == NoNode ==> r == -1
    ensures 0 <= pxm < PxmCount && t[pxm] < 128 ==> r == t[pxm]
    ensures -128 <= r < 128
  {
    if pxm < 0 || pxm >= PxmCount then -1
    else if t[pxm] >= 128 then t[pxm] as int - 256
    else t[pxm]
  }

  /** Under Inv, pxm_to_node fails exactly for unassigned proximity domains. */
  lemma PxmToNodeAssigned(s: Srat, pxm: int)
    requires Inv(s)
    ensures PxmToNode(s.pxm2node, pxm) == -1 <==> !(0 <= pxm < PxmCount) || s.pxm2node[pxm] == NoNode
    ensures 0 <= pxm < PxmCount && s.pxm2node[pxm] != NoNode ==>
              PxmToNode(s.pxm2node, pxm) == s.pxm2node[pxm] && PxmToNode(s.pxm2node, pxm) in s.nodesFound
  {
  }

  /* ---------------- setup_node ---------------- */

  /** The numbers below n, as a set. */
  function Below(n: nat): (r: set<nat>)
    ensures forall m: nat :: m in r <==> m < n
    ensures |r| == n
  {
    if n == 0 then {} else
      var r := Below(n - 1) + {n - 1};
      assert |r| == |Below(n - 1)| + 1;
      r
  }

  /** A set holding every number below n has at least n members. */
  lemma {:induction false} CardAtLeast(found: set<nat>, n: nat)
    requires forall m | 0 <= m < n :: m in found
    ensures |found| >= n
  {
    if n > 0 {
      var rest := found - {n - 1};
      CardAtLeast(rest, n - 1);
      assert found == rest + {n - 1};
    }
  }

  /** A set of node numbers has at most MAX_NUMNODES members. */
  lemma NodeSetBound(found: set<nat>)
    requires forall m | m in found :: m < Heap.MaxNumNodes
    ensures |found| <= Heap.MaxNumNodes
  {
    var b := Below(Heap.MaxNumNodes);
    assert found <= b;
    SubsetCard(found, b);
  }

  lemma {:induction false} SubsetCard(a: set<nat>, b: set<nat>)
    requires a <= b
    ensures |a| <= |b|
    decreases |b|
  {
    if a != {} {
      var x :| x in a;
      SubsetCard(a - {x}, b - {x});
    }
  }

  /**
   * first_unset_node, searching from n: the lowest node at or above n that is
   * not in found, or MAX_NUMNODES when there is none.
   */
  function FirstUnsetFrom(found: set<nat>, n: nat): (r: nat)
    requires n <= Heap.MaxNumNodes
    ensures n <= r <= Heap.MaxNumNodes
    ensures r < Heap.MaxNumNodes ==> r !in found
    ensures forall m | n <= m < r :: m in found
    decreases Heap.MaxNumNodes - n
  {
    if n == Heap.MaxNumNodes || n !in found then n else FirstUnsetFrom(found, n + 1)
  }

  function FirstUnset(found: set<nat>): (r: nat)
    ensures r <= Heap.MaxNumNodes
    ensures r < Heap.MaxNumNodes ==> r !in found
    ensures forall m | 0 <= m < r :: m in found
  {
    FirstUnsetFrom(found, 0)
  }

  /** While fewer than MAX_NUMNODES nodes are found, a free one exists. */
  lemma FirstUnsetExists(found: set<nat>)
    requires |found| < Heap.MaxNumNodes
    ensures FirstUnset(found) < Heap.MaxNumNodes
  {
    if FirstUnset(found) == Heap.MaxNumNodes {
      CardAtLeast(found, Heap.MaxNumNodes);
    }
  }

  /** The result of setup_node: the node (or -1) and the new state. */
  datatype Setup = Setup(node: int, s: Srat)

  /**
   * setup_node: the node of proximity domain pxm, assigning the lowest
   * unused node the first time pxm is seen, or -1 once all MAX_NUMNODES
   * nodes are in use.
   */
  function SetupNode(s: Srat, pxm: U8): (r: Setup)
    requires Inv(s)
    ensures s.pxm2node[pxm] != NoNode ==> r == Setup(s.pxm2node[pxm], s)
    ensures s.pxm2node[pxm] == NoNode && |s.nodesFound| >= Heap.MaxNumNodes ==> r == Setup(-1, s)
    ensures s.pxm2node[pxm] == NoNode && |s.nodesFound| < Heap.MaxNumNodes ==>
              && 0 <= r.node < Heap.MaxNumNodes
              && r.node !in s.nodesFound
              && (forall m | 0 <= m < r.node :: m in s.nodesFound)
              && r.s == s.(nodesFound := s.nodesFound + {r.node}, pxm2node := s.pxm2node[pxm := r.node])
    ensures r.node == -1 <==> s.pxm2node[pxm] == NoNode && |s.nodesFound| >= Heap.MaxNumNodes
    ensures Inv(r.s)
    ensures r.node >= 0 ==> PxmToNode(r.s.pxm2node, pxm) == r.node && r.node in r.s.nodesFound
    ensures r.s.nodesParsed == s.nodesParsed && r.s.nodes == s.nodes
    ensures r.s.acpiNuma == s.acpiNuma && r.s.apicToNode == s.apicToNode
  {
    var t := s.pxm2node;
    if t[pxm] != NoNode then Setup(t[pxm], s)
    else if |s.nodesFound| >= Heap.MaxNumNodes then Setup(-1, s)
    else
      FirstUnsetExists(s.nodesFound);
      var node := FirstUnset(s.nodesFound);
      var s' := s.(nodesFound := s.nodesFound + {node}, pxm2node := t[pxm := node]);
      AssignFresh(s, pxm, node);
      Setup(node, s')
  }

  /** Assigning an unused node to an unassigned proximity domain keeps Inv. */
  lemma AssignFresh(s: Srat, pxm: U8, node: nat)
    requires Inv(s) && s.pxm2node[pxm] == NoNode
    requires node < Heap.MaxNumNodes && node !in s.nodesFound
    ensures Inv(s.(nodesFound := s.nodesFound + {node}, pxm2node := s.pxm2node[pxm := node]))
  {
    var t := s.pxm2node;
    var t' := t[pxm := node];
    forall m | m in Assigned(t')
      ensures m in s.nodesFound + {node}
    {
      var p :| 0 <= p < |t'| && t'[p] != NoNode && m == t'[p];
      if p != pxm {
        assert t[p] == t'[p];
      }
    }
    forall m | m in s.nodesFound + {node}
      ensures m in Assigned(t')
    {
      if m == node {
        assert t'[pxm] == node;
      } else {
        var p :| 0 <= p < |t| && t[p] != NoNode && m == t[p];
        assert t'[p] == t[p];
      }
    }
    forall p, q | 0 <= p < q < PxmCount && t'[p] != NoNode
      ensures t'[p] != t'[q]
    {
      if p == pxm {
        assert t[q] == NoNode || t[q] in Assigned(t);
      } else if q == pxm {
        assert t[p] in Assigned(t);
      }
    }
  }

  /* ---------------- conflicting_nodes ---------------- */

  /**
   * The test of conflicting_nodes: nd is not empty and either intersects
   * [start, end) or is exactly [start, end).
   */
  predicate Conflicts(nd: Range, start: U64, end: U64)
  {
    !Empty(nd) && ((nd.end > start && nd.start < end) || (nd.end == end && nd.start == start))
  }

  /** The first parsed node at or above i whose range conflicts with [start, end). */
  function ConflictFrom(s: Srat, start: U64, end: U64, i: nat): (r: int)
    requires Shaped(s) && i <= Heap.MaxNumNodes
    ensures r == -1 || i <= r < Heap.MaxNumNodes
    ensures r >= 0 ==> r in s.nodesParsed && Conflicts(s.nodes[r], start, end)
    ensures forall j | i <= j < Heap.MaxNumNodes && (r == -1 || j < r) :: !(j in s.nodesParsed && Conflicts(s.nodes[j], start, end))
    decreases Heap.MaxNumNodes - i
  {
    if i == Heap.MaxNumNodes then -1
    else if i in s.nodesParsed && Conflicts(s.nodes[i], start, end) then i
    else ConflictFrom(s, start, end, i + 1)
  }

  /**
   * conflicting_nodes: the lowest parsed, non-empty node whose range
   * intersects or equals [start, end), or -1 when there is none.
   */
  function ConflictingNodes(s: Srat, start: U64, end: U64): (r: int)
    requires Shaped(s)
    ensures r >= 0 ==> r < Heap.MaxNumNodes && r in s.nodesParsed && Conflicts(s.nodes[r], start, end)
    ensures r == -1 <==> forall j | 0 <= j < Heap.MaxNumNodes :: !(j in s.nodesParsed && Conflicts(s.nodes[j], start, end))
    ensures r >= 0 ==> forall j | 0 <= j < r :: !(j in s.nodesParsed && Conflicts(s.nodes[j], start, end))
  {
    ConflictFrom(s, start, end, 0)
  }

  /** For a non-empty range [start, end), Conflicts is plain intersection. */
  lemma ConflictsIsOverlap(nd: Range, start: U64, end: U64)
    requires nd.start < nd.end && start < end
    ensures Conflicts(nd, start, end) <==> exists x :: Holds(nd, x) && start <= x < end
  {
    if Conflicts(nd, start, end) {
      var x := if nd.start < start then start else nd.start;
      assert Holds(nd, x) && start <= x < end;
    }
  }

  /* ---------------- cutoff_node ---------------- */

  function Max(a: int, b: int): int { if a < b then b else a }
  function Min(a: int, b: int): int { if a < b then a else b }

  /** cutoff_node: clip nd to [start, end]. */
  function Cutoff(nd: Range, start: U64, end: U64): (r: Range)
    ensures r.start >= nd.start || r.start == r.end
    ensures nd.start <= nd.end && start <= end ==>
              && r.start <= r.end
              && (Empty(r) || (start <= r.start && r.end <= end))
    ensures nd.start <= nd.end && start <= end ==>
              (Max(nd.start, start) < Min(nd.end, end) <==> !Empty(r))
    ensures nd.start <= nd.end && start <= end && !Empty(r) ==>
              r == Range(Max(nd.start, start), Min(nd.end, end))
  {
    var a := if nd.start < start then (if nd.end < start then Range(nd.end, nd.end) else Range(start, nd.end)) else nd;
    if a.end > end then
      if a.start > end then Range(end, end) else Range(a.start, end)
    else a
  }

  /** Cutting off to a range that holds nd leaves it alone. */
  lemma CutoffInside(nd: Range, start: U64, end: U64)
    requires start <= nd.start && nd.end <= end
    ensures Cutoff(nd, start, end) == nd
  {
  }

  /** Cutoff is idempotent. */
  lemma CutoffIdempotent(nd: Range, start: U64, end: U64)
    requires nd.start <= nd.end && start <= end
    ensures Cutoff(Cutoff(nd, start, end), start, end) == Cutoff(nd, start, end)
  {
  }

  /* ---------------- slit_valid ---------------- */

  /** A SLIT: locality_count and the count*count distance matrix, row-major. */
  datatype Slit = Slit(count: nat, entry: seq<U8>)

  predicate SlitShaped(slit: Slit)
  {
    |slit.entry| >= slit.count * slit.count
  }

  lemma CellInRange(d: nat, i: nat, j: nat)
    requires i < d && j < d
    ensures 0 <= d * i && d * i + j < d * d
  {
    Arith.MulLeIff(d, 0, i);
    Arith.MulLeIff(d, i + 1, d);
    assert d * i + d == d * (i + 1);
  }

  /** The distance from locality i to locality j. */
  function At(slit: Slit, i: nat, j: nat): U8
    requires SlitShaped(slit) && i < slit.count && j < slit.count
  {
    CellInRange(slit.count, i, j);
    slit.entry[slit.count * i + j]
  }

  /** A cell that slit_valid accepts. */
  predicate GoodCell(slit: Slit, i: nat, j: nat)
    requires SlitShaped(slit) && i < slit.count && j < slit.count
  {
    if i == j then At(slit, i, j) == LocalDistance else At(slit, i, j) > LocalDistance
  }

  /**
   * The property slit_valid checks: every locality is at distance 10 from
   * itself and further from every other.
   */
  predicate Plausible(slit: Slit)
    requires SlitShaped(slit)
  {
    forall i, j | 0 <= i < slit.count && 0 <= j < slit.count :: GoodCell(slit, i, j)
  }

  /** slit_valid: row by row, stopping at the first bad cell. */
  method SlitValid(slit: Slit) returns (ok: bool)
    requires SlitShaped(slit)
    ensures ok <==> Plausible(slit)
  {
    var d := slit.count;
    var i := 0;
    while i < d
      invariant 0 <= i <= d
      invariant forall i', j | 0 <= i' < i && 0 <= j < d :: GoodCell(slit, i', j)
    {
      var j := 0;
      while j < d
        invariant 0 <= j <= d
        invariant forall i', j' | 0 <= i' < i && 0 <= j' < d :: GoodCell(slit, i', j')
        invariant forall j' | 0 <= j' < j :: GoodCell(slit, i, j')
      {
        CellInRange(d, i, j);
        var val := slit.entry[d * i + j];
        if i == j {
          if val != LocalDistance {
            assert !GoodCell(slit, i, j);
            return false;
          }
        } else if val <= LocalDistance {
          assert !GoodCell(slit, i, j);
          return false;
        }
        j := j + 1;
      }
      i := i + 1;
    }
    return true;
  }

  /* ---------------- acpi_numa_memory_affinity_init ---------------- */

  /**
   * The fields of a memory affinity structure this model reads: whether
   * the header length is right, the enabled flag, the base address and
   * length (already put together from their halves) and the proximity
   * domain.
   */
  datatype MemAffinity = MemAffinity(lengthOk: bool, enabled: bool, base: U64, length: U64, pxm: U8)

  /** The end address of an affinity range, computed in u64. */
  function AffinityEnd(ma: MemAffinity): U64
  {
    Wrap(ma.base + ma.length)
  }

  /**
   * Record [start, end) for node: the first range sets the node's range,
   * a later one widens it to the hull of both.
   */
  function Record(s: Srat, node: nat, start: U64, end: U64): (r: Srat)
    requires Shaped(s) && node < Heap.MaxNumNodes
    ensures Shaped(r) && r.nodesParsed == s.nodesParsed + {node}
    ensures node !in s.nodesParsed ==> r.nodes[node] == Range(start, end)
    ensures node in s.nodesParsed ==>
              r.nodes[node] == Range(Min(start, s.nodes[node].start), Max(end, s.nodes[node].end))
    ensures forall j | 0 <= j < Heap.MaxNumNodes && j != node :: r.nodes[j] == s.nodes[j]
    ensures r.pxm2node == s.pxm2node && r.nodesFound == s.nodesFound
    ensures r.acpiNuma == s.acpiNuma && r.apicToNode == s.apicToNode
  {
    var nd := s.nodes[node];
    var nd' := if node !in s.nodesParsed then Range(start, end)
               else Range(if start < nd.start then start else nd.start, if nd.end < end then end else nd.end);
    s.(nodesParsed := s.nodesParsed + {node}, nodes := s.nodes[node := nd'])
  }

  /**
   * acpi_numa_memory_affinity_init: the node of ma's proximity domain gets
   * ma's range, unless the table is disabled, malformed, names too many
   * domains, or overlaps another node's range.
   */
  function MemoryAffinity(s: Srat, numaOff: bool, ma: MemAffinity): (r: Srat)
    requires Inv(s)
    ensures Inv(r)
    ensures Disabled(s, numaOff) || (ma.lengthOk && !ma.enabled) ==> r == s
    ensures !Disabled(s, numaOff) && !ma.lengthOk ==> r == BadSrat(s)
    ensures r.acpiNuma == s.acpiNuma || r.acpiNuma == -1
    ensures r.acpiNuma == s.acpiNuma ==> r.apicToNode == s.apicToNode
  {
    if Disabled(s, numaOff) then s
    else if !ma.lengthOk then BadSrat(s)
    else if !ma.enabled then s
    else
      var start := ma.base;
      var end := AffinityEnd(ma);
      var su := SetupNode(s, ma.pxm);
      if su.node < 0 then BadSrat(su.s)
      else
        var i := ConflictingNodes(su.s, start, end);
        if i != su.node && i >= 0 then BadSrat(su.s)
        else Record(su.s, su.node, start, end)
  }

  /** The entry passes every check before the overlap test. */
  predicate Accepted(s: Srat, numaOff: bool, ma: MemAffinity)
    requires Inv(s)
  {
    !Disabled(s, numaOff) && ma.lengthOk && ma.enabled && SetupNode(s, ma.pxm).node >= 0
  }

  /** Another node conflicts with the entry's range. */
  predicate OtherConflict(s: Srat, node: int, start: U64, end: U64)
    requires Shaped(s)
  {
    exists j | 0 <= j < Heap.MaxNumNodes :: j != node && j in s.nodesParsed && Conflicts(s.nodes[j], start, end)
  }

  /**
   * A range overlapping a node other than the entry's own, while not
   * overlapping the entry's own node, rejects the table and leaves the node
   * ranges and nodes_parsed as they were; only the proximity domain's node
   * assignment persists.
   */
  lemma AffinityOverlap(s: Srat, numaOff: bool, ma: MemAffinity)
    requires Inv(s) && Accepted(s, numaOff, ma)
    requires var node := SetupNode(s, ma.pxm).node;
             && OtherConflict(s, node, ma.base, AffinityEnd(ma))
             && !(node in s.nodesParsed && Conflicts(s.nodes[node], ma.base, AffinityEnd(ma)))
    ensures var r := MemoryAffinity(s, numaOff, ma);
            && r.acpiNuma == -1 && r.apicToNode == map[]
            && r.nodes == s.nodes && r.nodesParsed == s.nodesParsed
            && r.pxm2node == SetupNode(s, ma.pxm).s.pxm2node
  {
    var su := SetupNode(s, ma.pxm);
    var i := ConflictingNodes(su.s, ma.base, AffinityEnd(ma));
    assert i >= 0 && i != su.node;
  }

  /**
   * The first memory affinity entry for a node sets its range exactly, a
   * later one widens it to the hull; other nodes keep their ranges.
   */
  lemma AffinityRecords(s: Srat, numaOff: bool, ma: MemAffinity)
    requires Inv(s) && Accepted(s, numaOff, ma)
    requires !OtherConflict(s, SetupNode(s, ma.pxm).node, ma.base, AffinityEnd(ma))
    ensures var node := SetupNode(s, ma.pxm).node;
            var r := MemoryAffinity(s, numaOff, ma);
            && r.acpiNuma == s.acpiNuma
            && r.nodesParsed == s.nodesParsed + {node}
            && (node !in s.nodesParsed ==> r.nodes[node] == Range(ma.base, AffinityEnd(ma)))
            && (node in s.nodesParsed ==>
                  r.nodes[node] == Range(Min(ma.base, s.nodes[node].start), Max(AffinityEnd(ma), s.nodes[node].end)))
            && (forall j | 0 <= j < Heap.MaxNumNodes && j != node :: r.nodes[j] == s.nodes[j])
  {
    var su := SetupNode(s, ma.pxm);
    var i := ConflictingNodes(su.s, ma.base, AffinityEnd(ma));
  }

  /**
   * A table with two nodes: proximity domain 0 is node 0 on [0, 0x1000)
   * and proximity domain 1 is node 1 on [0x2000, 0x3000).
   */
  function TwoNodes(): (s: Srat)
    ensures Inv(s) && s.nodesParsed == {0, 1} && s.acpiNuma == 1
    ensures s.nodes[0] == Range(0, 0x1000) && s.nodes[1] == Range(0x2000, 0x3000)
    ensures s.pxm2node[0] == 0 && s.pxm2node[1] == 1
  {
    var t: seq<U8> := seq(PxmCount, p => if p < 2 then p else NoNode);
    assert t[0] == 0 && t[1] == 1;
    assert Assigned(t) == {0, 1};
    var nodes := seq(Heap.MaxNumNodes, j => if j == 0 then Range(0, 0x1000) else if j == 1 then Range(0x2000, 0x3000) else Range(0, 0));
    Srat(t, {0, 1}, {0, 1}, nodes, 1, map[])
  }

  /**
   * conflicting_nodes reports only the lowest conflicting node, so when an
   * entry overlaps its own node and a higher one, the entry is accepted:
   * node 0 grows to [0, 0x2800) and overlaps node 1.
   */
  lemma OwnOverlapMasksOther()
    ensures var ma := MemAffinity(true, true, 0x800, 0x2000, 0);
            var r := MemoryAffinity(TwoNodes(), false, ma);
            && OtherConflict(TwoNodes(), 0, 0x800, AffinityEnd(ma))
            && r.acpiNuma == 1 && r.nodes[0] == Range(0, 0x2800)
            && 0 in r.nodesParsed && 1 in r.nodesParsed
            && Conflicts(r.nodes[0], r.nodes[1].start, r.nodes[1].end)
  {
    var s := TwoNodes();
    var ma := MemAffinity(true, true, 0x800, 0x2000, 0);
    assert AffinityEnd(ma) == 0x2800;
    assert SetupNode(s, 0) == Setup(0, s);
    assert Conflicts(s.nodes[0], 0x800, 0x2800);
    assert ConflictingNodes(s, 0x800, 0x2800) == 0;
    assert 1 in s.nodesParsed && Conflicts(s.nodes[1], 0x800, 0x2800);
  }

  /**
   * acpi_numa_memory_affinity_init as evidently intended: an entry is
   * rejected whenever its range conflicts with any node other than its
   * own, whichever node conflicting_nodes happens to report first.
   */
  function MemoryAffinityStrict(s: Srat, numaOff: bool, ma: MemAffinity): (r: Srat)
    requires Inv(s)
    ensures Inv(r)
    ensures Disabled(s, numaOff) || (ma.lengthOk && !ma.enabled) ==> r == s
    ensures !Disabled(s, numaOff) && !ma.lengthOk ==> r == BadSrat(s)
    ensures Accepted(s, numaOff, ma) && OtherConflict(s, SetupNode(s, ma.pxm).node, ma.base, AffinityEnd(ma)) ==>
              && r.acpiNuma == -1 && r.apicToNode == map[]
              && r.nodes == s.nodes && r.nodesParsed == s.nodesParsed
  {
    if Disabled(s, numaOff) then s
    else if !ma.lengthOk then BadSrat(s)
    else if !ma.enabled then s
    else
      var start := ma.base;
      var end := AffinityEnd(ma);
      var su := SetupNode(s, ma.pxm);
      if su.node < 0 then BadSrat(su.s)
      else if OtherConflict(su.s, su.node, start, end) then BadSrat(su.s)
      else Record(su.s, su.node, start, end)
  }

  /** The two readings differ only where another node conflicts. */
  lemma StrictAgrees(s: Srat, numaOff: bool, ma: MemAffinity)
    requires Inv(s)
    requires !Accepted(s, numaOff, ma) || !OtherConflict(s, SetupNode(s, ma.pxm).node, ma.base, AffinityEnd(ma))
    ensures MemoryAffinityStrict(s, numaOff, ma) == MemoryAffinity(s, numaOff, ma)
  {
    if Accepted(s, numaOff, ma) {
      var su := SetupNode(s, ma.pxm);
      var i := ConflictingNodes(su.s, ma.base, AffinityEnd(ma));
    }
  }

  /* ---------------- nodes_cover_memory ---------------- */

  /** An e820 map entry. */
  datatype E820Entry = E820Entry(addr: U64, size: U64, ram: bool)

  /** Whether some parsed node's range holds address x. */
  predicate Covered(s: Srat, x: int)
    requires Shaped(s)
  {
    exists j | 0 <= j < Heap.MaxNumNodes :: j in s.nodesParsed && Holds(s.nodes[j], x)
  }

  /** The state of one do-while pass of nodes_cover_memory. */
  datatype Scan = Scan(start: U64, end: U64, found: bool)

  /**
   * One pass over the parsed nodes from node j on: a node overlapping
   * [start, end) trims the start past it when it holds the start, and the
   * end before it when it holds the end.
   */
  function CoverPass(s: Srat, c: Scan, j: nat): (r: Scan)
    requires Shaped(s) && j <= Heap.MaxNumNodes
    ensures c.start <= r.start && r.end <= c.end
    ensures r.found == (c.found || r.start != c.start || r.end != c.end)
    ensures forall x | c.start <= x < c.end && !(r.start <= x < r.end) :: Covered(s, x)
    ensures c.start < c.end && !r.found ==>
              forall k | j <= k < Heap.MaxNumNodes && k in s.nodesParsed :: !Holds(s.nodes[k], c.start)
    decreases Heap.MaxNumNodes - j
  {
    if j == Heap.MaxNumNodes then c
    else
      var nd := s.nodes[j];
      var c' :=
        if j in s.nodesParsed && c.start < nd.end && c.end > nd.start then
          var c1 := if c.start >= nd.start then Scan(nd.end, c.end, true) else c;
          if c1.end <= nd.end then Scan(c1.start, nd.start, true) else c1
        else c;
      assert forall x | c.start <= x < c.end && !(c'.start <= x < c'.end) :: Holds(nd, x) && j in s.nodesParsed;
      CoverPass(s, c', j + 1)
  }

  /**
   * The do-while loop of nodes_cover_memory for one RAM range: repeat
   * passes while one found something and the range is not used up.  The
   * range covers when it is used up.
   */
  function CoverRange(s: Srat, start: U64, end: U64): (r: bool)
    requires Shaped(s)
    ensures r <==> Spans(s, start, end)
    decreases end - start
  {
    var c := CoverPass(s, Scan(start, end, false), 0);
    if c.found && c.start < c.end then
      CoverRange(s, c.start, c.end)
    else if c.start < c.end then
      // The pass found nothing: no parsed node holds the first byte.
      assert !Covered(s, start);
      false
    else
      true
  }

  /** Every address of [start, end) lies in a parsed node. */
  predicate Spans(s: Srat, start: int, end: int)
    requires Shaped(s)
  {
    forall x | start <= x < end :: Covered(s, x)
  }

  /** The last byte of an e820 entry, computed in u64 as the source does. */
  function LastByte(e: E820Entry): U64
  {
    Wrap(e.addr + e.size - 1)
  }

  /** The check nodes_cover_memory makes of one e820 entry. */
  predicate RamCovered(s: Srat, e: E820Entry)
    requires Shaped(s)
  {
    e.ram ==> Spans(s, e.addr, LastByte(e))
  }

  /** The loop of nodes_cover_memory from entry i on. */
  function CoverFrom(s: Srat, e820: seq<E820Entry>, i: nat): (r: bool)
    requires Shaped(s) && i <= |e820|
    ensures r <==> forall k | i <= k < |e820| :: RamCovered(s, e820[k])
    decreases |e820| - i
  {
    if i == |e820| then true
    else if e820[i].ram && !CoverRange(s, e820[i].addr, LastByte(e820[i])) then false
    else CoverFrom(s, e820, i + 1)
  }

  /**
   * nodes_cover_memory: every RAM entry's range [addr, addr+size-1) lies in
   * the union of the parsed nodes' ranges.
   */
  function NodesCoverMemory(s: Srat, e820: seq<E820Entry>): (r: bool)
    requires Shaped(s)
    ensures r <==> forall i | 0 <= i < |e820| :: RamCovered(s, e820[i])
  {
    CoverFrom(s, e820, 0)
  }

  /* ---------------- acpi_scan_nodes ---------------- */

  /** unparse_node: drop node from nodes_parsed and from apicid_to_node. */
  function UnparseNode(s: Srat, node: nat): (r: Srat)
    ensures r.nodesParsed == s.nodesParsed - {node}
    ensures forall a | a in r.apicToNode :: a in s.apicToNode && r.apicToNode[a] == s.apicToNode[a] != node
    ensures forall a | a in s.apicToNode && s.apicToNode[a] != node :: a in r.apicToNode
    ensures r.pxm2node == s.pxm2node && r.nodesFound == s.nodesFound && r.nodes == s.nodes && r.acpiNuma == s.acpiNuma
  {
    s.(nodesParsed := s.nodesParsed - {node},
       apicToNode := map a | a in s.apicToNode && s.apicToNode[a] != node :: s.apicToNode[a])
  }

  /** The size of a node's range as the source computes it, in u64. */
  function Size(nd: Range): U64
  {
    Wrap(nd.end - nd.start)
  }

  /**
   * The clean-up loop of acpi_scan_nodes from node i on: clip every node to
   * [start, end] and unparse those left smaller than NODE_MIN_SIZE.
   */
  function Prune(s: Srat, start: U64, end: U64, i: nat): (r: Srat)
    requires Shaped(s) && i <= Heap.MaxNumNodes
    ensures Shaped(r)
    ensures forall j | 0 <= j < i :: r.nodes[j] == s.nodes[j]
    ensures forall j | i <= j < Heap.MaxNumNodes :: r.nodes[j] == Cutoff(s.nodes[j], start, end)
    ensures forall j: nat :: j in r.nodesParsed <==>
              j in s.nodesParsed && !(i <= j < Heap.MaxNumNodes && Size(Cutoff(s.nodes[j], start, end)) < NodeMinSize)
    ensures forall j | j in r.nodesParsed && i <= j < Heap.MaxNumNodes :: Size(r.nodes[j]) >= NodeMinSize
    ensures forall a | a in r.apicToNode :: a in s.apicToNode && r.apicToNode[a] == s.apicToNode[a]
    ensures forall a | a in r.apicToNode :: !(i <= r.apicToNode[a] < Heap.MaxNumNodes && Size(r.nodes[r.apicToNode[a]]) < NodeMinSize)
    ensures r.pxm2node == s.pxm2node && r.nodesFound == s.nodesFound && r.acpiNuma == s.acpiNuma
    decreases Heap.MaxNumNodes - i
  {
    if i == Heap.MaxNumNodes then s
    else
      var nd := Cutoff(s.nodes[i], start, end);
      var s1 := s.(nodes := s.nodes[i := nd]);
      var s2 := if Size(nd) < NodeMinSize then UnparseNode(s1, i) else s1;
      Prune(s2, start, end, i + 1)
  }

  /** The outcome of acpi_scan_nodes: its return code, the state, cpu_to_node. */
  datatype ScanResult = ScanResult(rc: int, s: Srat, cpuToNode: map<nat, nat>)

  /**
   * The rest of acpi_scan_nodes, on the pruned state p: give up (-1) when
   * no SRAT was seen, reject the table when the nodes do not cover the RAM
   * of the e820 map or no node hash exists (hashShift < 0 is the result of
   * compute_hash_shift), and otherwise detach CPUs from dropped nodes.
   */
  function Register(p: Srat, e820: seq<E820Entry>, hashShift: int, cpuToNode: map<nat, nat>): (r: ScanResult)
    requires Shaped(p)
    ensures r.rc == 0 || r.rc == -1
    ensures r.rc == 0 <==> p.acpiNuma > 0 && hashShift >= 0 && NodesCoverMemory(p, e820)
    ensures r.rc == 0 ==> r.s == p
    ensures p.acpiNuma <= 0 ==> r.s == p
    ensures p.acpiNuma > 0 && r.rc == -1 ==> r.s == BadSrat(p)
    ensures r.rc == 0 ==> forall cpu | cpu in r.cpuToNode :: r.cpuToNode[cpu] in p.nodesParsed && cpu in cpuToNode && cpuToNode[cpu] == r.cpuToNode[cpu]
    ensures r.rc == 0 ==> forall cpu | cpu in cpuToNode && cpuToNode[cpu] in p.nodesParsed :: cpu in r.cpuToNode
    ensures r.rc == -1 ==> r.cpuToNode == cpuToNode
  {
    if p.acpiNuma <= 0 then ScanResult(-1, p, cpuToNode)
    else if !NodesCoverMemory(p, e820) then ScanResult(-1, BadSrat(p), cpuToNode)
    else if hashShift < 0 then ScanResult(-1, BadSrat(p), cpuToNode)
    else
      var cpus := map cpu | cpu in cpuToNode && cpuToNode[cpu] in p.nodesParsed :: cpuToNode[cpu];
      ScanResult(0, p, cpus)
  }

  /**
   * acpi_scan_nodes: prune the nodes to [start, end], then register them.
   * Only nodes of at least NODE_MIN_SIZE stay parsed.
   */
  function ScanNodes(s: Srat, start: U64, end: U64, e820: seq<E820Entry>, hashShift: int, cpuToNode: map<nat, nat>): (r: ScanResult)
    requires Shaped(s)
    ensures Shaped(r.s) && r.s.nodesParsed <= s.nodesParsed
    ensures r.s.pxm2node == s.pxm2node && r.s.nodesFound == s.nodesFound
  {
    Register(Prune(s, start, end, 0), e820, hashShift, cpuToNode)
  }

  /** A clipped node that is not too small lies inside [start, end]. */
  lemma CutoffKept(nd: Range, start: U64, end: U64)
    requires nd.start <= nd.end && start <= end
    requires Size(Cutoff(nd, start, end)) >= NodeMinSize
    ensures start <= Cutoff(nd, start, end).start <= Cutoff(nd, start, end).end <= end
  {
    assert !Empty(Cutoff(nd, start, end));
  }

  /**
   * After the clean-up loop of acpi_scan_nodes every node still parsed is
   * at least NODE_MIN_SIZE long and, for well-formed ranges, lies inside
   * [start, end].
   */
  lemma PruneBounds(s: Srat, start: U64, end: U64, i: nat)
    requires Shaped(s) && start <= end && i <= Heap.MaxNumNodes
    requires forall j | i <= j < Heap.MaxNumNodes :: s.nodes[j].start <= s.nodes[j].end
    ensures forall j | j in Prune(s, start, end, i).nodesParsed && i <= j < Heap.MaxNumNodes ::
              var nd := Prune(s, start, end, i).nodes[j];
              Size(nd) >= NodeMinSize && start <= nd.start <= nd.end <= end
  {
    var p := Prune(s, start, end, i);
    forall j | j in p.nodesParsed && i <= j < Heap.MaxNumNodes
      ensures Size(p.nodes[j]) >= NodeMinSize && start <= p.nodes[j].start <= p.nodes[j].end <= end
    {
      assert p.nodes[j] == Cutoff(s.nodes[j], start, end);
      CutoffKept(s.nodes[j], start, end);
    }
  }

  /* ---------------- node_to_pxm and __node_distance ---------------- */

  /** The first proximity domain at or above i that maps to node n, or 0. */
  function PxmFrom(t: seq<U8>, n: int, i: nat): (r: U8)
    requires |t| == PxmCount && i <= PxmCount
    ensures (exists p | i <= p < PxmCount :: t[p] == n) ==> i <= r && t[r] == n
    ensures (forall p | i <= p < PxmCount :: t[p] != n) ==> r == 0
    ensures forall p | i <= p < r :: t[p] != n
    decreases PxmCount - i
  {
    if i == PxmCount then 0
    else if t[i] == n then i
    else PxmFrom(t, n, i + 1)
  }

  /**
   * node_to_pxm: a proximity domain mapping to node n (n itself when it
   * maps to n), or 0 when none does.
   */
  function NodeToPxm(t: seq<U8>, n: int): (r: U8)
    requires |t| == PxmCount && 0 <= n < PxmCount
    ensures (exists p | 0 <= p < PxmCount :: t[p] == n) ==> t[r] == n
    ensures (forall p | 0 <= p < PxmCount :: t[p] != n) ==> r == 0
  {
    if t[n] == n then n else PxmFrom(t, n, 0)
  }

  /** Under Inv, node_to_pxm maps the node of an assigned pxm back to pxm. */
  lemma NodeToPxmInverse(s: Srat, pxm: U8)
    requires Inv(s) && s.pxm2node[pxm] != NoNode
    ensures NodeToPxm(s.pxm2node, s.pxm2node[pxm]) == pxm
  {
    var t := s.pxm2node;
    var r := NodeToPxm(t, t[pxm]);
    assert t[r] == t[pxm];
  }

  /** Under Inv, pxm_to_node maps node_to_pxm of a found node back to it. */
  lemma PxmToNodeInverse(s: Srat, n: nat)
    requires Inv(s) && n in s.nodesFound
    ensures n < Heap.MaxNumNodes
    ensures PxmToNode(s.pxm2node, NodeToPxm(s.pxm2node, n)) == n
  {
    var t := s.pxm2node;
    var p :| 0 <= p < PxmCount && t[p] != NoNode && n == t[p];
    assert t[NodeToPxm(t, n)] == n;
  }

  /**
   * __node_distance: with no SLIT, 10 for a node to itself and 20 to any
   * other; with one, the SLIT cell of the two nodes' proximity domains.
   */
  function NodeDistance(slit: Option<Slit>, t: seq<U8>, a: int, b: int): (r: int)
    requires |t| == PxmCount && 0 <= a < PxmCount && 0 <= b < PxmCount
    requires slit.Some? ==> SlitShaped(slit.value) && NodeToPxm(t, a) < slit.value.count && NodeToPxm(t, b) < slit.value.count
    ensures slit.None? ==> (r == LocalDistance <==> a == b) && (a != b ==> r == RemoteDistance)
    ensures slit.Some? ==> r == At(slit.value, NodeToPxm(t, a), NodeToPxm(t, b))
  {
    match slit
    case None => if a == b then LocalDistance else RemoteDistance
    case Some(sl) => At(sl, NodeToPxm(t, a), NodeToPxm(t, b))
  }

  /**
   * With a SLIT that passed slit_valid, a found node is nearer to itself
   * (distance 10) than to any other found node, as without a SLIT.
   */
  lemma DistanceLocalFirst(s: Srat, slit: Option<Slit>, a: nat, b: nat)
    requires Inv(s) && a in s.nodesFound && b in s.nodesFound
    requires a < Heap.MaxNumNodes && b < Heap.MaxNumNodes
    requires slit.Some? ==> SlitShaped(slit.value) && Plausible(slit.value)
    requires slit.Some? ==> NodeToPxm(s.pxm2node, a) < slit.value.count && NodeToPxm(s.pxm2node, b) < slit.value.count
    ensures NodeDistance(slit, s.pxm2node, a, b) == LocalDistance <==> a == b
    ensures a != b ==> NodeDistance(slit, s.pxm2node, a, b) > LocalDistance
  {
    var t := s.pxm2node;
    PxmToNodeInverse(s, a);
    PxmToNodeInverse(s, b);
    if slit.Some? {
      var pa := NodeToPxm(t, a);
      var pb := NodeToPxm(t, b);
      assert GoodCell(slit.value, pa, pb);
      if a != b {
        assert pa != pb;
      }
    }
  }
}
