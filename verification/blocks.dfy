/**
 * The shape of the buddy heap, abstracted from its lists: the listed blocks
 * as a map from head frame to order, the set of free frames (those whose
 * allocation bit is clear), and a set of "floating" frames that are free
 * but not yet, or no longer, on any list.  Floating frames exist only in
 * the middle of an operation: alloc_heap_pages takes a block off a list and
 * splits it, free_heap_pages clears the bits of a block before merging it,
 * reserve_offlined_page takes a block off its list and carves it up.
 *
 * BlocksOK is the invariant: listed blocks are aligned to their order, lie
 * in free memory and do not overlap; every free frame is in exactly one
 * listed block or floating.  The lemmas below are the steps the heap
 * operations are built from.
 */
module Blocks {
  import opened Arith

  /** MAX_ORDER: the largest block is 2^20 frames. */
  const MaxOrder: nat := 20

  /** Frame f lies in the block of order o headed by b. */
  predicate InSpan(f: nat, b: nat, o: nat)
  {
    b <= f < b + Pow2(o)
  }

  /** The frames of the block of order o headed by b. */
  function Span(b: nat, o: nat): (s: set<nat>)
    ensures forall f :: f in s <==> InSpan(f, b, o)
  {
    set f: nat | b <= f < b + Pow2(o) && InSpan(f, b, o)
  }

  predicate InRange(f: nat, first: nat, n: nat)
  {
    first <= f < first + n
  }

  /** The frames first, ..., first + n - 1. */
  function Range(first: nat, n: nat): (s: set<nat>)
    ensures forall f :: f in s <==> InRange(f, first, n)
  {
    set f: nat | first <= f < first + n && InRange(f, first, n)
  }

  lemma {:induction false} RangeCard(first: nat, n: nat)
    ensures |Range(first, n)| == n
  {
    if n > 0 {
      RangeCard(first, n - 1);
      assert Range(first, n) == Range(first, n - 1) + {first + n - 1};
    }
  }

  /** A block of order o has 2^o frames. */
  lemma SpanCard(b: nat, o: nat)
    ensures |Span(b, o)| == Pow2(o)
  {
    RangeCard(b, Pow2(o));
    assert Span(b, o) == Range(b, Pow2(o));
  }

  /** Listed blocks: head frame to order. */
  type BlockMap = map<nat, nat>

  ghost predicate WellFormed(B: BlockMap)
  {
    forall b | b in B :: b >= 1 && B[b] <= MaxOrder && Aligned(b, B[b])
  }

  ghost predicate Within(B: BlockMap, free: set<nat>)
  {
    forall b, f | b in B && InSpan(f, b, B[b]) :: f in free
  }

  /** No frame lies in two different listed blocks. */
  ghost predicate Disjoint(B: BlockMap)
  {
    forall b1, b2, f | b1 in B && b2 in B && InSpan(f, b1, B[b1]) && InSpan(f, b2, B[b2]) :: b1 == b2
  }

  /** Frame f lies in some listed block. */
  ghost predicate Listed(B: BlockMap, f: nat)
  {
    exists b | b in B :: InSpan(f, b, B[b])
  }

  ghost predicate Covered(B: BlockMap, free: set<nat>, F: set<nat>)
  {
    forall f | f in free :: f in F || Listed(B, f)
  }

  ghost predicate Floating(B: BlockMap, free: set<nat>, F: set<nat>)
  {
    F <= free && forall b, f | b in B && f in F :: !InSpan(f, b, B[b])
  }

  ghost predicate BlocksOK(B: BlockMap, free: set<nat>, F: set<nat>)
  {
    WellFormed(B) && Within(B, free) && Disjoint(B) && Covered(B, free, F) && Floating(B, free, F)
  }

  /** A listed block's head is in no other listed block and in no floating frame. */
  lemma HeadOwnsSpan(B: BlockMap, free: set<nat>, F: set<nat>, b: nat)
    requires BlocksOK(B, free, F)
    requires b in B
    ensures InSpan(b, b, B[b])
    ensures b !in F
  {
  }

  /** The invariant of equal arguments. */
  lemma BlocksSubst(B: BlockMap, B': BlockMap, free: set<nat>, free': set<nat>, F: set<nat>, F': set<nat>)
    requires BlocksOK(B, free, F)
    requires B' == B && free' == free && F' == F
    ensures BlocksOK(B', free', F')
  {
  }

  /** Listing an aligned run of floating frames as a block keeps the invariant. */
  lemma AddBlock(B: BlockMap, free: set<nat>, F: set<nat>, b: nat, o: nat)
    requires BlocksOK(B, free, F)
    requires b >= 1 && o <= MaxOrder && Aligned(b, o)
    requires forall f | InSpan(f, b, o) :: f in F
    ensures b !in B
    ensures BlocksOK(B[b := o], free, F - Span(b, o))
  {
    assert InSpan(b, b, o);
    if b in B {
      assert InSpan(b, b, B[b]);
    }
    var B', F' := B[b := o], F - Span(b, o);
    forall f | f in free
      ensures f in F' || Listed(B', f)
    {
      if f in F && InSpan(f, b, o) {
        assert b in B' && InSpan(f, b, B'[b]);
      } else if f !in F {
        var c :| c in B && InSpan(f, c, B[c]);
        assert c in B' && B'[c] == B[c];
      }
    }
  }

  /** Taking a listed block off its list turns its frames into floating frames. */
  lemma RemoveBlock(B: BlockMap, free: set<nat>, F: set<nat>, b: nat)
    requires BlocksOK(B, free, F)
    requires b in B
    ensures BlocksOK(B - {b}, free, F + Span(b, B[b]))
  {
    var B', F' := B - {b}, F + Span(b, B[b]);
    forall f | f in free
      ensures f in F' || Listed(B', f)
    {
      if f !in F && !InSpan(f, b, B[b]) {
        var c :| c in B && InSpan(f, c, B[c]);
        assert c in B' && B'[c] == B[c];
      }
    }
  }

  /** Marking floating frames allocated keeps the invariant. */
  lemma Withdraw(B: BlockMap, free: set<nat>, F: set<nat>, S: set<nat>)
    requires BlocksOK(B, free, F)
    requires S <= F
    ensures BlocksOK(B, free - S, F - S)
  {
  }

  /** Freeing allocated frames makes them floating. */
  lemma AddFree(B: BlockMap, free: set<nat>, F: set<nat>, S: set<nat>)
    requires BlocksOK(B, free, F)
    requires S !! free
    ensures BlocksOK(B, free + S, F + S)
  {
  }

  /** The buddy of the aligned block of order o headed by p. */
  function Buddy(p: nat, o: nat): (q: nat)
    requires Aligned(p, o)
    ensures q != p
    ensures Aligned(q, o)
  {
    ParentAligned(p, o);
    Pow2Aligned(o, o);
    if UpperHalf(p, o) then
      AlignedWeaken(p - Pow2(o), o + 1, o);
      p - Pow2(o)
    else
      AlignedAdd(p, Pow2(o), o);
      p + Pow2(o)
  }

  /** The parent block that a block and its buddy make up. */
  function Parent(p: nat, o: nat): (r: nat)
    requires Aligned(p, o)
    ensures Aligned(r, o + 1)
    ensures r == p || r == Buddy(p, o)
    ensures r <= p && r <= Buddy(p, o)
    ensures forall f :: InSpan(f, r, o + 1) <==> InSpan(f, p, o) || InSpan(f, Buddy(p, o), o)
  {
    ParentAligned(p, o);
    assert Pow2(o + 1) == 2 * Pow2(o);
    if UpperHalf(p, o) then p - Pow2(o) else p
  }

  /**
   * The core of the merge step of free_heap_pages: when the floating frames
   * are exactly an aligned block, its buddy's head is free, and the buddy
   * has order o if it heads a listed block at all, then it does head a
   * listed block of order o.  A larger listed block containing the buddy
   * would contain the floating block too, and a smaller one containing it
   * is headed by the buddy itself.
   */
  lemma BuddyIsListed(B: BlockMap, free: set<nat>, p: nat, o: nat)
    requires BlocksOK(B, free, Span(p, o))
    requires Aligned(p, o)
    requires Buddy(p, o) in free
    requires Buddy(p, o) in B ==> B[Buddy(p, o)] == o
    ensures Buddy(p, o) in B && B[Buddy(p, o)] == o
  {
    var q := Buddy(p, o);
    BuddyOutside(p, o);
    assert q !in Span(p, o);
    assert Listed(B, q);
    var c :| c in B && InSpan(q, c, B[c]);
    var oc := B[c];
    assert Aligned(c, oc);
    assert p in Span(p, o);
    BuddyHeadsItsBlock(p, o, c, oc);
  }

  /** A listed block that holds the buddy but not the block itself is headed by the buddy. */
  lemma BuddyHeadsItsBlock(p: nat, o: nat, c: nat, oc: nat)
    requires Aligned(p, o) && Aligned(c, oc)
    requires InSpan(Buddy(p, o), c, oc)
    requires !InSpan(p, c, oc)
    ensures c == Buddy(p, o)
  {
    if oc > o {
      LargerBlockHoldsBoth(p, o, c, oc);
    } else {
      SmallerBlockIsBuddy(Buddy(p, o), o, c, oc);
    }
  }

  lemma BuddyOutside(p: nat, o: nat)
    requires Aligned(p, o)
    ensures !InSpan(Buddy(p, o), p, o)
  {
    if InSpan(Buddy(p, o), p, o) {
      AlignedUnique(p, Buddy(p, o), o);
    }
  }

  /** An aligned block larger than order o that holds the buddy also holds the block itself. */
  lemma LargerBlockHoldsBoth(p: nat, o: nat, c: nat, oc: nat)
    requires Aligned(p, o) && Aligned(c, oc)
    requires oc > o
    requires InSpan(Buddy(p, o), c, oc)
    ensures InSpan(p, c, oc)
  {
    var r := Parent(p, o);
    AlignedWeaken(c, oc, o + 1);
    if r < c {
      AlignedUnique(r, c, o + 1);
    }
    AlignedNest(c, oc, r, o + 1);
  }

  /** An aligned block of order at most o holding an o-aligned frame q is headed by q. */
  lemma SmallerBlockIsBuddy(q: nat, o: nat, c: nat, oc: nat)
    requires Aligned(q, o) && Aligned(c, oc)
    requires oc <= o
    requires InSpan(q, c, oc)
    ensures c == q
  {
    AlignedWeaken(q, o, oc);
    AlignedUnique(c, q, oc);
  }

  /** Merging: the floating block and its listed buddy become one floating parent block. */
  lemma MergeBuddy(B: BlockMap, free: set<nat>, p: nat, o: nat)
    requires BlocksOK(B, free, Span(p, o))
    requires Aligned(p, o)
    requires Buddy(p, o) in B && B[Buddy(p, o)] == o
    ensures BlocksOK(B - {Buddy(p, o)}, free, Span(Parent(p, o), o + 1))
  {
    var q := Buddy(p, o);
    RemoveBlock(B, free, Span(p, o), q);
    assert Span(p, o) + Span(q, o) == Span(Parent(p, o), o + 1);
  }

  /** Splitting a floating block: listing its lower half leaves its upper half floating. */
  lemma SplitBlock(B: BlockMap, free: set<nat>, b: nat, j: nat)
    requires BlocksOK(B, free, Span(b, j))
    requires b >= 1 && 1 <= j <= MaxOrder && Aligned(b, j)
    ensures b !in B
    ensures BlocksOK(B[b := j - 1], free, Span(b + Pow2(j - 1), j - 1))
  {
    HalvesOfParent(b, j - 1);
    assert Pow2(j) == 2 * Pow2(j - 1);
    assert Span(b, j) - Span(b, j - 1) == Span(b + Pow2(j - 1), j - 1);
    AddBlock(B, free, Span(b, j), b, j - 1);
  }

  /**
   * A merge step on the block map: the buddy is a listed block of order o,
   * the parent block is made of free frames, and unlisting the buddy leaves
   * the parent floating.
   */
  lemma MergeBlock(B: BlockMap, free: set<nat>, p: nat, o: nat)
    requires BlocksOK(B, free, Span(p, o))
    requires Aligned(p, o)
    requires Buddy(p, o) in free
    requires Buddy(p, o) in B ==> B[Buddy(p, o)] == o
    ensures Buddy(p, o) in B && B[Buddy(p, o)] == o
    ensures forall f | InSpan(f, Parent(p, o), o + 1) :: f in free
    ensures BlocksOK(B - {Buddy(p, o)}, free, Span(Parent(p, o), o + 1))
  {
    var q := Buddy(p, o);
    BuddyIsListed(B, free, p, o);
    forall f | InSpan(f, Parent(p, o), o + 1) ensures f in free {
      if !InSpan(f, p, o) {
        assert InSpan(f, q, B[q]);
      }
    }
    MergeBuddy(B, free, p, o);
  }
}
