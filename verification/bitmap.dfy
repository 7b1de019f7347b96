/**
 * The allocation bitmap: one bit per machine frame, set when the frame is
 * not sitting in a buddy free list (allocated, reserved, or never handed to
 * the allocator).
 *
 * Abstractly the bitmap is the set of frames whose bit is CLEAR; every frame
 * outside that set reads as allocated, which is how the boot code leaves the
 * whole bitmap before any range is registered (page_alloc.c:185-186).
 *
 * Concretely the source stores 64-bit words and updates a frame range with
 * word masks; `MapAllocWords` and `MapFreeWords` model that code and are
 * proved to agree bit for bit with the set-level `MapAlloc` and `MapFree`.
 */
module Bitmap {

  /** The frames first, first+1, ..., first+nr-1. */
  predicate InRange(pfn: nat, first: nat, nr: nat)
  {
    first <= pfn < first + nr
  }

  predicate Allocated(free: set<nat>, pfn: nat)
  {
    pfn !in free
  }

  /** Every frame of the range is currently allocated. */
  ghost predicate RangeAllocated(free: set<nat>, first: nat, nr: nat)
  {
    forall pfn :: InRange(pfn, first, nr) ==> pfn !in free
  }

  /** Every frame of the range is currently free. */
  ghost predicate RangeFree(free: set<nat>, first: nat, nr: nat)
  {
    forall pfn :: InRange(pfn, first, nr) ==> pfn in free
  }

  /** map_alloc: mark [first, first+nr) allocated; the range must be free beforehand. */
  function MapAlloc(free: set<nat>, first: nat, nr: nat): (r: set<nat>)
    requires RangeFree(free, first, nr)
    ensures forall pfn :: Allocated(r, pfn) <==> Allocated(free, pfn) || InRange(pfn, first, nr)
    ensures RangeAllocated(r, first, nr)
  {
    set pfn | pfn in free && !InRange(pfn, first, nr)
  }

  /** map_free: mark [first, first+nr) free; the range must be allocated beforehand. */
  function MapFree(free: set<nat>, first: nat, nr: nat): (r: set<nat>)
    requires RangeAllocated(free, first, nr)
    ensures forall pfn :: Allocated(r, pfn) <==> Allocated(free, pfn) && !InRange(pfn, first, nr)
    ensures RangeFree(r, first, nr)
  {
    free + set pfn: nat | first <= pfn < first + nr && InRange(pfn, first, nr)
  }

  /** Freeing an allocated range and allocating it again restores the bitmap. */
  lemma MapFreeThenAlloc(free: set<nat>, first: nat, nr: nat)
    requires RangeAllocated(free, first, nr)
    ensures MapAlloc(MapFree(free, first, nr), first, nr) == free
  {
  }

  /** Allocating a free range and freeing it again restores the bitmap. */
  lemma MapAllocThenFree(free: set<nat>, first: nat, nr: nat)
    requires RangeFree(free, first, nr)
    ensures MapFree(MapAlloc(free, first, nr), first, nr) == free
  {
  }

  // ---------------------------------------------------------------------
  // The word-level bitmap

  const PagesPerMapword: nat := 64

  const AllOnes: bv64 := 0xffff_ffff_ffff_ffff

  /** A bit position within a map word. */
  type BitIndex = k: bv7 | k < 64

  /** 1 << k, the word with only bit k set. */
  function BitAt(k: BitIndex): bv64
  {
    1 << k
  }

  /** The word w has some bit of the mask s set. */
  predicate Has(w: bv64, s: bv64)
  {
    w & s != 0
  }

  /** Bit k (0 = least significant) of a word. */
  predicate BitOf(w: bv64, k: BitIndex)
  {
    Has(w, BitAt(k))
  }

  /** (1 << n) - 1: the bits below n. */
  function LowMask(n: BitIndex): (m: bv64)
    ensures forall k: BitIndex :: BitOf(m, k) <==> k < n
  {
    LowMaskBits(n);
    LowMaskOf(n)
  }

  /** -(1 << n): the bits at and above n. */
  function HighMask(n: BitIndex): (m: bv64)
    ensures forall k: BitIndex :: BitOf(m, k) <==> k >= n
  {
    HighMaskBits(n);
    HighMaskOf(n)
  }

  function LowMaskOf(n: BitIndex): bv64
  {
    BitAt(n) - 1
  }

  function HighMaskOf(n: BitIndex): bv64
  {
    0 - BitAt(n)
  }

  // The bit-vector facts below are stated on bare expressions; the solver
  // decides those by itself, and the lemmas over BitOf only instantiate them.

  lemma LowMaskBits(n: BitIndex)
    ensures forall k: BitIndex :: BitOf(LowMaskOf(n), k) <==> k < n
  {
    forall k: BitIndex
      ensures BitOf(LowMaskOf(n), k) <==> k < n
    {
      LowMaskBit(n, k);
    }
  }

  lemma LowMaskBit(n: bv7, k: bv7)
    requires n < 64 && k < 64
    ensures (((1 as bv64) << n) - 1) & ((1 as bv64) << k) != 0 <==> k < n
  {
  }

  lemma HighMaskBits(n: BitIndex)
    ensures forall k: BitIndex :: BitOf(HighMaskOf(n), k) <==> k >= n
  {
    forall k: BitIndex
      ensures BitOf(HighMaskOf(n), k) <==> k >= n
    {
      HighMaskBit(n, k);
    }
  }

  lemma HighMaskBit(n: bv7, k: bv7)
    requires n < 64 && k < 64
    ensures (0 - ((1 as bv64) << n)) & ((1 as bv64) << k) != 0 <==> k >= n
  {
  }

  /** a | b: a bit is set exactly when it is set in either word. */
  function Or(a: bv64, b: bv64): (r: bv64)
    ensures forall k: BitIndex :: BitOf(r, k) <==> BitOf(a, k) || BitOf(b, k)
  {
    forall k: BitIndex
      ensures BitOf(a | b, k) <==> BitOf(a, k) || BitOf(b, k)
    {
      OrBit(a, b, k);
    }
    a | b
  }

  /** a & b: a bit is set exactly when it is set in both words. */
  function And(a: bv64, b: bv64): (r: bv64)
    ensures forall k: BitIndex :: BitOf(r, k) <==> BitOf(a, k) && BitOf(b, k)
  {
    forall k: BitIndex
      ensures BitOf(a & b, k) <==> BitOf(a, k) && BitOf(b, k)
    {
      AndBit(a, b, k);
    }
    a & b
  }

  lemma OrBit(a: bv64, b: bv64, k: BitIndex)
    ensures BitOf(a | b, k) <==> BitOf(a, k) || BitOf(b, k)
  {
    OrMask(a, b, BitAt(k));
  }

  lemma OrMask(a: bv64, b: bv64, s: bv64)
    ensures Has(a | b, s) <==> Has(a, s) || Has(b, s)
  {
    OrMaskRaw(a, b, s);
  }

  lemma OrMaskRaw(a: bv64, b: bv64, s: bv64)
    ensures (a | b) & s != 0 <==> a & s != 0 || b & s != 0
  {
  }

  lemma AndBit(a: bv64, b: bv64, k: BitIndex)
    ensures BitOf(a & b, k) <==> BitOf(a, k) && BitOf(b, k)
  {
    var s := BitAt(k);
    AndMask(a, b, s);
    SingleBit(a, k);
    SingleBit(b, k);
    AndOfPart(a & s, b & s, s);
  }

  lemma AndMask(a: bv64, b: bv64, s: bv64)
    ensures (a & b) & s == (a & s) & (b & s)
  {
  }

  /** Masking a word with a single bit leaves that bit or nothing. */
  lemma SingleBit(x: bv64, k: BitIndex)
    ensures x & BitAt(k) == 0 || x & BitAt(k) == BitAt(k)
    ensures BitAt(k) != 0
  {
    SingleShift(x, k);
  }

  lemma SingleShift(x: bv64, k: bv7)
    requires k < 64
    ensures x & (1 << k) == 0 || x & (1 << k) == (1 << k)
    ensures (1 as bv64) << k != 0
  {
  }

  lemma AndOfPart(x: bv64, y: bv64, s: bv64)
    requires s != 0
    requires x == 0 || x == s
    requires y == 0 || y == s
    ensures x & y != 0 <==> x != 0 && y != 0
  {
  }

  lemma ConstBits(k: BitIndex)
    ensures BitOf(AllOnes, k)
    ensures !BitOf(0, k)
  {
    SingleBit(AllOnes, k);
    ConstMask(BitAt(k));
  }

  lemma ConstMask(s: bv64)
    ensures AllOnes & s == s
    ensures (0 as bv64) & s == 0
  {
  }

  /** The position of frame pfn within its map word. */
  function Offset(pfn: nat): (k: BitIndex)
    ensures k as int == pfn % PagesPerMapword
  {
    IndexRoundTrip(pfn % PagesPerMapword);
    (pfn % PagesPerMapword) as bv7
  }

  lemma IndexRoundTrip(x: nat)
    requires x < 64
    ensures (x as bv7) as int == x
  {
  }

  lemma Bv7Lt(x: bv7, y: bv7)
    ensures (x < y) <==> (x as int) < (y as int)
  {
  }

  /** allocated_in_map: the bit of frame pfn; frames past the words read as allocated. */
  predicate WordBit(words: seq<bv64>, pfn: nat)
  {
    pfn / PagesPerMapword < |words| ==> BitOf(words[pfn / PagesPerMapword], Offset(pfn))
  }

  /** The abstract bitmap a word array stands for: the frames whose bit is clear. */
  function FreeFrames(words: seq<bv64>): (free: set<nat>)
    ensures forall pfn :: pfn in free <==> !WordBit(words, pfn)
  {
    set pfn | 0 <= pfn < PagesPerMapword * |words| && !WordBit(words, pfn)
  }

  /**
   * Within the word that holds frame x, frame pfn lies at or above x exactly
   * when its offset does.
   */
  lemma SameWordOrder(pfn: nat, x: nat)
    requires pfn / PagesPerMapword == x / PagesPerMapword
    ensures pfn < x <==> Offset(pfn) < Offset(x)
    ensures pfn >= x <==> Offset(pfn) >= Offset(x)
  {
    Bv7Lt(Offset(pfn), Offset(x));
  }

  /** Frames in earlier words lie below x, frames in later words at or above it. */
  lemma WordOrder(pfn: nat, x: nat)
    ensures pfn / PagesPerMapword < x / PagesPerMapword ==> pfn < x
    ensures pfn / PagesPerMapword > x / PagesPerMapword ==> pfn >= x
  {
    var a, b := pfn / PagesPerMapword, x / PagesPerMapword;
    assert pfn == 64 * a + pfn % 64;
    assert x == 64 * b + x % 64;
    if a < b {
      assert 64 * a + 64 <= 64 * b;
    } else if a > b {
      assert 64 * b + 64 <= 64 * a;
    }
  }

  /**
   * Frames in words strictly between the first and the last word of
   * [first, first+nr) are inside the range; frames in words outside that
   * span are not.
   */
  lemma FrameOutside(pfn: nat, first: nat, nr: nat)
    ensures pfn / PagesPerMapword < first / PagesPerMapword ==> !InRange(pfn, first, nr)
    ensures pfn / PagesPerMapword > (first + nr) / PagesPerMapword ==> !InRange(pfn, first, nr)
    ensures first / PagesPerMapword < pfn / PagesPerMapword < (first + nr) / PagesPerMapword ==> InRange(pfn, first, nr)
  {
    WordOrder(pfn, first);
    WordOrder(pfn, first + nr);
  }

  /** In the word holding frame x, HighMask of x's offset selects the frames from x on. */
  lemma HighMaskFrame(pfn: nat, x: nat)
    requires pfn / PagesPerMapword == x / PagesPerMapword
    ensures pfn >= x <==> BitOf(HighMask(Offset(x)), Offset(pfn))
  {
    SameWordOrder(pfn, x);
  }

  /** In the word holding frame x, LowMask of x's offset selects the frames below x. */
  lemma LowMaskFrame(pfn: nat, x: nat)
    requires pfn / PagesPerMapword == x / PagesPerMapword
    ensures pfn < x <==> BitOf(LowMask(Offset(x)), Offset(pfn))
  {
    SameWordOrder(pfn, x);
  }

  /**
   * map_alloc on words (page_alloc.c:105-131).  The source keeps one spare
   * word after the last frame, so the word holding first+nr always exists.
   */
  method MapAllocWords(words: seq<bv64>, first: nat, nr: nat) returns (w: seq<bv64>)
    requires (first + nr) / PagesPerMapword < |words|
    requires forall pfn :: InRange(pfn, first, nr) ==> !WordBit(words, pfn)
    ensures |w| == |words|
    ensures forall pfn :: WordBit(w, pfn) <==> WordBit(words, pfn) || InRange(pfn, first, nr)
  {
    var currIdx := first / PagesPerMapword;
    var startOff := Offset(first);
    var endIdx := (first + nr) / PagesPerMapword;
    var endOff := Offset(first + nr);
    w := words;
    if currIdx == endIdx {
      w := w[currIdx := Or(w[currIdx], And(LowMask(endOff), HighMask(startOff)))];
      forall pfn: nat ensures WordBit(w, pfn) <==> WordBit(words, pfn) || InRange(pfn, first, nr) {
        AllocOneWord(words, w, first, nr, pfn);
      }
    } else {
      w := w[currIdx := Or(w[currIdx], HighMask(startOff))];
      currIdx := currIdx + 1;
      while currIdx < endIdx
        invariant first / PagesPerMapword < currIdx <= endIdx
        invariant |w| == |words|
        invariant w[first / PagesPerMapword] == Or(words[first / PagesPerMapword], HighMask(startOff))
        invariant forall j | first / PagesPerMapword < j < currIdx :: w[j] == AllOnes
        invariant forall j | 0 <= j < |w| && (j < first / PagesPerMapword || j >= currIdx) :: w[j] == words[j]
      {
        w := w[currIdx := AllOnes];
        currIdx := currIdx + 1;
      }
      w := w[currIdx := Or(w[currIdx], LowMask(endOff))];
      forall pfn: nat ensures WordBit(w, pfn) <==> WordBit(words, pfn) || InRange(pfn, first, nr) {
        AllocManyWords(words, w, first, nr, pfn);
      }
    }
  }

  /** One frame after map_alloc of a range that lies within one word. */
  lemma AllocOneWord(words: seq<bv64>, w: seq<bv64>, first: nat, nr: nat, pfn: nat)
    requires first / PagesPerMapword == (first + nr) / PagesPerMapword < |words| == |w|
    requires w[first / PagesPerMapword] ==
      Or(words[first / PagesPerMapword], And(LowMask(Offset(first + nr)), HighMask(Offset(first))))
    requires forall j | 0 <= j < |w| && j != first / PagesPerMapword :: w[j] == words[j]
    ensures WordBit(w, pfn) <==> WordBit(words, pfn) || InRange(pfn, first, nr)
  {
    var i := first / PagesPerMapword;
    if pfn / PagesPerMapword == i {
      AllocInWord(words[i], w[i], first, nr, pfn);
    } else {
      FrameOutside(pfn, first, nr);
      UntouchedFrame(words, w, pfn);
    }
  }

  lemma AllocInWord(ow: bv64, nw: bv64, first: nat, nr: nat, pfn: nat)
    requires pfn / PagesPerMapword == first / PagesPerMapword == (first + nr) / PagesPerMapword
    requires nw == Or(ow, And(LowMask(Offset(first + nr)), HighMask(Offset(first))))
    ensures BitOf(nw, Offset(pfn)) <==> BitOf(ow, Offset(pfn)) || InRange(pfn, first, nr)
  {
    InsideMask(pfn, first, nr);
  }

  /** Within a range's single word, the AND of its two masks selects exactly the range. */
  lemma InsideMask(pfn: nat, first: nat, nr: nat)
    requires pfn / PagesPerMapword == first / PagesPerMapword == (first + nr) / PagesPerMapword
    ensures BitOf(And(LowMask(Offset(first + nr)), HighMask(Offset(first))), Offset(pfn)) <==> InRange(pfn, first, nr)
  {
    HighMaskFrame(pfn, first);
    LowMaskFrame(pfn, first + nr);
  }

  /** Within a range's single word, the OR of the complementary masks selects exactly the rest. */
  lemma OutsideMask(pfn: nat, first: nat, nr: nat)
    requires pfn / PagesPerMapword == first / PagesPerMapword == (first + nr) / PagesPerMapword
    ensures BitOf(Or(HighMask(Offset(first + nr)), LowMask(Offset(first))), Offset(pfn)) <==> !InRange(pfn, first, nr)
  {
    HighMaskFrame(pfn, first + nr);
    LowMaskFrame(pfn, first);
  }

  /** A frame in a word that is the same in both arrays reads the same. */
  lemma UntouchedFrame(words: seq<bv64>, w: seq<bv64>, pfn: nat)
    requires |w| == |words|
    requires pfn / PagesPerMapword < |w| ==> w[pfn / PagesPerMapword] == words[pfn / PagesPerMapword]
    ensures WordBit(w, pfn) <==> WordBit(words, pfn)
  {
  }

  /** One frame after map_alloc of a range that spans several words. */
  lemma AllocManyWords(words: seq<bv64>, w: seq<bv64>, first: nat, nr: nat, pfn: nat)
    requires first / PagesPerMapword < (first + nr) / PagesPerMapword < |words| == |w|
    requires w[first / PagesPerMapword] == Or(words[first / PagesPerMapword], HighMask(Offset(first)))
    requires w[(first + nr) / PagesPerMapword] ==
      Or(words[(first + nr) / PagesPerMapword], LowMask(Offset(first + nr)))
    requires forall j | first / PagesPerMapword < j < (first + nr) / PagesPerMapword :: w[j] == AllOnes
    requires forall j | 0 <= j < |w| && (j < first / PagesPerMapword || j > (first + nr) / PagesPerMapword) ::
      w[j] == words[j]
    ensures WordBit(w, pfn) <==> WordBit(words, pfn) || InRange(pfn, first, nr)
  {
    var i, e, j := first / PagesPerMapword, (first + nr) / PagesPerMapword, pfn / PagesPerMapword;
    if j == i {
      AllocFirstWord(words[i], w[i], first, nr, pfn);
    } else if j == e {
      AllocLastWord(words[e], w[e], first, nr, pfn);
    } else if i < j < e {
      FrameOutside(pfn, first, nr);
      ConstBits(Offset(pfn));
    } else {
      FrameOutside(pfn, first, nr);
      UntouchedFrame(words, w, pfn);
    }
  }

  lemma AllocFirstWord(ow: bv64, nw: bv64, first: nat, nr: nat, pfn: nat)
    requires pfn / PagesPerMapword == first / PagesPerMapword < (first + nr) / PagesPerMapword
    requires nw == Or(ow, HighMask(Offset(first)))
    ensures BitOf(nw, Offset(pfn)) <==> BitOf(ow, Offset(pfn)) || InRange(pfn, first, nr)
  {
    HighMaskFrame(pfn, first);
    WordOrder(pfn, first + nr);
  }

  lemma AllocLastWord(ow: bv64, nw: bv64, first: nat, nr: nat, pfn: nat)
    requires first / PagesPerMapword < (first + nr) / PagesPerMapword == pfn / PagesPerMapword
    requires nw == Or(ow, LowMask(Offset(first + nr)))
    ensures BitOf(nw, Offset(pfn)) <==> BitOf(ow, Offset(pfn)) || InRange(pfn, first, nr)
  {
    LowMaskFrame(pfn, first + nr);
    WordOrder(pfn, first);
  }

  /** map_free on words (page_alloc.c:133-159). */
  method MapFreeWords(words: seq<bv64>, first: nat, nr: nat) returns (w: seq<bv64>)
    requires (first + nr) / PagesPerMapword < |words|
    requires forall pfn :: InRange(pfn, first, nr) ==> WordBit(words, pfn)
    ensures |w| == |words|
    ensures forall pfn :: WordBit(w, pfn) <==> WordBit(words, pfn) && !InRange(pfn, first, nr)
  {
    var currIdx := first / PagesPerMapword;
    var startOff := Offset(first);
    var endIdx := (first + nr) / PagesPerMapword;
    var endOff := Offset(first + nr);
    w := words;
    if currIdx == endIdx {
      w := w[currIdx := And(w[currIdx], Or(HighMask(endOff), LowMask(startOff)))];
      forall pfn: nat ensures WordBit(w, pfn) <==> WordBit(words, pfn) && !InRange(pfn, first, nr) {
        FreeOneWord(words, w, first, nr, pfn);
      }
    } else {
      w := w[currIdx := And(w[currIdx], LowMask(startOff))];
      currIdx := currIdx + 1;
      while currIdx != endIdx
        invariant first / PagesPerMapword < currIdx <= endIdx
        invariant |w| == |words|
        invariant w[first / PagesPerMapword] == And(words[first / PagesPerMapword], LowMask(startOff))
        invariant forall j | first / PagesPerMapword < j < currIdx :: w[j] == 0
        invariant forall j | 0 <= j < |w| && (j < first / PagesPerMapword || j >= currIdx) :: w[j] == words[j]
        decreases endIdx - currIdx
      {
        w := w[currIdx := 0];
        currIdx := currIdx + 1;
      }
      w := w[currIdx := And(w[currIdx], HighMask(endOff))];
      forall pfn: nat ensures WordBit(w, pfn) <==> WordBit(words, pfn) && !InRange(pfn, first, nr) {
        FreeManyWords(words, w, first, nr, pfn);
      }
    }
  }

  /** One frame after map_free of a range that lies within one word. */
  lemma FreeOneWord(words: seq<bv64>, w: seq<bv64>, first: nat, nr: nat, pfn: nat)
    requires first / PagesPerMapword == (first + nr) / PagesPerMapword < |words| == |w|
    requires w[first / PagesPerMapword] ==
      And(words[first / PagesPerMapword], Or(HighMask(Offset(first + nr)), LowMask(Offset(first))))
    requires forall j | 0 <= j < |w| && j != first / PagesPerMapword :: w[j] == words[j]
    ensures WordBit(w, pfn) <==> WordBit(words, pfn) && !InRange(pfn, first, nr)
  {
    var i := first / PagesPerMapword;
    if pfn / PagesPerMapword == i {
      FreeInWord(words[i], w[i], first, nr, pfn);
    } else {
      FrameOutside(pfn, first, nr);
      UntouchedFrame(words, w, pfn);
    }
  }

  lemma FreeInWord(ow: bv64, nw: bv64, first: nat, nr: nat, pfn: nat)
    requires pfn / PagesPerMapword == first / PagesPerMapword == (first + nr) / PagesPerMapword
    requires nw == And(ow, Or(HighMask(Offset(first + nr)), LowMask(Offset(first))))
    ensures BitOf(nw, Offset(pfn)) <==> BitOf(ow, Offset(pfn)) && !InRange(pfn, first, nr)
  {
    OutsideMask(pfn, first, nr);
  }

  /** One frame after map_free of a range that spans several words. */
  lemma FreeManyWords(words: seq<bv64>, w: seq<bv64>, first: nat, nr: nat, pfn: nat)
    requires first / PagesPerMapword < (first + nr) / PagesPerMapword < |words| == |w|
    requires w[first / PagesPerMapword] == And(words[first / PagesPerMapword], LowMask(Offset(first)))
    requires w[(first + nr) / PagesPerMapword] ==
      And(words[(first + nr) / PagesPerMapword], HighMask(Offset(first + nr)))
    requires forall j | first / PagesPerMapword < j < (first + nr) / PagesPerMapword :: w[j] == 0
    requires forall j | 0 <= j < |w| && (j < first / PagesPerMapword || j > (first + nr) / PagesPerMapword) ::
      w[j] == words[j]
    ensures WordBit(w, pfn) <==> WordBit(words, pfn) && !InRange(pfn, first, nr)
  {
    var i, e, j := first / PagesPerMapword, (first + nr) / PagesPerMapword, pfn / PagesPerMapword;
    if j == i {
      FreeFirstWord(words[i], w[i], first, nr, pfn);
    } else if j == e {
      FreeLastWord(words[e], w[e], first, nr, pfn);
    } else if i < j < e {
      FrameOutside(pfn, first, nr);
      ConstBits(Offset(pfn));
    } else {
      FrameOutside(pfn, first, nr);
      UntouchedFrame(words, w, pfn);
    }
  }

  lemma FreeFirstWord(ow: bv64, nw: bv64, first: nat, nr: nat, pfn: nat)
    requires pfn / PagesPerMapword == first / PagesPerMapword < (first + nr) / PagesPerMapword
    requires nw == And(ow, LowMask(Offset(first)))
    ensures BitOf(nw, Offset(pfn)) <==> BitOf(ow, Offset(pfn)) && !InRange(pfn, first, nr)
  {
    LowMaskFrame(pfn, first);
    WordOrder(pfn, first + nr);
  }

  lemma FreeLastWord(ow: bv64, nw: bv64, first: nat, nr: nat, pfn: nat)
    requires first / PagesPerMapword < (first + nr) / PagesPerMapword == pfn / PagesPerMapword
    requires nw == And(ow, HighMask(Offset(first + nr)))
    ensures BitOf(nw, Offset(pfn)) <==> BitOf(ow, Offset(pfn)) && !InRange(pfn, first, nr)
  {
    HighMaskFrame(pfn, first + nr);
    WordOrder(pfn, first);
  }

  /** The word-mask map_alloc changes the abstract bitmap exactly as MapAlloc does. */
  method MapAllocRefines(words: seq<bv64>, first: nat, nr: nat) returns (w: seq<bv64>)
    requires (first + nr) / PagesPerMapword < |words|
    requires RangeFree(FreeFrames(words), first, nr)
    ensures FreeFrames(w) == MapAlloc(FreeFrames(words), first, nr)
  {
    w := MapAllocWords(words, first, nr);
    assert forall pfn :: pfn in FreeFrames(w) <==> pfn in MapAlloc(FreeFrames(words), first, nr);
  }

  /** The word-mask map_free changes the abstract bitmap exactly as MapFree does. */
  method MapFreeRefines(words: seq<bv64>, first: nat, nr: nat) returns (w: seq<bv64>)
    requires (first + nr) / PagesPerMapword < |words|
    requires RangeAllocated(FreeFrames(words), first, nr)
    ensures FreeFrames(w) == MapFree(FreeFrames(words), first, nr)
  {
    w := MapFreeWords(words, first, nr);
    assert forall pfn :: pfn in FreeFrames(w) <==> pfn in MapFree(FreeFrames(words), first, nr);
  }
}
