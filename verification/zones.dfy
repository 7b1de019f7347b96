/**
 * Memory zones of the buddy heap (page_alloc.c:263-271).
 *
 * A frame's zone is the position of the highest set bit of its frame
 * number, so zone z holds the frames in [2^z, 2^(z+1)).  bits_to_zone maps
 * an address width to the highest zone all of whose frames are addressable
 * with that many bits.  The platform is x86_64: PAGE_SHIFT is 12 and
 * physical addresses have 52 bits, so there are 40 zones.
 */
module Zones {
  import opened Arith

  const PageShift: nat := 12
  const PaddrBits: nat := 52
  /** NR_ZONES: one zone per frame-number bit. */
  const NrZones: nat := PaddrBits - PageShift
  /** MEMZONE_XEN: the zone reported for Xen-heap pages. */
  const MemzoneXen: nat := 0

  /** bits_to_zone: widths up to PAGE_SHIFT map to zone 0, wider ones to b - PAGE_SHIFT - 1. */
  function BitsToZone(b: nat): (z: nat)
    ensures b <= PageShift ==> z == 0
    ensures b > PageShift ==> z + PageShift + 1 == b
  {
    if b < PageShift + 1 then 0 else b - PageShift - 1
  }

  /**
   * page_to_zone: Xen-heap pages are in MEMZONE_XEN, other pages in
   * fls(mfn) - 1.  For frame 0 fls is 0 and the result is -1 (the source's
   * unsigned arithmetic turns it into a huge zone number).
   */
  function PageToZone(mfn: nat, xenHeap: bool): (z: int)
    ensures xenHeap ==> z == MemzoneXen
    ensures !xenHeap && mfn == 0 ==> z == -1
    ensures !xenHeap && mfn >= 1 ==> z >= 0 && Pow2(z) <= mfn < Pow2(z + 1)
  {
    if xenHeap then MemzoneXen
    else
      if mfn >= 1 then FlsBounds(mfn); Fls(mfn) - 1
      else Fls(mfn) - 1
  }

  /** The zone of a heap frame; heap frames are never frame 0. */
  function Zone(f: nat): (z: nat)
    ensures f >= 1 ==> z == PageToZone(f, false)
  {
    if f == 0 then 0 else Fls(f) - 1
  }

  /** Zone z holds exactly the frames in [2^z, 2^(z+1)). */
  lemma ZoneRange(f: nat, z: nat)
    requires f >= 1
    ensures Zone(f) == z <==> Pow2(z) <= f < Pow2(z + 1)
  {
    FlsBounds(f);
    if Pow2(z) <= f < Pow2(z + 1) {
      FlsUnique(f, z + 1);
    }
  }

  /** Zones are ordered like the frames in them. */
  lemma ZoneMonotone(f: nat, g: nat)
    requires 1 <= f <= g
    ensures Zone(f) <= Zone(g)
  {
    FlsBounds(f);
    FlsBounds(g);
    if Zone(f) > Zone(g) {
      Pow2Monotone(Zone(g) + 1, Zone(f));
    }
  }

  /** Every frame of an aligned block above frame 0 lies in the zone of the block's head. */
  lemma ZoneOfBlock(b: nat, o: nat, f: nat)
    requires b >= 1 && Aligned(b, o)
    requires b <= f < b + Pow2(o)
    ensures Zone(f) == Zone(b)
  {
    FlsConstantOnBlock(b, o, f);
  }

  /**
   * A frame is in a zone at or below bits_to_zone(b) exactly when every
   * byte of it has an address below 2^b; this is what lets a caller with an
   * address-width limit of b bits ask for zones up to bits_to_zone(b).
   */
  lemma BitsToZoneAddressable(b: nat, f: nat)
    requires b > PageShift
    requires f >= 1
    ensures Zone(f) <= BitsToZone(b) <==> f < Pow2(b - PageShift)
  {
    var zb := BitsToZone(b);
    assert zb + 1 == b - PageShift;
    FlsBounds(f);
    if Zone(f) <= zb {
      Pow2Monotone(Zone(f) + 1, zb + 1);
    } else {
      Pow2Monotone(zb + 1, Zone(f));
    }
  }

  /** The last byte of frame f has an address below 2^b exactly when f < 2^(b - PAGE_SHIFT). */
  lemma FrameAddressBound(b: nat, f: nat)
    requires b >= PageShift
    ensures f * Pow2(PageShift) + Pow2(PageShift) - 1 < Pow2(b) <==> f < Pow2(b - PageShift)
  {
    var p := Pow2(PageShift);
    Pow2Add(b - PageShift, PageShift);
    var q := Pow2(b - PageShift);
    assert Pow2(b) == q * p;
    MulLeIff(p, f + 1, q);
    assert (f + 1) * p == f * p + p;
    assert p * (f + 1) == (f + 1) * p;
    assert p * q == q * p;
  }
}
