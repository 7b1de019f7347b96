/**
 * Powers of two, block alignment and "find last set bit": the integer
 * arithmetic that the page allocator's buddy system is built on.
 */
module Arith {

  /** 2^n, the number of frames in a block of order n. */
  function Pow2(n: nat): (r: nat)
    ensures r >= 1
  {
    if n == 0 then 1 else 2 * Pow2(n - 1)
  }

  lemma {:induction false} Pow2Add(a: nat, b: nat)
    ensures Pow2(a + b) == Pow2(a) * Pow2(b)
  {
    if a == 0 {
    } else {
      Pow2Add(a - 1, b);
      var x, y := Pow2(a - 1), Pow2(b);
      assert Pow2(a + b) == 2 * Pow2(a - 1 + b);
      assert 2 * (x * y) == (2 * x) * y;
    }
  }

  lemma {:induction false} Pow2Monotone(a: nat, b: nat)
    requires a <= b
    ensures Pow2(a) <= Pow2(b)
  {
    if a < b {
      Pow2Monotone(a, b - 1);
    }
  }

  /** Powers of two are ordered like their exponents. */
  lemma Pow2Less(a: nat, b: nat)
    ensures a < b <==> Pow2(a) < Pow2(b)
  {
    if a < b {
      Pow2Monotone(a + 1, b);
    } else {
      Pow2Monotone(b, a);
    }
  }

  /** A frame number is aligned to order o when it is a multiple of 2^o. */
  predicate Aligned(x: nat, o: nat)
  {
    x % Pow2(o) == 0
  }

  /** Every multiple of d*k is a multiple of d. */
  lemma MultipleOfMultiple(x: nat, d: nat, k: nat)
    requires d >= 1 && k >= 1
    requires x % (d * k) == 0
    ensures x % d == 0
  {
    var q := x / (d * k);
    assert x == (d * k) * q;
    assert x == d * (k * q);
    MulMod(d, k * q);
  }

  /** Division and remainder are determined by any decomposition x = d*q + r with 0 <= r < d. */
  lemma DivModUnique(x: int, d: int, q: int, r: int)
    requires d > 0 && 0 <= r < d
    requires x == d * q + r
    ensures x / d == q && x % d == r
  {
    var q', r' := x / d, x % d;
    assert x == d * q' + r';
    assert d * (q - q') == r' - r;
    if q > q' {
      MulAtLeast(d, q - q');
    } else if q < q' {
      MulAtLeast(d, q' - q);
    }
  }

  lemma MulAtLeast(d: int, k: int)
    requires d > 0 && k >= 1
    ensures d * k >= d
  {
  }

  /** For a positive factor d, d*a <= d*b holds exactly when a <= b. */
  lemma MulLeIff(d: int, a: int, b: int)
    requires d > 0
    ensures d * a <= d * b <==> a <= b
  {
    if a <= b {
      assert d * b - d * a == d * (b - a);
    } else {
      assert d * a - d * b == d * (a - b);
      MulAtLeast(d, a - b);
    }
  }

  lemma MulMod(d: nat, q: nat)
    requires d >= 1
    ensures (d * q) % d == 0
    ensures (d * q) / d == q
  {
    DivModUnique(d * q, d, q, 0);
  }

  /** Alignment to a larger order implies alignment to every smaller one. */
  lemma AlignedWeaken(x: nat, o: nat, o': nat)
    requires o' <= o
    requires Aligned(x, o)
    ensures Aligned(x, o')
  {
    Pow2Add(o', o - o');
    MultipleOfMultiple(x, Pow2(o'), Pow2(o - o'));
  }

  lemma AlignedAdd(x: nat, y: nat, o: nat)
    requires Aligned(x, o) && Aligned(y, o)
    ensures Aligned(x + y, o)
  {
    var d := Pow2(o);
    var qx, qy := x / d, y / d;
    assert x == d * qx;
    assert y == d * qy;
    assert x + y == d * (qx + qy);
    MulMod(d, qx + qy);
  }

  lemma AlignedSub(x: nat, y: nat, o: nat)
    requires y <= x
    requires Aligned(x, o) && Aligned(y, o)
    ensures Aligned(x - y, o)
  {
    var d := Pow2(o);
    var qx, qy := x / d, y / d;
    assert x == d * qx;
    assert y == d * qy;
    MulLeIff(d, qy, qx);
    assert x - y == d * (qx - qy);
    MulMod(d, qx - qy);
  }

  /** 2^o is aligned to every order up to o. */
  lemma Pow2Aligned(o: nat, o': nat)
    requires o' <= o
    ensures Aligned(Pow2(o), o')
  {
    Pow2Add(o', o - o');
    MulMod(Pow2(o'), Pow2(o - o'));
  }

  /** Between two multiples of d there is a gap of at least d. */
  lemma AlignedGap(x: nat, y: nat, o: nat)
    requires Aligned(x, o) && Aligned(y, o)
    requires x < y
    ensures x + Pow2(o) <= y
  {
    var d := Pow2(o);
    var qx, qy := x / d, y / d;
    assert x == d * qx;
    assert y == d * qy;
    MulLeIff(d, qy, qx);
    MulLeIff(d, qx + 1, qy);
    assert d * (qx + 1) == d * qx + d;
  }

  /**
   * The buddy of an aligned block: bit o of its base decides whether the
   * block is the upper or the lower half of its parent block at order o+1.
   */
  predicate UpperHalf(x: nat, o: nat)
  {
    (x / Pow2(o)) % 2 == 1
  }

  lemma ParentAligned(x: nat, o: nat)
    requires Aligned(x, o)
    ensures UpperHalf(x, o) ==> x >= Pow2(o) && Aligned(x - Pow2(o), o + 1)
    ensures !UpperHalf(x, o) ==> Aligned(x, o + 1)
  {
    var d := Pow2(o);
    var q := x / d;
    assert x == d * q;
    assert Pow2(o + 1) == 2 * d;
    if q % 2 == 1 {
      var h := q / 2;
      assert q == 2 * h + 1;
      assert x == d * (2 * h + 1);
      assert x - d == (2 * d) * h;
      MulMod(2 * d, h);
    } else {
      var h := q / 2;
      assert q == 2 * h;
      assert x == (2 * d) * h;
      MulMod(2 * d, h);
    }
  }

  /** A number with bit o set is at least 2^o. */
  lemma UpperHalfBound(x: nat, o: nat)
    ensures UpperHalf(x, o) ==> x >= Pow2(o)
  {
    if x < Pow2(o) {
      DivModUnique(x, Pow2(o), 0, x);
    }
  }

  /** The two halves of an aligned parent block differ only in bit o. */
  lemma HalvesOfParent(p: nat, o: nat)
    requires Aligned(p, o + 1)
    ensures Aligned(p, o) && !UpperHalf(p, o)
    ensures Aligned(p + Pow2(o), o) && UpperHalf(p + Pow2(o), o)
  {
    assert Pow2(o + 1) == 2 * Pow2(o);
    Halves(p, Pow2(o));
  }

  lemma Halves(p: nat, d: nat)
    requires d >= 1
    requires p % (2 * d) == 0
    ensures p % d == 0 && (p / d) % 2 == 0
    ensures (p + d) % d == 0 && ((p + d) / d) % 2 == 1
  {
    var h := p / (2 * d);
    assert p == (2 * d) * h;
    assert p == d * (2 * h);
    MulMod(d, 2 * h);
    assert p + d == d * (2 * h + 1);
    MulMod(d, 2 * h + 1);
  }

  /**
   * Aligned blocks nest: if the base of a block of order o2 lies inside an
   * aligned block of a larger order o1, the whole smaller block lies inside.
   */
  lemma AlignedNest(b1: nat, o1: nat, b2: nat, o2: nat)
    requires o2 <= o1
    requires Aligned(b1, o1) && Aligned(b2, o2)
    requires b1 <= b2 < b1 + Pow2(o1)
    ensures b2 + Pow2(o2) <= b1 + Pow2(o1)
  {
    AlignedWeaken(b1, o1, o2);
    Pow2Aligned(o1, o2);
    AlignedAdd(b1, Pow2(o1), o2);
    AlignedGap(b2, b1 + Pow2(o1), o2);
  }

  /** The aligned block of order o that contains frame x starts at AlignDown(x, o). */
  function AlignDown(x: nat, o: nat): (r: nat)
    ensures r <= x < r + Pow2(o)
    ensures Aligned(r, o)
  {
    AlignDownAligned(x, o);
    x - x % Pow2(o)
  }

  lemma AlignDownAligned(x: nat, o: nat)
    ensures x % Pow2(o) <= x
    ensures Aligned(x - x % Pow2(o), o)
    ensures x < x - x % Pow2(o) + Pow2(o)
  {
    RoundDown(x, Pow2(o));
  }

  /** x - x % d is the largest multiple of d not above x. */
  lemma RoundDown(x: nat, d: nat)
    requires d >= 1
    ensures x % d <= x
    ensures (x - x % d) % d == 0
    ensures x < x - x % d + d
  {
    var q := x / d;
    assert x - x % d == d * q;
    MulMod(d, q);
  }

  /** An aligned block of order o is the only aligned one of that order holding its frames. */
  lemma AlignedUnique(b: nat, c: nat, o: nat)
    requires Aligned(b, o) && Aligned(c, o)
    requires b <= c < b + Pow2(o)
    ensures b == c
  {
    if b < c {
      AlignedGap(b, c, o);
    }
  }

  /** fls: one-based index of the most significant set bit, 0 for 0. */
  function Fls(x: nat): (r: nat)
    ensures x >= 1 ==> r >= 1
    ensures r <= x
  {
    if x == 0 then 0 else 1 + Fls(x / 2)
  }

  /** fls(x) - 1 is the base-2 logarithm of x rounded down. */
  lemma {:induction false} FlsBounds(x: nat)
    requires x >= 1
    ensures Pow2(Fls(x) - 1) <= x < Pow2(Fls(x))
  {
    if x == 1 {
    } else {
      FlsBounds(x / 2);
    }
  }

  /** fls is determined by the power-of-two interval a number falls in. */
  lemma {:induction false} FlsUnique(x: nat, k: nat)
    requires k >= 1
    requires Pow2(k - 1) <= x < Pow2(k)
    ensures Fls(x) == k
  {
    if k == 1 {
    } else {
      FlsUnique(x / 2, k - 1);
    }
  }

  /** All frames of an aligned block that does not contain frame 0 share their fls. */
  lemma FlsConstantOnBlock(b: nat, o: nat, f: nat)
    requires b >= 1 && Aligned(b, o)
    requires b <= f < b + Pow2(o)
    ensures Fls(f) == Fls(b)
  {
    FlsBounds(b);
    var k := Fls(b);
    assert b >= Pow2(o) by {
      if b < Pow2(o) {
        AlignedGap(0, b, o);
      }
    }
    assert o < k by {
      if k <= o {
        Pow2Monotone(k, o);
      }
    }
    Pow2Aligned(k, o);
    AlignedGap(b, Pow2(k), o);
    FlsUnique(f, k);
  }
}
