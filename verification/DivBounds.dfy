/** The numeric bounds on which the division routines of libbf.c rest, stated
    over integers. No limb buffer appears here. */
module DivBounds {
  import opened Arith

  /** What udiv1norm_init computes: floor((b^2 - 1) / d) - b. */
  ghost predicate IsInverse(b: nat, d: nat, m: nat)
  {
    (b + m) * d < b * b <= (b + m) * d + d
  }

  lemma InverseFits(b: nat, d: nat, m: int)
    requires 2 * d >= b > d && m == ((b - d - 1) * b + (b - 1)) / d
    ensures 0 <= m < b && IsInverse(b, d, m)
  {
    var a := (b - d - 1) * b + (b - 1);
    assert a == b * b - b * d - 1 by { Distrib(b - d, 1, b); Distrib(b, d, b); MulComm(b, d); }
    MulNonNeg(b - d - 1, b);
    DivMod(a, d);
    assert (b + m) * d == b * d + m * d by { Distrib(b, m, d); }
    assert m * d < b * d by {
      MulMono(b, 2 * d, b);
      assert (2 * d) * b == b * d + b * d;
    }
    MulCancelLess(m, b, d);
    MulCancelLess(-1, m, d);
  }

  /** Granlund and Montgomery's estimate is exact or one too small. Here t is the
      top bit of a0 and y the high limb of m * (a1 + t) + a0 + t * (d - b). */
  lemma EstimateWithin(b: nat, d: nat, m: nat, a1: nat, a0: nat, t: nat, y: int, x0: int)
    requires 2 * d >= b > d && a1 < d && a0 < b && IsInverse(b, d, m)
    requires t == 0 ==> 2 * a0 < b
    requires t == 1 ==> 2 * a0 >= b
    requires t <= 1 && 0 <= x0 < b
    requires y * b + x0 == m * (a1 + t) + a0 + t * (d - b)
    ensures 0 <= a1 * b + a0 - (a1 + y) * d < 2 * d
  {
    var e, k := b - d, b * b - (b + m) * d;
    var delta := a1 * b + a0 - (a1 + y) * d;
    EstimateError(b, d, m, a1, a0, t, y, x0);
    var low := EstimateLow(b, d, a0, t, k);
    LowBounds(b, d, a0, t, k);
    assert b * delta == low + a1 * k + d * x0;
    assert 0 <= a1 * k <= (d - 1) * d by { MulNonNeg(a1, k); MulMono(a1, d - 1, k); MulMono(k, d, d - 1); }
    assert 0 <= d * x0 <= d * b - d by { MulNonNeg(d, x0); MulMono(x0, b - 1, d); Distrib(b, 1, d); }
    assert (d - 1) * e + (d - 1) * d == d * b - b by { Distrib(e, d, d - 1); Distrib(d, 1, b); }
    Conclude(b, d, delta, low + a1 * k + d * x0);
  }

  lemma Conclude(b: nat, d: nat, delta: int, v: int)
    requires b > 0 && b * delta == v && 0 <= v < d * b + d * b
    ensures 0 <= delta < 2 * d
  {
    MulComm(b, delta);
    assert d * b + d * b == (2 * d) * b by { Distrib(d, d, b); }
    MulCancelLess(delta, 2 * d, b);
    MulCancelLess(-1, delta, b);
  }

  ghost function EstimateLow(b: int, d: int, a0: int, t: int, k: int): int
  {
    if t == 0 then a0 * (b - d) else a0 * (b - d) - (b - d) * (b - d) + k
  }

  lemma LowBounds(b: nat, d: nat, a0: nat, t: nat, k: nat)
    requires 2 * d >= b > d && a0 < b && t <= 1
    requires t == 0 ==> 2 * a0 < b
    requires t == 1 ==> 2 * a0 >= b
    ensures 0 <= EstimateLow(b, d, a0, t, k) <= (d - 1) * (b - d) + k
  {
    var e := b - d;
    if t == 0 {
      MulMono(a0, d - 1, e);
      MulNonNeg(a0, e);
    } else {
      Distrib(a0, e, e);
      MulMono(a0 - e, d - 1, e);
      MulNonNeg(a0 - e, e);
    }
  }

  lemma EstimateError(b: int, d: int, m: int, a1: int, a0: int, t: int, y: int, x0: int)
    requires t == 0 || t == 1
    requires y * b + x0 == m * (a1 + t) + a0 + t * (d - b)
    ensures var k := b * b - (b + m) * d;
            b * (a1 * b + a0 - (a1 + y) * d) == EstimateLow(b, d, a0, t, k) + a1 * k + d * x0
  {
    var k := b * b - (b + m) * d;
    var x := m * (a1 + t) + a0 + t * (d - b);
    calc {
      b * (a1 * b + a0 - (a1 + y) * d);
      b * (a1 * b) + b * a0 - b * ((a1 + y) * d);
      { assert b * ((a1 + y) * d) == (a1 * b) * d + (y * b) * d; }
      b * (a1 * b) + b * a0 - (a1 * b) * d - (y * b) * d;
      { assert (y * b) * d == (x - x0) * d; Distrib(x, x0, d); }
      b * (a1 * b) + b * a0 - (a1 * b) * d - x * d + x0 * d;
      { ExpandEstimate(b, d, m, a1, a0, t); }
      a1 * k + EstimateLow(b, d, a0, t, k) + x0 * d;
    }
  }

  lemma ExpandEstimate(b: int, d: int, m: int, a1: int, a0: int, t: int)
    requires t == 0 || t == 1
    ensures b * (a1 * b) + b * a0 - (a1 * b) * d - (m * (a1 + t) + a0 + t * (d - b)) * d
         == a1 * (b * b - (b + m) * d) + EstimateLow(b, d, a0, t, b * b - (b + m) * d)
  {
    ExpandBase(b, d, m, a1);
    Distrib(b, d, a0);
    Distrib(m * a1, a0, d);
    if t == 1 { ExpandTop(b, d, m, a1, a0); }
  }

  lemma ExpandBase(b: int, d: int, m: int, a1: int)
    ensures b * (a1 * b) - (a1 * b) * d - (m * a1) * d == a1 * (b * b - (b + m) * d)
  {
    Distrib(b, m, d);
    Distrib(b * b, (b + m) * d, a1);
    Distrib(b * d, m * d, a1);
    assert a1 * (b * b) == b * (a1 * b);
    assert a1 * (b * d) == (a1 * b) * d;
    assert a1 * (m * d) == (m * a1) * d;
  }

  lemma ExpandTop(b: int, d: int, m: int, a1: int, a0: int)
    ensures (m * (a1 + 1) + a0 + 1 * (d - b)) * d
         == (m * a1 + a0) * d + (b - d) * (b - d) - (b * b - (b + m) * d)
  {
    Distrib(a1, 1, m);
    Distrib(m * a1 + a0, m + d - b, d);
    Distrib(m + d, b, d);
    Distrib(m, d, d);
    Distrib(b, d, b - d);
    Distrib(b, d, b);
    Distrib(b, d, d);
    Distrib(b, m, d);
  }

  /** Knuth's bound. The divisor is v = b1 * p + v0, the dividend window is
      t = al * p + t0, and the estimate q satisfies q * b1 <= al. */
  lemma EstimateNotTooLarge(base: nat, q: nat, b1: nat, v: nat, t: nat, al: nat, p: nat)
    requires q < base <= 2 * b1 && p > 0
    requires q * b1 <= al && al * p <= t && b1 * p <= v < (b1 + 1) * p
    ensures (q - 2) * v <= t
  {
    assert q * v <= q * ((b1 + 1) * p) by { MulMono(v, (b1 + 1) * p, q); }
    assert q * ((b1 + 1) * p) == (q * b1) * p + q * p;
    MulMono(q * b1, al, p);
    MulMono(q, 2 * b1, p);
    assert (2 * b1) * p == 2 * (b1 * p);
    assert (q - 2) * v == q * v - 2 * v by { Distrib(q, 2, v); }
    assert q * p < 2 * v by { MulStrict(q, 2 * b1, p); }
  }

  /** The estimate is never too small: al < (q + 1) * b1. */
  lemma EstimateNotTooSmall(q: nat, b1: nat, v: nat, t: nat, al: nat, p: nat)
    requires al < (q + 1) * b1 && t < (al + 1) * p && b1 * p <= v && p > 0
    ensures t < (q + 1) * v
  {
    MulMono(al + 1, (q + 1) * b1, p);
    MulMono(b1 * p, v, q + 1);
    MulAssoc(q + 1, b1, p);
  }

  /** One step of algorithm 3.5 of Brent and Zimmermann. With bl = B^l and
      bh = B^h, the dividend is (bl * bh)^2, xh the reciprocal of the h top limbs,
      t what xh leaves over, and the new reciprocal is xh * bl + y. The residue e
      of the new reciprocal is positive and below twice the divisor. */
  lemma RecipStep(a: nat, xh: nat, bl: nat, bh: nat, c: nat, t: nat, tm: nat, t0: nat, y: nat, u0: nat)
    requires bl > 0 && bh > 0 && c * bl == bh * bh && 6 * bl <= bh
    requires bl * bh <= 2 * a
    requires t + a * xh == bl * (bh * bh) && 0 < t <= 2 * a
    requires t == tm * bl + t0 && t0 < bl
    requires tm * xh == y * c + u0 && u0 < c
    requires a < bl * bh
    ensures a * (xh * bl + y) < (bl * bh) * (bl * bh) < a * (xh * bl + y + 2)
  {
    var e, v := bl * t - a * y, (bh * bh) * t0 + tm * t;
    RecipError(a, xh, bl, bh, c, t, tm, t0, y, u0);
    RecipResidue(a, xh, bl, bh, t, y);
    RecipSmall(a, bl, bh, c, t, tm, t0);
    RecipConclude(a, c, e, v, u0);
    Distrib(xh * bl + y, 2, a);
  }

  lemma RecipConclude(a: nat, c: nat, e: int, v: int, u0: nat)
    requires c * e == v + a * u0 && 0 < v <= c * a && u0 < c
    ensures 0 < e < 2 * a
  {
    MulNonNeg(a, u0);
    assert a > 0;
    MulStrict(u0, c, a);
    MulComm(c, e);
    MulCancelLess(0, e, c);
    assert c * a + c * a == (2 * a) * c by { Distrib(a, a, c); }
    MulCancelLess(e, 2 * a, c);
  }

  lemma RecipResidue(a: int, xh: int, bl: int, bh: int, t: int, y: int)
    requires t + a * xh == bl * (bh * bh)
    ensures (bl * bh) * (bl * bh) - a * (xh * bl + y) == bl * t - a * y
  {
    assert (bl * bh) * (bl * bh) == bl * (bl * (bh * bh));
    assert bl * (t + a * xh) == bl * t + a * (xh * bl);
    Distrib(xh * bl, y, a);
  }

  /** The residue, scaled, is a sum of three non-negative terms. */
  lemma RecipError(a: int, xh: int, bl: int, bh: int, c: int, t: int, tm: int, t0: int, y: int, u0: int)
    requires c * bl == bh * bh
    requires t + a * xh == bl * (bh * bh)
    requires t == tm * bl + t0
    requires tm * xh == y * c + u0
    ensures c * (bl * t - a * y) == (bh * bh) * t0 + tm * t + a * u0
  {
    var d := bh * bh;
    assert c * (bl * t) == d * t by { MulAssoc(c, bl, t); }
    assert c * (a * y) == a * (tm * xh) - a * u0 by {
      assert c * (a * y) == a * (y * c);
      Distrib(tm * xh, u0, a);
    }
    assert a * (tm * xh) == tm * (a * xh);
    assert tm * (a * xh) == tm * (bl * d) - tm * t by { Distrib(bl * d, t, tm); }
    assert tm * (bl * d) == (tm * bl) * d by { MulAssoc(tm, bl, d); }
    assert d * t == (tm * bl) * d + t0 * d by { Distrib(tm * bl, t0, d); }
    Distrib(bl * t, a * y, c);
  }

  lemma RecipSmall(a: nat, bl: nat, bh: nat, c: nat, t: nat, tm: nat, t0: nat)
    requires bl > 0 && bh > 0 && c * bl == bh * bh && 6 * bl <= bh
    requires bl * bh <= 2 * a && a < bl * bh && 0 < t <= 2 * a
    requires t == tm * bl + t0 && t0 < bl
    ensures 0 < (bh * bh) * t0 + tm * t <= c * a
  {
    SmallT0(a, bl, bh, t0);
    SmallTm(a, bl, bh, t, tm, t0);
    SmallScale(a, bl, bh, c);
    SmallPositive(bl, bh, t, tm, t0);
    Distrib((bh * bh) * t0, tm * t, bl);
    MulComm(bl, c * a);
    MulCancelLeq((bh * bh) * t0 + tm * t, c * a, bl);
  }

  lemma SmallT0(a: nat, bl: nat, bh: nat, t0: nat)
    requires bl * bh <= 2 * a && t0 < bl
    ensures ((bh * bh) * t0) * bl <= 2 * (a * (bl * bh))
  {
    var m := bl * bh;
    MulMono(t0, bl, (bh * bh) * bl);
    assert ((bh * bh) * t0) * bl == t0 * ((bh * bh) * bl);
    assert bl * ((bh * bh) * bl) == m * m;
    MulMono(m, 2 * a, m);
  }

  lemma SmallTm(a: nat, bl: nat, bh: nat, t: nat, tm: nat, t0: nat)
    requires a < bl * bh && t <= 2 * a && t == tm * bl + t0
    ensures (tm * t) * bl <= 4 * (a * (bl * bh))
  {
    assert (tm * t) * bl == (tm * bl) * t;
    MulMono(tm * bl, 2 * a, t);
    MulMono(t, 2 * a, 2 * a);
    assert (2 * a) * (2 * a) == 4 * (a * a);
    MulMono(a, bl * bh, a);
  }

  lemma SmallScale(a: nat, bl: nat, bh: nat, c: nat)
    requires c * bl == bh * bh && 6 * bl <= bh
    ensures 6 * (a * (bl * bh)) <= bl * (c * a)
  {
    MulMono(6 * bl, bh, bh);
    MulMono((6 * bl) * bh, bh * bh, a);
    assert a * ((6 * bl) * bh) == 6 * (a * (bl * bh));
    assert bl * (c * a) == a * (c * bl);
  }

  lemma SmallPositive(bl: nat, bh: nat, t: nat, tm: nat, t0: nat)
    requires bh > 0 && 0 < t && t == tm * bl + t0
    ensures 0 < (bh * bh) * t0 + tm * t
  {
    MulMono(1, bh, bh);
    MulNonNeg(tm, t);
    MulNonNeg(bh * bh, t0);
    if t0 > 0 {
      MulMono(1, t0, bh * bh);
    } else {
      assert tm > 0;
      MulMono(1, tm, t);
    }
  }

  /** The quotient of mp_divnorm_large, when the divisor is padded to n limbs by
      the factor w: sh = B^(n+1), and sh * w * u = B^(2n). */
  lemma LargePadded(a: nat, b: nat, x: nat, atop: nat, a0: nat, q: nat, q0: nat, w: nat, u: nat, sh: nat)
    requires w > 0 && u > 0 && sh > 0 && b > 0
    requires a == atop * u + a0 && a0 < u <= b
    requires x * atop == q * sh + q0 && q0 < sh && atop < sh
    requires (b * w) * x <= (sh * w) * u < (b * w) * (x + 2)
    ensures b * q <= a < b * (q + 4)
  {
    PadScale(b, x, w, u, sh);
    QuotientBelow(b, x, atop, q, q0, u, sh);
    QuotientAbove(b, x, atop, q, q0, u, sh, 3);
    assert b * (q + 4) == b * (q + 3) + b by { Distrib(q + 3, 1, b); }
  }

  lemma PadScale(b: nat, x: nat, w: nat, u: nat, sh: nat)
    requires w > 0 && (b * w) * x <= (sh * w) * u < (b * w) * (x + 2)
    ensures b * x <= sh * u <= b * (x + 2)
  {
    Swap(b, w, x);
    Swap(b, w, x + 2);
    Swap(sh, w, u);
    MulCancelLeq(b * x, sh * u, w);
    MulCancelLeq(sh * u, b * (x + 2), w);
  }

  lemma Swap(x: int, y: int, z: int)
    ensures (x * y) * z == (x * z) * y
  {}

  /** An inverse that is not too large gives a quotient that is not too large. */
  lemma QuotientBelow(b: nat, x: nat, atop: nat, q: nat, q0: nat, u: nat, sh: nat)
    requires sh > 0 && b * x <= sh * u && x * atop == q * sh + q0
    ensures b * q <= atop * u
  {
    MulMono(q * sh, x * atop, b);
    assert b * (q * sh) == (b * q) * sh;
    assert b * (x * atop) == (b * x) * atop;
    MulMono(b * x, sh * u, atop);
    assert (sh * u) * atop == (atop * u) * sh;
    MulCancelLeq(b * q, atop * u, sh);
  }

  /** An inverse that is at most two too small loses at most k - 1 units. */
  lemma QuotientAbove(b: nat, x: nat, atop: nat, q: nat, q0: nat, u: nat, sh: nat, k: nat)
    requires sh > 0 && sh * u <= b * (x + 2) && x * atop == q * sh + q0 && q0 < sh
    requires 2 * atop <= (k - 1) * sh
    ensures atop * u <= b * (q + k)
  {
    MulMono(sh * u, b * (x + 2), atop);
    assert (sh * u) * atop == (atop * u) * sh;
    assert (b * (x + 2)) * atop == b * (x * atop + 2 * atop) by { Distrib(x, 2, atop); MulAssoc(b, x + 2, atop); }
    assert (q + k) * sh == q * sh + (k - 1) * sh + sh by { Distrib(q, k, sh); Distrib(k, 1, sh); }
    MulMono(x * atop + 2 * atop, (q + k) * sh, b);
    MulAssoc(b, q + k, sh);
    MulCancelLeq(atop * u, b * (q + k), sh);
  }

  /** The same when the divisor is cut to its n top limbs and incremented, so
      that b <= bp * w <= b + w; now sh = B^(n+2) and sh * u = B^(2n) * w. */
  lemma LargeCut(a: nat, b: nat, bp: nat, x: nat, atop: nat, a0: nat, q: nat, q0: nat, w: nat, u: nat, sh: nat, pp: nat)
    requires w > 0 && u > 0 && sh > 0 && b > 0
    requires a == atop * u + a0 && a0 < u <= b
    requires x * atop == q * sh + q0 && q0 < sh && 2 * atop <= sh
    requires b <= bp * w <= b + w
    requires bp * x <= pp < bp * (x + 2) && pp * w == sh * u
    requires b * q <= a ==> w * (q + 2) <= b + b
    ensures b * q <= a < b * (q + 5)
  {
    var g := bp * w;
    CutScale(bp, x, w, pp);
    QuotientBelow(g, x, atop, q, q0, u, sh);
    QuotientAbove(g, x, atop, q, q0, u, sh, 2);
    CutTotal(b, g, w, q);
  }

  lemma CutScale(bp: nat, x: nat, w: nat, pp: nat)
    requires bp * x <= pp < bp * (x + 2)
    ensures (bp * w) * x <= pp * w <= (bp * w) * (x + 2)
  {
    MulMono(bp * x, pp, w);
    MulMono(pp, bp * (x + 2), w);
    Swap(bp, x, w);
    Swap(bp, x + 2, w);
  }

  lemma CutTotal(b: nat, g: nat, w: nat, q: nat)
    requires b <= g <= b + w
    ensures b * q <= g * q
    ensures w * (q + 2) <= b + b ==> g * (q + 2) + b <= b * (q + 5)
  {
    MulMono(b, g, q);
    MulMono(g, b + w, q + 2);
    Distrib(b, w, q + 2);
    Distrib(q + 2, 3, b);
  }
}
