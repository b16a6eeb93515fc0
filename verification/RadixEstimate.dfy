/** Quotient estimates in base conversion (libbf.c, 3403-3441): a product with a rounded
    reciprocal, rounded again, is at most two away from the quotient. */
module RadixEstimate {
  import opened Arith
  import opened Bits
  import opened RoundSpec

  /** x / d to the nearest integer. */
  function NearestQuotient(x: nat, d: nat): (q: int)
    requires d >= 1
  {
    (2 * x + d) / (2 * d)
  }

  lemma NearestMeans(x: nat, d: nat)
    requires d >= 1
    ensures var q := NearestQuotient(x, d); q >= 0 && 0 - d <= 2 * (q * d - x) <= d
  {
    var q := NearestQuotient(x, d);
    DivMod(2 * x + d, 2 * d);
    MulAssoc(q, 2, d);
    MulComm(q, 2);
    MulAssoc(2, q, d);
    if q < 0 { MulMono(q, -1, 2 * d); }
  }

  /** The exponent of 1 / b rounded to p bits: the mantissa is in units of 2^-Unit. */
  function Unit(b: nat, p: nat): nat
    requires p >= 1
  {
    p - 1 + BitLen(b)
  }

  /** bf_div(1, b) with p bits: the mantissa. */
  function Reciprocal(b: nat, p: nat): (i: nat)
    requires b >= 1 && p >= 1
  {
    NearestMeans(T(Unit(b, p)), b);
    NearestQuotient(T(Unit(b, p)), b)
  }

  /** bf_mul(a, 1 / b) with prec bits and bf_rint: the quotient estimate. */
  function Estimate(a: nat, b: nat, inv: nat, p: nat, prec: nat): (q: int)
    requires p >= 1
  {
    var prod := a * inv;
    var q := if BitLen(prod) > prec then BitLen(prod) - prec else 0;
    (RoundBits(RndN, false, prod, q) * T(q)) / T(Unit(b, p))
  }

  /** The product after rounding, g away from the exact one. */
  lemma ProductRounded(prod: nat, prec: nat, q: nat, m: nat)
    requires q == (if BitLen(prod) > prec then BitLen(prod) - prec else 0) && m == RoundBits(RndN, false, prod, q)
    ensures var g := m * T(q) - prod; (g == 0 || T(q) * T(prec) <= 2 * prod) && 0 - T(q) <= 2 * g <= T(q)
  {
    RoundToMeans(RndN, false, prod, q);
    RoundToCorrect(RndN, false, prod, q);
    var t := T(q);
    Distrib(2 * m, 1, t);
    MulAssoc(2, m, t);
    if q == 0 {
      TZero();
    } else {
      BitLenBounds(prod);
      TAdd(q, prec);
      TSucc(BitLen(prod) - 1);
    }
  }

  /** The part of the error that comes from the reciprocal. */
  lemma ReciprocalError(a: nat, b: nat, d: int, u: nat)
    requires 0 - b <= 2 * d <= b && 2 * a <= u
    ensures 0 - u * b <= 4 * (a * d) <= u * b
  {
    MulMono(2 * d, b, 2 * a);
    MulMono(0 - b, 2 * d, 2 * a);
    assert (2 * a) * (2 * d) == 4 * (a * d);
    MulMono(2 * a, u, b);
    assert (2 * a) * (0 - b) == 0 - (2 * a) * b;
  }

  /** The part that comes from rounding the product. */
  lemma RoundingError(a: nat, b: nat, inv: nat, g: int, t: nat, s: nat, u: nat)
    requires 0 - t <= 2 * g <= t && (g == 0 || t * s <= 2 * (a * inv)) && s >= 1
    requires a < s * b && 2 * (inv * b) <= 2 * u + b && 2 * b <= u
    ensures 0 - 5 * u <= 4 * g <= 5 * u
  {
    if g != 0 {
      MulMono(a, s * b, inv);
      MulAssoc(s, b, inv);
      MulComm(b, inv);
      MulMono(4 * (inv * b), 5 * u, s);
      assert (4 * (inv * b)) * s == 4 * (s * (b * inv));
      assert 2 * (t * s) <= (5 * u) * s;
      MulAssoc(2, t, s);
      MulCancelLeq(2 * t, 5 * u, s);
    }
  }

  /** Numbers that are at most one and a half apart have floors at most two apart. */
  lemma FloorsNear(a: nat, b: nat, x: nat, u: nat, e: int, q0: int, q: int, r: int)
    requires b >= 1 && u >= 1 && x * b == a * u + e && 0 - 3 * (u * b) <= 2 * e <= 3 * (u * b)
    requires q0 * u <= x < (q0 + 1) * u && a == q * b + r && 0 <= r < b
    ensures -2 <= q - q0 <= 2
  {
    var ub := u * b;
    MulMono(q0 * u, x, b);
    MulMono(x, (q0 + 1) * u - 1, b);
    Distrib((q0 + 1) * u, 1, b);
    MulAssoc(q0, u, b);
    MulAssoc(q0 + 1, u, b);
    Distrib(q * b, r, u);
    MulAssoc(q, b, u);
    MulComm(b, u);
    MulMono(r, b - 1, u);
    Distrib(b, 1, u);
    MulNonNeg(r, u);
    MulMono(1, u, b);
    assert q0 * ub <= q * ub + r * u + e && r * u <= ub - u;
    assert q * ub + r * u + e < (q0 + 1) * ub;
    Distrib(q0, 1, ub);
    if q - q0 >= 3 { MulMono(3, q - q0, ub); Distrib(q, q0, ub); }
    if q - q0 <= -3 { MulMono(q - q0, -3, ub); Distrib(q, q0, ub); }
  }

  /** With the precisions that the code uses, the estimate is at most two away: a is below
      2^prec times b, and the reciprocal has two bits more than prec. */
  lemma EstimateNear(a: nat, b: nat, p: nat, prec: nat, q: int, r: int)
    requires b >= 1 && prec + 2 <= p && a < T(prec) * b && a == q * b + r && 0 <= r < b
    ensures -2 <= q - Estimate(a, b, Reciprocal(b, p), p, prec) <= 2
  {
    var u, inv := T(Unit(b, p)), Reciprocal(b, p);
    var prod := a * inv;
    var k := if BitLen(prod) > prec then BitLen(prod) - prec else 0;
    var m := RoundBits(RndN, false, prod, k);
    NearestMeans(u, b);
    ProductRounded(prod, prec, k, m);
    UnitLarge(a, b, p, prec);
    RoundedNear(a, b, inv, u, m * T(k), T(k), T(prec), q, r);
  }

  /** The same for any mantissas: x is a * inv, rounded to a multiple of t. */
  lemma RoundedNear(a: nat, b: nat, inv: nat, u: nat, x: nat, t: nat, s: nat, q: int, r: int)
    requires b >= 1 && u >= 1 && s >= 1 && 2 * a <= u && 2 * b <= u && a < s * b && 0 - b <= 2 * (inv * b - u) <= b
    requires 0 - t <= 2 * (x - a * inv) <= t && (x == a * inv || t * s <= 2 * (a * inv)) && a == q * b + r && 0 <= r < b
    ensures -2 <= q - x / u <= 2
  {
    var d, g := inv * b - u, x - a * inv;
    ReciprocalError(a, b, d, u);
    RoundingError(a, b, inv, g, t, s, u);
    ErrorSum(a, b, inv, u, d, g, x);
    DivMod(x, u);
    var q0 := x / u;
    Distrib(q0, 1, u);
    FloorsNear(a, b, x, u, a * d + g * b, q0, q, r);
  }

  lemma UnitLarge(a: nat, b: nat, p: nat, prec: nat)
    requires b >= 1 && prec + 2 <= p && a < T(prec) * b
    ensures 2 * a <= T(Unit(b, p)) && 2 * b <= T(Unit(b, p))
  {
    BitLenBounds(b);
    TAdd(prec, BitLen(b));
    MulMono(b, T(BitLen(b)), T(prec));
    TMono(prec + BitLen(b) + 1, Unit(b, p));
    TSucc(prec + BitLen(b));
    TMono(BitLen(b) + 1, Unit(b, p));
    TSucc(BitLen(b));
  }

  lemma ErrorSum(a: nat, b: nat, inv: nat, u: nat, d: int, g: int, x: int)
    requires d == inv * b - u && g == x - a * inv && 0 - u * b <= 4 * (a * d) <= u * b && 0 - 5 * u <= 4 * g <= 5 * u
    ensures x * b == a * u + (a * d + g * b) && 0 - 3 * (u * b) <= 2 * (a * d + g * b) <= 3 * (u * b)
  {
    Distrib(a * inv, g, b);
    MulAssoc(a, inv, b);
    Distrib(u, d, a);
    MulMono(4 * g, 5 * u, b);
    MulMono(0 - 5 * u, 4 * g, b);
    assert (4 * g) * b == 4 * (g * b) && (5 * u) * b == 5 * (u * b) && (0 - 5 * u) * b == 0 - 5 * (u * b);
  }
}
