/** Integer facts that the solver does not find by itself: products, Euclidean
    division and powers. Every other module imports this one. */
module Arith {

  ghost function Pow(b: nat, n: nat): (r: nat)
    ensures b >= 1 ==> r >= 1
  {
    if n == 0 then 1 else b * Pow(b, n - 1)
  }

  lemma {:induction false} PowAdd(b: nat, m: nat, n: nat)
    ensures Pow(b, m + n) == Pow(b, m) * Pow(b, n)
  {
    if m > 0 {
      PowAdd(b, m - 1, n);
      assert Pow(b, m + n) == b * (Pow(b, m - 1) * Pow(b, n));
      MulAssoc(b, Pow(b, m - 1), Pow(b, n));
    }
  }

  lemma {:induction false} PowMono(b: nat, m: nat, n: nat)
    requires b >= 1 && m <= n
    ensures Pow(b, m) <= Pow(b, n)
  {
    if m < n {
      PowMono(b, m, n - 1);
      MulMono(1, b, Pow(b, n - 1));
    }
  }

  lemma MulAssoc(x: int, y: int, z: int)
    ensures x * (y * z) == (x * y) * z
  {}

  lemma MulMono(x: int, y: int, z: int)
    requires x <= y && 0 <= z
    ensures x * z <= y * z && z * x <= z * y
  {}

  lemma MulStrict(x: int, y: int, z: int)
    requires x < y && 0 < z
    ensures x * z < y * z && z * x < z * y
  {}

  lemma MulNonNeg(x: int, y: int)
    requires 0 <= x && 0 <= y
    ensures 0 <= x * y
  {}

  lemma Distrib(x: int, y: int, z: int)
    ensures (x + y) * z == x * z + y * z && z * (x + y) == z * x + z * y
    ensures (x - y) * z == x * z - y * z && z * (x - y) == z * x - z * y
  {}

  /** A product order can be cancelled. */
  lemma MulCancelLess(x: int, y: int, z: int)
    requires 0 <= z && x * z < y * z
    ensures x < y
  {
    if y <= x { MulMono(y, x, z); }
  }

  lemma MulCancelLeq(x: int, y: int, z: int)
    requires 0 < z && x * z <= y * z
    ensures x <= y
  {
    if y < x { MulStrict(y, x, z); }
  }

  /** Quotient and remainder are unique. */
  lemma DivModUnique(a: int, d: int, q: int, r: int)
    requires 0 < d && 0 <= r < d && a == q * d + r
    ensures a / d == q && a % d == r
  {
    var q1, r1 := a / d, a % d;
    assert a == d * q1 + r1;
    MulComm(d, q1);
    assert (q - q1) * d == r1 - r by { Distrib(q, q1, d); }
    if q - q1 >= 1 { MulMono(1, q - q1, d); }
    if q - q1 <= -1 { MulMono(q - q1, -1, d); }
  }

  lemma MulComm(x: int, y: int)
    ensures x * y == y * x
  {}

  lemma DivMod(a: int, d: int)
    requires 0 < d
    ensures a == (a / d) * d + a % d && 0 <= a % d < d
  {
    MulComm(a / d, d);
  }
}
