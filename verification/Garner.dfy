/** Chinese remaindering by mixed radix digits (libbf.c, 8179-8220): from residues modulo
    several primes back to one number. */
module Garner {
  import opened Arith
  import opened Limbs
  import opened LimbOps
  import opened Congruence
  import opened Ntt

  /** ys[0] + ms[0] * (ys[1] + ms[1] * (... + ms[n - 1] * t)) */
  ghost function Nest(ys: seq<int>, ms: seq<int>, t: int): int
    requires |ys| == |ms|
  {
    if |ys| == 0 then t else Nest(ys[..|ys| - 1], ms[..|ms| - 1], ys[|ys| - 1] + ms[|ms| - 1] * t)
  }

  ghost function ProductOf(ms: seq<int>): int
  {
    if |ms| == 0 then 1 else ProductOf(ms[..|ms| - 1]) * ms[|ms| - 1]
  }

  lemma NestSnoc(ys: seq<int>, ms: seq<int>, y: int, m: int, t: int)
    requires |ys| == |ms|
    ensures Nest(ys + [y], ms + [m], t) == Nest(ys, ms, y + m * t)
  {
    assert (ys + [y])[..|ys|] == ys && (ms + [m])[..|ms|] == ms;
  }

  lemma {:induction false} NestCong(ys: seq<int>, ms: seq<int>, s: int, t: int, m: int)
    requires |ys| == |ms| && Cong(s, t, m)
    ensures Cong(Nest(ys, ms, s), Nest(ys, ms, t), m)
    decreases |ys|
  {
    if |ys| > 0 {
      var n := |ys| - 1;
      CongSame(ms[n], m);
      CongSame(ys[n], m);
      CongMul(ms[n], ms[n], s, t, m);
      CongAdd(ys[n], ys[n], ms[n] * s, ms[n] * t, m);
      NestCong(ys[..n], ms[..n], ys[n] + ms[n] * s, ys[n] + ms[n] * t, m);
    }
  }

  /** Mixed radix digits below their moduli make a number below the product. */
  lemma {:induction false} NestBound(ys: seq<int>, ms: seq<int>, t: int)
    requires |ys| == |ms| && t >= 0 && forall i :: 0 <= i < |ys| ==> 0 <= ys[i] < ms[i]
    ensures ProductOf(ms) >= 1 && 0 <= Nest(ys, ms, t) < ProductOf(ms) * (t + 1)
    decreases |ys|
  {
    if |ys| > 0 {
      var n := |ys| - 1;
      var t1 := ys[n] + ms[n] * t;
      MulNonNeg(ms[n], t);
      NestBound(ys[..n], ms[..n], t1);
      var p := ProductOf(ms[..n]);
      Distrib(t, 1, ms[n]);
      MulMono(t1 + 1, ms[n] * (t + 1), p);
      MulAssoc(p, ms[n], t + 1);
      MulMono(1, ms[n], p);
    }
  }

  /** The digits from position i on do not matter modulo the modulus before them. */
  lemma {:induction false} NestPrefix(ys: seq<int>, ms: seq<int>, k: nat, m: int)
    requires |ys| == |ms| && k < |ys| && ms[k] == m
    ensures Cong(Nest(ys, ms, 0), Nest(ys[..k], ms[..k], ys[k]), m)
  {
    var t := NestSplit(ys, ms, k, 0);
    CongBy(ys[k] + m * t, ys[k], t, m);
    NestCong(ys[..k], ms[..k], ys[k] + m * t, ys[k], m);
  }

  lemma {:induction false} NestSplit(ys: seq<int>, ms: seq<int>, k: nat, t: int) returns (u: int)
    requires |ys| == |ms| && k < |ys|
    ensures Nest(ys, ms, t) == Nest(ys[..k], ms[..k], ys[k] + ms[k] * u)
    decreases |ys|
  {
    var n := |ys| - 1;
    if k == n {
      u := t;
    } else {
      u := NestSplit(ys[..n], ms[..n], k, ys[n] + ms[n] * t);
      assert ys[..n][..k] == ys[..k] && ms[..n][..k] == ms[..k];
    }
  }

  // ------------------------------------------------------------------------- uniqueness

  /** Every modulus is invertible modulo the later ones. */
  ghost predicate Coprime(ms: seq<int>)
  {
    forall j, k :: 0 <= j < k < |ms| ==> Invertible(ms[j], ms[k])
  }

  ghost predicate Invertible(a: int, m: int)
  {
    exists b: int :: Cong(b * a, 1, m)
  }

  lemma CancelFactor(a: int, d: int, m: int)
    requires Invertible(a, m) && Cong(a * d, 0, m)
    ensures Cong(d, 0, m)
  {
    var b: int :| Cong(b * a, 1, m);
    CongSame(d, m);
    CongSame(b, m);
    CongMul(b * a, 1, d, d, m);
    CongMul(b, b, a * d, 0, m);
    MulAssoc(b, a, d);
    CongBack((b * a) * d, 1 * d, m);
    CongTrans(d, (b * a) * d, 0, m);
  }

  /** A number divisible by all moduli is divisible by their product. */
  lemma {:induction false} AllDivide(ms: seq<int>, d: int) returns (q: int)
    requires Coprime(ms) && forall k :: 0 <= k < |ms| ==> Cong(d, 0, ms[k])
    ensures d == q * ProductOf(ms)
    decreases |ms|
  {
    if |ms| == 0 {
      q := d;
    } else {
      var n := |ms| - 1;
      var q1 := AllDivide(ms[..n], d);
      var p := ProductOf(ms[..n]);
      MulComm(p, q1);
      FactorsCancel(ms[..n], q1, ms[n]);
      CongMeans(q1, 0, ms[n]);
      var r :| Multiple(q1, 0, r, ms[n]);
      q := r;
      MulAssoc(r, ms[n], p);
      MulComm(ms[n], p);
    }
  }

  lemma {:induction false} FactorsCancel(ms: seq<int>, d: int, m: int)
    requires (forall j :: 0 <= j < |ms| ==> Invertible(ms[j], m)) && Cong(ProductOf(ms) * d, 0, m)
    ensures Cong(d, 0, m)
    decreases |ms|
  {
    if |ms| > 0 {
      var n := |ms| - 1;
      MulAssoc(ProductOf(ms[..n]), ms[n], d);
      FactorsCancel(ms[..n], ms[n] * d, m);
      CancelFactor(ms[n], d, m);
    }
  }

  /** At most one number below the product has given residues. */
  lemma CrtUnique(ms: seq<int>, v: int, w: int)
    requires Coprime(ms) && 0 <= v < ProductOf(ms) && 0 <= w < ProductOf(ms)
    requires forall k :: 0 <= k < |ms| ==> Cong(v, w, ms[k])
    ensures v == w
  {
    forall k | 0 <= k < |ms| ensures Cong(v - w, 0, ms[k]) {
      CongSame(w, ms[k]);
      CongAdd(v, w, w, w, ms[k]);
    }
    var q := AllDivide(ms, v - w);
    if q >= 1 { MulMono(1, q, ProductOf(ms)); }
    if q <= -1 { MulMono(q, -1, ProductOf(ms)); }
  }
}
