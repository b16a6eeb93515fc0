/** The discrete Fourier transform over the integers modulo m, and what one pass of a
    Stockham transform does to it. */
module Fourier {
  import opened Hints
  import opened Arith
  import opened Congruence

  /** The k-th value of the transform of z with the root v: the sum of z[q] * v^(q k). */
  ghost function Transform(z: seq<int>, v: int, k: nat): int
  {
    if |z| == 0 then 0 else Transform(z[..|z| - 1], v, k) + z[|z| - 1] * Exp(v, (|z| - 1) * k)
  }

  ghost predicate IsDft(z: seq<int>, v: int, k: nat, d: int)
  {
    forall t :: AskFor(Subject.Transforms, t) ==> d == Transform(z, v, k)
  }

  /** Transform under a name that stays folded. */
  ghost function Dft(z: seq<int>, v: int, k: nat): (d: int)
    ensures IsDft(z, v, k, d)
  {
    assert IsDft(z, v, k, Transform(z, v, k));
    var d :| IsDft(z, v, k, d);
    d
  }

  lemma DftEmpty(v: int, k: nat)
    ensures Dft([], v, k) == 0
  {
    assert AskFor(Subject.Transforms, 0);
  }

  lemma DftLast(z: seq<int>, v: int, k: nat)
    requires |z| > 0
    ensures Dft(z, v, k) == Dft(z[..|z| - 1], v, k) + z[|z| - 1] * Exp(v, (|z| - 1) * k)
  {
    assert AskFor(Subject.Transforms, 0);
  }

  /** Elementwise congruence. */
  ghost predicate AllCong(x: seq<int>, y: seq<int>, m: int)
  {
    |x| == |y| && forall q :: 0 <= q < |x| ==> Cong(x[q], y[q], m)
  }

  lemma {:induction false} DftCong(x: seq<int>, y: seq<int>, v: int, k: nat, m: int)
    requires AllCong(x, y, m)
    ensures Cong(Dft(x, v, k), Dft(y, v, k), m)
  {
    if |x| == 0 {
      DftEmpty(v, k);
      assert x == [] && y == [];
      CongSame(0, m);
    } else {
      var n := |x| - 1;
      DftLast(x, v, k);
      DftLast(y, v, k);
      DftCong(x[..n], y[..n], v, k, m);
      var p := Exp(v, n * k);
      CongSame(p, m);
      CongMul(x[n], y[n], p, p, m);
      CongAdd(Dft(x[..n], v, k), Dft(y[..n], v, k), x[n] * p, y[n] * p, m);
    }
  }

  lemma DftSnoc(x: seq<int>, a: int, v: int, k: nat)
    ensures Dft(x + [a], v, k) == Dft(x, v, k) + a * Exp(v, |x| * k)
  {
    DftLast(x + [a], v, k);
    assert (x + [a])[..|x|] == x;
  }

  /** The transform of a sequence in two parts. */
  lemma {:induction false} DftConcat(x: seq<int>, y: seq<int>, v: int, k: nat)
    ensures Dft(x + y, v, k) == Dft(x, v, k) + Exp(v, |x| * k) * Dft(y, v, k)
    decreases |y|
  {
    if |y| == 0 {
      DftEmpty(v, k);
      assert x + y == x && y == [];
    } else {
      var n := |y| - 1;
      var y0, a, p := y[..n], y[n], Exp(v, |x| * k);
      DftConcat(x, y0, v, k);
      DftLast(y, v, k);
      assert x + y == (x + y0) + [a];
      DftSnoc(x + y0, a, v, k);
      Distrib(|x|, n, k);
      PowerAdd(v, |x| * k, n * k);
      var u := Exp(v, n * k);
      MulAssoc(a, p, u);
      MulComm(a, p);
      MulAssoc(p, a, u);
      Distrib(Dft(y0, v, k), a * u, p);
    }
  }

  ghost predicate Added(x: seq<int>, y: seq<int>, e: seq<int>)
  {
    |x| == |y| == |e| && forall q :: 0 <= q < |e| ==> e[q] == x[q] + y[q]
  }

  ghost predicate Turned(x: seq<int>, y: seq<int>, o: seq<int>, v: int)
  {
    |x| == |y| == |o| && forall q :: 0 <= q < |o| ==> o[q] == (x[q] - y[q]) * Exp(v, q)
  }

  lemma {:induction false} DftSum(x: seq<int>, y: seq<int>, e: seq<int>, v: int, k: nat)
    requires Added(x, y, e)
    ensures Dft(x, v, 2 * k) + Dft(y, v, 2 * k) == Dft(e, Exp(v, 2), k)
  {
    if |x| == 0 {
      DftEmpty(v, 2 * k);
      DftEmpty(Exp(v, 2), k);
      assert x == [] && y == [] && e == [];
    } else {
      var n := |x| - 1;
      DftLast(x, v, 2 * k);
      DftLast(y, v, 2 * k);
      DftLast(e, Exp(v, 2), k);
      DftSum(x[..n], y[..n], e[..n], v, k);
      MulAssoc(2, n, k);
      MulAssoc(n, 2, k);
      PowerMul(v, 2, n * k);
      Distrib(x[n], y[n], Exp(v, n * (2 * k)));
    }
  }

  lemma {:induction false} DftTurned(x: seq<int>, y: seq<int>, o: seq<int>, v: int, k: nat)
    requires Turned(x, y, o, v)
    ensures Dft(x, v, 2 * k + 1) - Dft(y, v, 2 * k + 1) == Dft(o, Exp(v, 2), k)
  {
    if |x| == 0 {
      DftEmpty(v, 2 * k + 1);
      DftEmpty(Exp(v, 2), k);
      assert x == [] && y == [] && o == [];
    } else {
      var n := |x| - 1;
      DftLast(x, v, 2 * k + 1);
      DftLast(y, v, 2 * k + 1);
      DftLast(o, Exp(v, 2), k);
      DftTurned(x[..n], y[..n], o[..n], v, k);
      Distrib(2 * k, 1, n);
      MulAssoc(2, n, k);
      MulAssoc(n, 2, k);
      PowerMul(v, 2, n * k);
      PowerAdd(v, n, n * (2 * k));
      assert n * (2 * k + 1) == n + n * (2 * k);
      var p, u := Exp(v, n), Exp(v, n * (2 * k));
      Distrib(x[n], y[n], p * u);
      MulAssoc(x[n] - y[n], p, u);
    }
  }

  /** Decimation in frequency: the even values are the transform of the sums of the two
      halves, the odd ones that of their differences, turned. */
  lemma Decimate(x: seq<int>, y: seq<int>, e: seq<int>, o: seq<int>, v: int, k: nat, m: int)
    requires Added(x, y, e) && Turned(x, y, o, v) && Cong(Exp(v, |x|), -1, m)
    ensures Cong(Dft(e, Exp(v, 2), k), Dft(x + y, v, 2 * k), m)
    ensures Cong(Dft(o, Exp(v, 2), k), Dft(x + y, v, 2 * k + 1), m)
  {
    DftSum(x, y, e, v, k);
    DftTurned(x, y, o, v, k);
    MinusOne(k);
    HalfTurn(x, y, v, 2 * k, m, 1);
    HalfTurn(x, y, v, 2 * k + 1, m, -1);
    CongBack(Dft(x + y, v, 2 * k), Dft(x, v, 2 * k) + Dft(y, v, 2 * k), m);
    CongBack(Dft(x + y, v, 2 * k + 1), Dft(x, v, 2 * k + 1) - Dft(y, v, 2 * k + 1), m);
  }

  /** The second half of the sequence counts with the sign s = (-1)^k. */
  lemma HalfTurn(x: seq<int>, y: seq<int>, v: int, k: nat, m: int, s: int)
    requires Cong(Exp(v, |x|), -1, m) && Exp(-1, k) == s
    ensures Cong(Dft(x + y, v, k), Dft(x, v, k) + s * Dft(y, v, k), m)
  {
    DftConcat(x, y, v, k);
    PowerMul(v, |x|, k);
    PowerCong(Exp(v, |x|), -1, k, m);
    var d := Dft(y, v, k);
    CongSame(d, m);
    CongMul(Exp(v, |x| * k), s, d, d, m);
    CongSame(Dft(x, v, k), m);
    CongAdd(Dft(x, v, k), Dft(x, v, k), Exp(v, |x| * k) * d, s * d, m);
  }
}
