/** Transforms multiply: the product of two transforms, value by value, is the transform of
    the cyclic convolution, and the transform with the inverse root undoes a transform. */
module Convolution {
  import opened Arith
  import opened Congruence
  import opened Fourier
  import opened Bits

  // ------------------------------------------------------------------ linearity

  /** z + a * y, value by value. */
  ghost function Plus(z: seq<int>, a: int, y: seq<int>): (s: seq<int>)
    requires |z| == |y|
    ensures |s| == |z| && forall q :: 0 <= q < |z| ==> s[q] == z[q] + a * y[q]
  {
    seq(|z|, q requires 0 <= q < |z| => z[q] + a * y[q])
  }

  lemma {:induction false} DftPlus(z: seq<int>, a: int, y: seq<int>, v: int, k: nat)
    requires |z| == |y|
    ensures Dft(Plus(z, a, y), v, k) == Dft(z, v, k) + a * Dft(y, v, k)
  {
    var s := Plus(z, a, y);
    if |z| == 0 {
      DftEmpty(v, k);
      assert s == [] && z == [] && y == [];
    } else {
      var n := |z| - 1;
      DftLast(z, v, k);
      DftLast(y, v, k);
      DftLast(s, v, k);
      DftPlus(z[..n], a, y[..n], v, k);
      assert s[..n] == Plus(z[..n], a, y[..n]);
      var p := Exp(v, n * k);
      Distrib(z[n], a * y[n], p);
      MulAssoc(a, y[n], p);
      Distrib(Dft(y[..n], v, k), y[n] * p, a);
    }
  }

  lemma {:induction false} DftZeros(z: seq<int>, v: int, k: nat)
    requires forall q :: 0 <= q < |z| ==> z[q] == 0
    ensures Dft(z, v, k) == 0
  {
    if |z| == 0 {
      DftEmpty(v, k);
      assert z == [];
    } else {
      DftLast(z, v, k);
      DftZeros(z[..|z| - 1], v, k);
    }
  }

  // ------------------------------------------------------------------ convolution

  /** The sum of x[i] * y[j] over the pairs with i < t and i + j congruent to k modulo the
      length. */
  ghost function ConvUpTo(x: seq<int>, y: seq<int>, k: nat, t: nat): int
    requires |x| == |y| && t <= |x|
  {
    if t == 0 then 0 else ConvUpTo(x, y, k, t - 1) + x[t - 1] * y[(k - (t - 1)) % |y|]
  }

  /** The cyclic convolution. */
  ghost function Cyclic(x: seq<int>, y: seq<int>, k: nat): int
    requires |x| == |y|
  {
    ConvUpTo(x, y, k, |x|)
  }

  ghost function ConvSeq(x: seq<int>, y: seq<int>, t: nat): (c: seq<int>)
    requires |x| == |y| && t <= |x|
    ensures |c| == |x| && forall k :: 0 <= k < |x| ==> c[k] == ConvUpTo(x, y, k, t)
  {
    seq(|x|, k requires 0 <= k < |x| => ConvUpTo(x, y, k, t))
  }

  /** y moved round by t places. */
  ghost function Rotated(y: seq<int>, t: nat): (r: seq<int>)
    requires t < |y|
    ensures |r| == |y| && forall k :: 0 <= k < |y| ==> r[k] == y[(k - t) % |y|]
  {
    seq(|y|, k requires 0 <= k < |y| => y[(k - t) % |y|])
  }

  lemma RotatedParts(y: seq<int>, t: nat)
    requires t < |y|
    ensures Rotated(y, t) == y[|y| - t..] + y[..|y| - t]
  {
    var n := |y|;
    forall k | 0 <= k < n ensures Rotated(y, t)[k] == (y[n - t..] + y[..n - t])[k] {
      if k < t { DivModUnique(k - t, n, -1, k - t + n); } else { DivModUnique(k - t, n, 0, k - t); }
    }
  }

  /** A turn multiplies the transform by a power of the root. */
  lemma DftShift(y: seq<int>, t: nat, w: int, j: nat, m: int)
    requires t < |y| && Cong(Exp(w, |y|), 1, m)
    ensures Cong(Dft(Rotated(y, t), w, j), Exp(w, t * j) * Dft(y, w, j), m)
  {
    var n := |y|;
    var lo, hi := y[..n - t], y[n - t..];
    assert y == lo + hi;
    RotatedParts(y, t);
    DftConcat(hi, lo, w, j);
    DftConcat(lo, hi, w, j);
    var p, u, dl, dh := Exp(w, t * j), Exp(w, (n - t) * j), Dft(lo, w, j), Dft(hi, w, j);
    Distrib(dl, u * dh, p);
    MulAssoc(p, u, dh);
    Distrib(t, n - t, j);
    PowerAdd(w, t * j, (n - t) * j);
    PowerMul(w, n, j);
    PowerCong(Exp(w, n), 1, j, m);
    PowerOne(j);
    CongSame(dh, m);
    CongMul(Exp(w, n * j), 1, dh, dh, m);
    CongBack(Exp(w, n * j) * dh, dh, m);
    CongSame(p * dl, m);
    CongAdd(dh, Exp(w, n * j) * dh, p * dl, p * dl, m);
  }

  /** The transform of a partial convolution. */
  lemma {:induction false} ConvTransform(x: seq<int>, y: seq<int>, t: nat, w: int, j: nat, m: int)
    requires |x| == |y| && t <= |x| && Cong(Exp(w, |y|), 1, m)
    ensures Cong(Dft(ConvSeq(x, y, t), w, j), Dft(x[..t], w, j) * Dft(y, w, j), m)
  {
    if t == 0 {
      DftZeros(ConvSeq(x, y, 0), w, j);
      DftEmpty(w, j);
      CongSame(0, m);
    } else {
      var c, r, a := ConvSeq(x, y, t - 1), Rotated(y, t - 1), x[t - 1];
      var dx, dy, p := Dft(x[..t - 1], w, j), Dft(y, w, j), Exp(w, (t - 1) * j);
      ConvTransform(x, y, t - 1, w, j, m);
      assert ConvSeq(x, y, t) == Plus(c, a, r);
      DftPlus(c, a, r, w, j);
      DftShift(y, t - 1, w, j, m);
      CongSame(a, m);
      CongMul(a, a, Dft(r, w, j), p * dy, m);
      CongAdd(Dft(c, w, j), dx * dy, a * Dft(r, w, j), a * (p * dy), m);
      assert x[..t] == x[..t - 1] + [a];
      DftSnoc(x[..t - 1], a, w, j);
      Distrib(dx, a * p, dy);
      MulAssoc(a, p, dy);
    }
  }

  /** The transform of the cyclic convolution is the product of the transforms. */
  lemma TransformsMultiply(x: seq<int>, y: seq<int>, w: int, j: nat, m: int)
    requires |x| == |y| && Cong(Exp(w, |y|), 1, m)
    ensures Cong(Dft(ConvSeq(x, y, |x|), w, j), Dft(x, w, j) * Dft(y, w, j), m)
  {
    ConvTransform(x, y, |x|, w, j, m);
    assert x[..|x|] == x;
  }

  // ------------------------------------------------------------------ the inverse

  /** 1 + v + ... + v^(n - 1) */
  ghost function Powers(v: int, n: nat): int
  {
    if n == 0 then 0 else Powers(v, n - 1) + Exp(v, n - 1)
  }

  lemma {:induction false} PowersAdd(v: int, j: nat, k: nat)
    ensures Powers(v, j + k) == Powers(v, j) + Exp(v, j) * Powers(v, k)
    decreases k
  {
    if k > 0 {
      PowersAdd(v, j, k - 1);
      PowerAdd(v, j, k - 1);
      Distrib(Powers(v, k - 1), Exp(v, k - 1), Exp(v, j));
    }
  }

  lemma {:induction false} PowersCong(v: int, u: int, n: nat, m: int)
    requires Cong(v, u, m)
    ensures Cong(Powers(v, n), Powers(u, n), m)
  {
    if n == 0 {
      CongSame(0, m);
    } else {
      PowersCong(v, u, n - 1, m);
      PowerCong(v, u, n - 1, m);
      CongAdd(Powers(v, n - 1), Powers(u, n - 1), Exp(v, n - 1), Exp(u, n - 1), m);
    }
  }

  lemma {:induction false} PowersOfOne(n: nat)
    ensures Powers(1, n) == n
  {
    if n > 0 {
      PowersOfOne(n - 1);
      PowerOne(n - 1);
    }
  }

  /** The powers of w^d, 2^len of them, cancel unless d is a multiple of 2^len. */
  lemma {:induction false} Cancels(w: int, len: nat, d: nat, m: int)
    requires len >= 1 && 0 < d < T(len) && Cong(Exp(w, T(len - 1)), -1, m)
    ensures Cong(Powers(Exp(w, d), T(len)), 0, m)
    decreases len
  {
    var h, v := T(len - 1), Exp(w, d);
    TSucc(len - 1);
    PowersAdd(v, h, h);
    MulComm(d, h);
    PowerMul(w, d, h);
    PowerMul(w, h, d);
    PowerCong(Exp(w, h), -1, d, m);
    var s := Powers(v, h);
    if d % 2 == 1 {
      MinusOne(d / 2);
      CongSame(s, m);
      CongMul(Exp(v, h), -1, s, s, m);
      CongAdd(s, s, Exp(v, h) * s, -1 * s, m);
    } else {
      MinusOne(d / 2);
      HalfPowers(w, len, d, m);
      CongMul(Exp(v, h), 1, s, 0, m);
      CongAdd(s, 0, Exp(v, h) * s, 1 * 0, m);
    }
  }

  /** The case of an even exponent: half of the powers cancel already. */
  lemma {:induction false} HalfPowers(w: int, len: nat, d: nat, m: int)
    requires len >= 1 && 0 < d < T(len) && d % 2 == 0 && Cong(Exp(w, T(len - 1)), -1, m)
    ensures Cong(Powers(Exp(w, d), T(len - 1)), 0, m)
    decreases len, 0
  {
    TZero();
    TSucc(len - 1);
    TSucc(len - 2);
    var w2 := Exp(w, 2);
    PowerMul(w, 2, d / 2);
    PowerMul(w, 2, T(len - 2));
    Cancels(w2, len - 1, d / 2, m);
  }

  ghost function Spectrum(x: seq<int>, w: int, n: nat): (s: seq<int>)
    ensures |s| == n && forall j :: 0 <= j < n ==> s[j] == Dft(x, w, j)
  {
    seq(n, j requires 0 <= j => Dft(x, w, j))
  }

  /** The transform of a single one at place t. */
  ghost function Row(w: int, t: nat, n: nat): (r: seq<int>)
    ensures |r| == n && forall j :: 0 <= j < n ==> r[j] == Exp(w, t * j)
  {
    seq(n, j requires 0 <= j => Exp(w, t * j))
  }

  lemma {:induction false} PowerTimes(a: int, b: int, n: nat)
    ensures Exp(a * b, n) == Exp(a, n) * Exp(b, n)
  {
    if n == 0 {
      PowerZero(a);
      PowerZero(b);
      PowerZero(a * b);
    } else {
      PowerTimes(a, b, n - 1);
      PowerSucc(a, n - 1);
      PowerSucc(b, n - 1);
      PowerSucc(a * b, n - 1);
      Swapped(a, b, Exp(a, n - 1), Exp(b, n - 1));
    }
  }

  lemma Swapped(a: int, b: int, c: int, d: int)
    ensures (a * b) * (c * d) == (a * c) * (b * d)
  {}

  lemma {:induction false} RowTransform(w: int, t: nat, v: int, k: nat, n: nat)
    ensures Dft(Row(w, t, n), v, k) == Powers(Exp(w, t) * Exp(v, k), n)
  {
    if n == 0 {
      DftEmpty(v, k);
      assert Row(w, t, 0) == [];
    } else {
      RowTransform(w, t, v, k, n - 1);
      DftLast(Row(w, t, n), v, k);
      assert Row(w, t, n)[..n - 1] == Row(w, t, n - 1);
      PowerMul(w, t, n - 1);
      PowerMul(v, k, n - 1);
      MulComm(k, n - 1);
      PowerTimes(Exp(w, t), Exp(v, k), n - 1);
    }
  }

  /** w and v are inverse to each other, and roots of minus one of order 2^(len - 1). */
  ghost predicate InverseRoots(w: int, v: int, len: nat, m: int)
  {
    len >= 1 && Cong(w * v, 1, m) && Cong(Exp(w, T(len - 1)), -1, m) && Cong(Exp(v, T(len - 1)), -1, m)
  }

  /** w^(d + k) * v^k is w^d. */
  lemma PowersMeet(w: int, v: int, d: nat, k: nat, m: int)
    requires Cong(w * v, 1, m)
    ensures Cong(Exp(w, d + k) * Exp(v, k), Exp(w, d), m)
  {
    PowerAdd(w, d, k);
    PowerTimes(w, v, k);
    PowerCong(w * v, 1, k, m);
    PowerOne(k);
    MulAssoc(Exp(w, d), Exp(w, k), Exp(v, k));
    CongSame(Exp(w, d), m);
    CongMul(Exp(w, d), Exp(w, d), Exp(w, k) * Exp(v, k), 1, m);
  }

  /** Rows are orthogonal. */
  lemma Orthogonal(w: int, v: int, len: nat, t: nat, k: nat, m: int)
    requires InverseRoots(w, v, len, m) && t < T(len) && k < T(len)
    ensures Cong(Dft(Row(w, t, T(len)), v, k), if t == k then T(len) else 0, m)
  {
    var n, u := T(len), Exp(w, t) * Exp(v, k);
    RowTransform(w, t, v, k, n);
    if t >= k {
      PowersMeet(w, v, t - k, k, m);
      PowersCong(u, Exp(w, t - k), n, m);
      if t == k {
        PowerZero(w);
        PowersOfOne(n);
      } else {
        Cancels(w, len, t - k, m);
        CongTrans(Powers(u, n), Powers(Exp(w, t - k), n), 0, m);
      }
    } else {
      MulComm(w, v);
      PowersMeet(v, w, k - t, t, m);
      MulComm(Exp(v, k), Exp(w, t));
      PowersCong(u, Exp(v, k - t), n, m);
      Cancels(v, len, k - t, m);
      CongTrans(Powers(u, n), Powers(Exp(v, k - t), n), 0, m);
    }
  }

  lemma {:induction false} InverseUpTo(x: seq<int>, t: nat, w: int, v: int, len: nat, k: nat, m: int)
    requires InverseRoots(w, v, len, m) && |x| == T(len) && t <= |x| && k < |x|
    ensures Cong(Dft(Spectrum(x[..t], w, |x|), v, k), if k < t then |x| * x[k] else 0, m)
  {
    var n := |x|;
    if t == 0 {
      forall j | 0 <= j < n ensures Spectrum(x[..0], w, n)[j] == 0 {
        DftEmpty(w, j);
        assert x[..0] == [];
      }
      DftZeros(Spectrum(x[..0], w, n), v, k);
      CongSame(0, m);
    } else {
      var s, r, a := Spectrum(x[..t - 1], w, n), Row(w, t - 1, n), x[t - 1];
      InverseUpTo(x, t - 1, w, v, len, k, m);
      NextSpectrum(x, t, w);
      DftPlus(s, a, r, v, k);
      Orthogonal(w, v, len, t - 1, k, m);
      CongSame(a, m);
      CongMul(a, a, Dft(r, v, k), if t - 1 == k then n else 0, m);
      CongAdd(Dft(s, v, k), if k < t - 1 then n * x[k] else 0, a * Dft(r, v, k), a * (if t - 1 == k then n else 0), m);
      MulComm(a, n);
    }
  }

  lemma NextSpectrum(x: seq<int>, t: nat, w: int)
    requires 1 <= t <= |x|
    ensures Spectrum(x[..t], w, |x|) == Plus(Spectrum(x[..t - 1], w, |x|), x[t - 1], Row(w, t - 1, |x|))
  {
    assert x[..t] == x[..t - 1] + [x[t - 1]];
    forall j | 0 <= j < |x| ensures Spectrum(x[..t], w, |x|)[j] == Plus(Spectrum(x[..t - 1], w, |x|), x[t - 1], Row(w, t - 1, |x|))[j] {
      DftSnoc(x[..t - 1], x[t - 1], w, j);
    }
  }

  /** The transform with the inverse root gives back the values, times their number. */
  lemma InverseTransform(x: seq<int>, w: int, v: int, len: nat, k: nat, m: int)
    requires InverseRoots(w, v, len, m) && |x| == T(len) && k < |x|
    ensures Cong(Dft(Spectrum(x, w, |x|), v, k), |x| * x[k], m)
  {
    InverseUpTo(x, |x|, w, v, len, k, m);
    assert x[..|x|] == x;
  }

  /** Transform, multiply value by value and by 1 / n, transform back: the cyclic
      convolution. */
  lemma ConvolutionTheorem(x: seq<int>, y: seq<int>, p: seq<int>, norm: int, w: int, v: int, len: nat, k: nat, m: int)
    requires InverseRoots(w, v, len, m) && |x| == |y| == |p| == T(len) && k < |x| && Cong(norm * |x|, 1, m)
    requires forall j :: 0 <= j < |p| ==> Cong(p[j], (Dft(x, w, j) * Dft(y, w, j)) * norm, m)
    ensures Cong(Dft(p, v, k), Cyclic(x, y, k), m)
  {
    var n, c := |x|, ConvSeq(x, y, |x|);
    FullTurn(w, len, m);
    var s := Spectrum(c, w, n);
    var zeros := seq(n, _ => 0);
    forall j | 0 <= j < n ensures Cong(p[j], Plus(zeros, norm, s)[j], m) {
      TransformsMultiply(x, y, w, j, m);
      CongSame(norm, m);
      CongMul(Dft(c, w, j), Dft(x, w, j) * Dft(y, w, j), norm, norm, m);
      CongBack(Dft(c, w, j) * norm, (Dft(x, w, j) * Dft(y, w, j)) * norm, m);
      CongTrans(p[j], (Dft(x, w, j) * Dft(y, w, j)) * norm, Dft(c, w, j) * norm, m);
      MulComm(norm, s[j]);
    }
    DftCong(p, Plus(zeros, norm, s), v, k, m);
    DftPlus(zeros, norm, s, v, k);
    DftZeros(zeros, v, k);
    InverseTransform(c, w, v, len, k, m);
    CongSame(norm, m);
    CongMul(norm, norm, Dft(s, v, k), n * c[k], m);
    MulAssoc(norm, n, c[k]);
    CongSame(c[k], m);
    CongMul(norm * n, 1, c[k], c[k], m);
    CongTrans(Dft(p, v, k), norm * Dft(s, v, k), norm * (n * c[k]), m);
    CongTrans(Dft(p, v, k), (norm * n) * c[k], 1 * c[k], m);
  }

  lemma FullTurn(w: int, len: nat, m: int)
    requires len >= 1 && Cong(Exp(w, T(len - 1)), -1, m)
    ensures Cong(Exp(w, T(len)), 1, m)
  {
    var h := T(len - 1);
    TSucc(len - 1);
    PowerAdd(w, h, h);
    CongMul(Exp(w, h), -1, Exp(w, h), -1, m);
  }
}
