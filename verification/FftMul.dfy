/** fft_mul as a whole (libbf.c, 7973-8028, 8358-8458): numbers are cut into pieces, the
    residues of the pieces are convolved, and the result is put together. */
module FftMul {
  import opened Hints
  import opened Arith
  import opened Limbs
  import opened LimbOps
  import opened Bits
  import opened Digits
  import opened Congruence
  import opened Fourier
  import opened Convolution
  import opened Ntt
  import opened Garner
  import opened Crt
  import opened NttMul

  // ------------------------------------------------------------------ pieces of a number

  lemma ModSplit(n: nat, j: nat, k: nat)
    ensures n % T(j + k) == n % T(j) + (n / T(j)) % T(k) * T(j)
  {
    var t, u := T(j), T(k);
    TAdd(j, k);
    DivMod(n, t);
    DivMod(n / t, u);
    var q, r := n / t / u, (n / t) % u;
    Distrib(q * u, r, t);
    MulAssoc(q, u, t);
    MulComm(t, u);
    MulMono(r + 1, u, t);
    Distrib(r, 1, t);
    MulNonNeg(r, t);
    DivModUnique(n, t * u, q, n % t + r * t);
  }

  lemma ModMod(n: nat, k: nat, j: nat)
    requires k <= j
    ensures (n % T(j)) % T(k) == n % T(k)
  {
    ModSplit(n, k, j - k);
    DivMod(n, T(k));
    DivModUnique(n % T(j), T(k), (n / T(k)) % T(j - k), n % T(k));
  }

  /** The pieces of dpl bits. */
  ghost function Cut(n: nat, count: nat, dpl: nat): (p: seq<int>)
    ensures |p| == count && forall i :: 0 <= i < count ==> p[i] == PieceAt(n, i * dpl, dpl)
  {
    seq(count, i requires 0 <= i => PieceAt(n, i * dpl, dpl))
  }

  ghost function PieceAt(n: nat, pos: nat, dpl: nat): (p: int)
  {
    (n / T(pos)) % T(dpl)
  }

  lemma PieceBounds(n: nat, pos: nat, dpl: nat)
    ensures 0 <= PieceAt(n, pos, dpl) < T(dpl)
  {
    DivMod(n / T(pos), T(dpl));
  }

  lemma {:induction false} PowerOfTwo(d: nat, i: nat)
    ensures Exp(T(d), i) == T(i * d)
  {
    if i == 0 {
      PowerZero(T(d));
      TZero();
    } else {
      PowerOfTwo(d, i - 1);
      PowerSucc(T(d), i - 1);
      Distrib(i - 1, 1, d);
      TAdd(d, (i - 1) * d);
    }
  }

  /** Pieces are digits in base 2^dpl: their polynomial at 2^dpl is the number. */
  lemma {:induction false} CutValue(n: nat, count: nat, dpl: nat)
    ensures Dft(Cut(n, count, dpl), T(dpl), 1) == n % T(count * dpl)
  {
    if count == 0 {
      DftEmpty(T(dpl), 1);
      assert Cut(n, 0, dpl) == [];
      TZero();
    } else {
      var k := count - 1;
      CutValue(n, k, dpl);
      DftLast(Cut(n, count, dpl), T(dpl), 1);
      assert Cut(n, count, dpl)[..k] == Cut(n, k, dpl);
      PowerOfTwo(dpl, k);
      Distrib(k, 1, dpl);
      ModSplit(n, k * dpl, dpl);
    }
  }

  // ------------------------------------------------------------------ the exact product

  lemma {:induction false} DftNonNeg(z: seq<int>, v: int, k: nat)
    requires v >= 0 && forall q :: 0 <= q < |z| ==> z[q] >= 0
    ensures Dft(z, v, k) >= 0
  {
    if |z| == 0 {
      DftEmpty(v, k);
      assert z == [];
    } else {
      var n := |z| - 1;
      DftLast(z, v, k);
      DftNonNeg(z[..n], v, k);
      ExpNonNeg(v, n * k);
      MulNonNeg(z[n], Exp(v, n * k));
    }
  }

  lemma {:induction false} ExpNonNeg(v: int, n: nat)
    requires v >= 0
    ensures Exp(v, n) >= 0
  {
    if n == 0 {
      PowerZero(v);
    } else {
      ExpNonNeg(v, n - 1);
      PowerSucc(v, n - 1);
      MulNonNeg(v, Exp(v, n - 1));
    }
  }

  ghost predicate NonNegative(x: seq<int>)
  {
    forall q :: 0 <= q < |x| ==> x[q] >= 0
  }

  /** Going round makes a number smaller. */
  lemma TurnSmaller(y: seq<int>, t: nat, v: int)
    requires t < |y| && v >= 1 && NonNegative(y) && Exp(v, |y|) >= 1
    ensures Dft(Rotated(y, t), v, 1) <= Exp(v, t) * Dft(y, v, 1)
  {
    var n := |y|;
    var lo, hi := y[..n - t], y[n - t..];
    assert y == lo + hi;
    RotatedParts(y, t);
    DftConcat(hi, lo, v, 1);
    DftConcat(lo, hi, v, 1);
    var p, u, dl, dh := Exp(v, t), Exp(v, n - t), Dft(lo, v, 1), Dft(hi, v, 1);
    DftNonNeg(hi, v, 1);
    Distrib(dl, u * dh, p);
    MulAssoc(p, u, dh);
    PowerAdd(v, t, n - t);
    MulMono(1, p * u, dh);
  }

  lemma {:induction false} ConvSmaller(x: seq<int>, y: seq<int>, t: nat, v: int)
    requires |x| == |y| && t <= |x| && v >= 1 && NonNegative(x) && NonNegative(y) && Exp(v, |y|) >= 1
    ensures Dft(ConvSeq(x, y, t), v, 1) <= Dft(x[..t], v, 1) * Dft(y, v, 1)
  {
    if t == 0 {
      DftZeros(ConvSeq(x, y, 0), v, 1);
      DftEmpty(v, 1);
      assert x[..0] == [];
    } else {
      var c, r, a := ConvSeq(x, y, t - 1), Rotated(y, t - 1), x[t - 1];
      var dx, dy, p := Dft(x[..t - 1], v, 1), Dft(y, v, 1), Exp(v, t - 1);
      ConvSmaller(x, y, t - 1, v);
      assert ConvSeq(x, y, t) == Plus(c, a, r);
      DftPlus(c, a, r, v, 1);
      TurnSmaller(y, t - 1, v);
      MulMono(Dft(r, v, 1), p * dy, a);
      assert x[..t] == x[..t - 1] + [a];
      DftSnoc(x[..t - 1], a, v, 1);
      Distrib(dx, a * p, dy);
      MulAssoc(a, p, dy);
    }
  }

  lemma {:induction false} ConvBounds(x: seq<int>, y: seq<int>, k: nat, t: nat, u: nat)
    requires |x| == |y| && t <= |x| && u >= 1 && (forall q :: 0 <= q < |x| ==> 0 <= x[q] < u && 0 <= y[q] < u)
    ensures 0 <= ConvUpTo(x, y, k, t) <= t * ((u - 1) * (u - 1))
  {
    if t > 0 {
      ConvBounds(x, y, k, t - 1, u);
      var j := (k - (t - 1)) % |y|;
      MulNonNeg(x[t - 1], y[j]);
      MulMono(x[t - 1], u - 1, y[j]);
      MulMono(y[j], u - 1, u - 1);
      Distrib(t - 1, 1, (u - 1) * (u - 1));
    }
  }

  /** If the product is below 2^(n dpl) - 1, the convolution of the pieces, put together, is
      the product: it is congruent to it modulo that number, and not larger. */
  lemma ConvolvedProduct(a: nat, b: nat, n: nat, dpl: nat)
    requires n >= 1 && a < T(n * dpl) && b < T(n * dpl) && a * b < T(n * dpl) - 1
    ensures Dft(ConvSeq(Cut(a, n, dpl), Cut(b, n, dpl), n), T(dpl), 1) == a * b
  {
    var x, y, v, t := Cut(a, n, dpl), Cut(b, n, dpl), T(dpl), T(n * dpl);
    CutValue(a, n, dpl);
    CutValue(b, n, dpl);
    DivModUnique(a, t, 0, a);
    DivModUnique(b, t, 0, b);
    PowerOfTwo(dpl, n);
    CutNonNegative(a, n, dpl);
    CutNonNegative(b, n, dpl);
    ConvSmaller(x, y, n, v);
    assert x[..n] == x;
    CongBy(Exp(v, n), 1, 1, t - 1);
    TransformsMultiply(x, y, v, 1, t - 1);
    var c := ConvSeq(x, y, n);
    ConvNonNegative(a, b, n, dpl);
    DftNonNeg(c, v, 1);
    CongUnique(Dft(c, v, 1), a * b, t - 1);
  }

  lemma CutNonNegative(a: nat, n: nat, dpl: nat)
    ensures NonNegative(Cut(a, n, dpl)) && forall q :: 0 <= q < n ==> Cut(a, n, dpl)[q] < T(dpl)
  {
    forall q | 0 <= q < n ensures 0 <= Cut(a, n, dpl)[q] < T(dpl) { PieceBounds(a, q * dpl, dpl); }
  }

  lemma ConvNonNegative(a: nat, b: nat, n: nat, dpl: nat)
    ensures forall k :: 0 <= k < n ==> 0 <= ConvSeq(Cut(a, n, dpl), Cut(b, n, dpl), n)[k] <= n * ((T(dpl) - 1) * (T(dpl) - 1))
  {
    CutNonNegative(a, n, dpl);
    CutNonNegative(b, n, dpl);
    forall k | 0 <= k < n ensures 0 <= ConvSeq(Cut(a, n, dpl), Cut(b, n, dpl), n)[k] <= n * ((T(dpl) - 1) * (T(dpl) - 1)) {
      ConvBounds(Cut(a, n, dpl), Cut(b, n, dpl), k, n, T(dpl));
    }
  }

  // ------------------------------------------------------------------ limb_to_ntt

  /** One piece as limb_to_ntt holds it: all of it in a, or the upper part in a and the
      lower LIMB_BITS - 1 bits in low. */
  ghost predicate Held(piece: int, split: bool, a: nat, low: nat, minLog: nat)
  {
    a < B * T(minLog) && if split then low < T(LB() - 1) && piece == a * T(LB() - 1) + low else piece == a
  }

  lemma OneLimbPiece(n: nat, pos: nat, dpl: nat, a0: Limb)
    requires dpl <= LB() && IsBits(n, pos, a0)
    ensures PieceAt(n, pos, dpl) == a0 % T(dpl)
  {
    TLimb();
    ModMod(n / T(pos), dpl, LB());
  }

  lemma TwoLimbPiece(n: nat, pos: nat, dpl: nat, a0: Limb, a1: Limb)
    requires LB() <= dpl <= 2 * LB() && IsBits(n, pos, a0) && IsBits(n, pos + LB(), a1)
    ensures PieceAt(n, pos, dpl) == a0 + (a1 % T(dpl - LB())) * B
  {
    TLimb();
    var h := n / T(pos);
    DivDiv(n, pos, LB());
    ModSplit(h, LB(), dpl - LB());
    ModMod(h / T(LB()), dpl - LB(), LB());
  }

  lemma ThreeLimbPiece(n: nat, pos: nat, dpl: nat, a0: Limb, a1: Limb, a2: Limb)
    requires 2 * LB() <= dpl <= 3 * LB() && IsBits(n, pos, a0) && IsBits(n, pos + LB(), a1) && IsBits(n, pos + 2 * LB(), a2)
    ensures PieceAt(n, pos, dpl) == a0 + (a1 + (a2 % T(dpl - 2 * LB())) * B) * B
  {
    TLimb();
    DivDiv(n, pos, LB());
    ModSplit(n / T(pos), LB(), dpl - LB());
    TwoLimbPiece(n, pos + LB(), dpl - LB(), a1, a2);
  }

  /** The bits above the lower LIMB_BITS - 1. */
  lemma SplitLimb(a0: Limb, a1: nat, a2: nat)
    ensures var t := T(LB() - 1);
            0 <= a0 % t < t && a0 + (a1 + a2 * B) * B == (a0 / t + 2 * a1 + a2 * (2 * B)) * t + a0 % t && a0 / t >= 0
  {
    var t := T(LB() - 1);
    TLimb();
    TSucc(LB() - 1);
    DivMod(a0, t);
    SplitAlgebra(a1, a2, t);
    SplitSum(a0, a0 / t, a0 % t, t, (a1 + a2 * B) * B, 2 * a1 + a2 * (2 * B));
    SignOfQuotient(a0, t);
  }

  lemma SplitSum(a0: int, q: int, r: int, t: int, x: int, y: int)
    requires a0 == q * t + r && x == y * t
    ensures a0 + x == (q + y) * t + r
  {
    Distrib(q, y, t);
  }

  lemma SplitAlgebra(a1: int, a2: int, t: int)
    requires B == 2 * t
    ensures (a1 + a2 * B) * B == (2 * a1 + a2 * (2 * B)) * t
  {
    assert (2 * a1 + a2 * (2 * B)) == 2 * (a1 + a2 * B) by { MulAssoc(a2, 2, B); MulComm(a2, 2); MulAssoc(2, a2, B); }
    MulAssoc(a1 + a2 * B, 2, t);
    MulComm(2, a1 + a2 * B);
  }

  /** The upper part of a split piece is small enough for mod_fast. */
  lemma UpperSmall(piece: int, a: int, low: int, dpl: nat, minLog: nat)
    requires LB() - 1 <= dpl <= 2 * LB() + minLog - 1 && low >= 0 && piece == a * T(LB() - 1) + low < T(dpl)
    ensures a < B * T(minLog)
  {
    var t := T(LB() - 1);
    TAdd(dpl - (LB() - 1), LB() - 1);
    MulCancelLess(a, T(dpl - (LB() - 1)), t);
    TMono(dpl - (LB() - 1), LB() + minLog);
    TAdd(LB(), minLog);
    TLimb();
  }

  /** The bits of one piece. */
  method ReadPiece(tab: array<Limb>, len: nat, pos: nat, dpl: nat, minLog: nat) returns (split: bool, a: nat, low: nat)
    requires len <= tab.Length && 1 <= dpl <= 2 * LB() + minLog - 1 && minLog < LB()
    ensures Held(PieceAt(W(tab[..], 0, len), pos, dpl), split, a, low, minLog)
  {
    ghost var n := W(tab[..], 0, len);
    PieceBounds(n, pos, dpl);
    split, low := dpl > LB() + minLog, 0;
    TLimb();
    var a0 := GetBits(tab, len, pos);
    if dpl <= LB() {
      OneLimbPiece(n, pos, dpl, a0);
      DivMod(a0, T(dpl));
      a := a0 % T(dpl);
      SmallPiece(a, dpl, minLog);
    } else {
      var a1 := GetBits(tab, len, pos + LB());
      if !split {
        TwoLimbPiece(n, pos, dpl, a0, a1);
        DivMod(a1, T(dpl - LB()));
        MulNonNeg(a1 % T(dpl - LB()), B);
        a := a0 + (a1 % T(dpl - LB())) * B;
        SmallPiece(a, dpl, minLog);
      } else {
        a, low := SplitPiece(tab, len, pos, dpl, minLog, a0, a1);
      }
    }
  }

  lemma SmallPiece(a: nat, dpl: nat, minLog: nat)
    requires a < T(dpl) && dpl <= LB() + minLog
    ensures a < B * T(minLog)
  {
    TMono(dpl, LB() + minLog);
    TAdd(LB(), minLog);
    TLimb();
  }

  method SplitPiece(tab: array<Limb>, len: nat, pos: nat, dpl: nat, minLog: nat, a0: Limb, a1: Limb) returns (a: nat, low: nat)
    requires len <= tab.Length && LB() + minLog < dpl <= 2 * LB() + minLog - 1 && minLog < LB()
    requires IsBits(W(tab[..], 0, len), pos, a0) && IsBits(W(tab[..], 0, len), pos + LB(), a1)
    ensures Held(PieceAt(W(tab[..], 0, len), pos, dpl), true, a, low, minLog)
  {
    ghost var n := W(tab[..], 0, len);
    PieceBounds(n, pos, dpl);
    var b1: int, b2: int := a1, 0;
    if dpl > 2 * LB() {
      var a2 := GetBits(tab, len, pos + 2 * LB());
      ThreeLimbPiece(n, pos, dpl, a0, a1, a2);
      DivMod(a2, T(dpl - 2 * LB()));
      b2 := a2 % T(dpl - 2 * LB());
    } else {
      TwoLimbPiece(n, pos, dpl, a0, a1);
      DivMod(a1, T(dpl - LB()));
      b1 := a1 % T(dpl - LB());
    }
    var t := T(LB() - 1);
    SplitLimb(a0, b1, b2);
    MulNonNeg(b2, 2 * B);
    a := a0 / t + 2 * b1 + b2 * (2 * B);
    low := a0 % t;
    UpperSmall(PieceAt(n, pos, dpl), a, low, dpl, minLog);
  }

  /** The residue of a piece: a split one is reduced in two steps. */
  method Residue(split: bool, a: nat, low: nat, ghost piece: int, m: Limb, mInv: Limb, minLog: nat) returns (r: Limb)
    requires Modulus(m) && T(minLog) <= m < 2 * T(minLog) && mInv == (B * T(minLog)) / m && Held(piece, split, a, low, minLog)
    ensures r < m && Cong(r, piece, m)
  {
    r := ModFast(a, m, T(minLog), mInv);
    CongMod(a, m);
    DivMod(a, m);
    CongBack(a, r, m);
    if split {
      var t := T(LB() - 1);
      SecondStep(r, low, m, minLog);
      var b: int := r as int * t + low;
      ghost var r1: int := r;
      CongSame(t, m);
      CongSame(low, m);
      CongMul(r, a, t, t, m);
      CongAdd(r as int * t, a * t, low, low, m);
      r := ModFast(b, m, T(minLog), mInv);
      CongMod(b, m);
      DivMod(b, m);
      CongBack(b, r, m);
      CongTrans(r, b, piece, m);
    }
  }

  lemma SecondStep(r: nat, low: nat, m: nat, minLog: nat)
    requires r < m < 2 * T(minLog) && low < T(LB() - 1)
    ensures 0 <= r * T(LB() - 1) + low < B * T(minLog)
  {
    var t := T(LB() - 1);
    TLimb();
    TSucc(LB() - 1);
    MulMono(r + 1, m, t);
    Distrib(r, 1, t);
    MulMono(m, 2 * T(minLog), t);
    MulNonNeg(r, t);
    TwiceProduct(T(minLog), t);
  }

  lemma TwiceProduct(e: int, t: int)
    ensures (2 * e) * t == (2 * t) * e
  {}

  /** The buffer holds the residues of the pieces of n. */
  ghost predicate Pieced(z: seq<Limb>, n: nat, dpl: nat, m: nat, count: nat)
  {
    count <= |z| && forall i :: 0 <= i < count ==> PieceOk(z[i], n, i, dpl, m)
  }

  ghost predicate PieceOk(r: Limb, n: nat, i: nat, dpl: nat, m: nat)
  {
    r as int < m && Cong(r, PieceAt(n, i * dpl, dpl), m)
  }

  /** limb_to_ntt for one modulus: the pieces above the number are zero. */
  method LimbToNtt(tab: array<Limb>, len: nat, fftLen: nat, dpl: nat, minLog: nat, m: Limb, mInv: Limb) returns (z: array<Limb>)
    requires len <= tab.Length && 1 <= dpl <= 2 * LB() + minLog - 1 && minLog < LB()
    requires Modulus(m) && T(minLog) <= m < 2 * T(minLog) && mInv == (B * T(minLog)) / m
    ensures fresh(z) && z.Length == fftLen && Pieced(z[..], W(tab[..], 0, len), dpl, m, fftLen)
  {
    ghost var n := W(tab[..], 0, len);
    z := new Limb[fftLen](_ => 0);
    var count := Items(fftLen, len * LB(), dpl);
    var i := 0;
    while i < count
      invariant 0 <= i <= count && n == W(tab[..], 0, len) && Pieced(z[..], n, dpl, m, i)
      invariant forall k :: i <= k < fftLen ==> z[k] == 0
    {
      var split, a, low := ReadPiece(tab, len, i * dpl, dpl, minLog);
      var r := Residue(split, a, low, PieceAt(n, i * dpl, dpl), m, mInv, minLog);
      assert PieceOk(r, n, i, dpl, m);
      z[i] := r;
      i := i + 1;
    }
    WBound(tab[..], 0, len);
    RestPieced(z[..], n, len, fftLen, dpl, m);
  }

  /** Above the number there are only zeros. */
  lemma RestPieced(z: seq<Limb>, n: nat, len: nat, fftLen: nat, dpl: nat, m: nat)
    requires dpl >= 1 && m >= 1 && |z| == fftLen && n < P(len) && Pieced(z, n, dpl, m, Items(fftLen, len * LB(), dpl))
    requires forall k :: Items(fftLen, len * LB(), dpl) <= k < fftLen ==> z[k] == 0
    ensures Pieced(z, n, dpl, m, fftLen)
  {
    var count := Items(fftLen, len * LB(), dpl);
    ItemsEnough(fftLen, len * LB(), dpl);
    forall k | count <= k < fftLen ensures PieceOk(z[k], n, k, dpl, m) {
      MulMono(count, k, dpl);
      NoPiece(n, len, k * dpl, dpl);
      CongSame(0, m);
    }
  }

  lemma NoPiece(n: nat, len: nat, pos: nat, dpl: nat)
    requires n < P(len) && pos >= len * LB()
    ensures PieceAt(n, pos, dpl) == 0
  {
    TLimbs(len);
    TMono(len * LB(), pos);
    DivModUnique(n, T(pos), 0, n);
    DivModUnique(0, T(dpl), 0, 0);
  }

  // ------------------------------------------------------------------ fft_mul

  lemma {:induction false} ConvCong(x: seq<int>, y: seq<int>, x1: seq<int>, y1: seq<int>, k: nat, t: nat, m: int)
    requires |x| == |y| == |x1| == |y1| && t <= |x| && AllCong(x, x1, m) && AllCong(y, y1, m)
    ensures Cong(ConvUpTo(x, y, k, t), ConvUpTo(x1, y1, k, t), m)
  {
    if t == 0 {
      CongSame(0, m);
    } else {
      ConvCong(x, y, x1, y1, k, t - 1, m);
      var j := (k - (t - 1)) % |y|;
      CongMul(x[t - 1], x1[t - 1], y[j], y1[j], m);
      CongAdd(ConvUpTo(x, y, k, t - 1), ConvUpTo(x1, y1, k, t - 1), x[t - 1] * y[j], x1[t - 1] * y1[j], m);
    }
  }

  /** The convolution of the pieces. */
  ghost function ItemValues(a: nat, b: nat, n: nat, dpl: nat): (v: seq<nat>)
    ensures |v| == n && forall k :: 0 <= k < n ==> v[k] == Cyclic(Cut(a, n, dpl), Cut(b, n, dpl), k)
  {
    ConvNonNegative(a, b, n, dpl);
    seq(n, k requires 0 <= k < n => ConvSeq(Cut(a, n, dpl), Cut(b, n, dpl), n)[k])
  }

  /** What one modulus contributes. */
  ghost predicate ResiduesOf(z: seq<Limb>, v: seq<nat>, m: nat)
  {
    |z| == |v| && forall k :: 0 <= k < |z| ==> z[k] as int < 2 * m && Cong(v[k], z[k], m)
  }

  lemma PiecesCong(x: seq<Limb>, a: nat, dpl: nat, m: nat, n: nat)
    requires |x| == n && Pieced(x, a, dpl, m, n)
    ensures AllCong(Ints(x), Cut(a, n, dpl), m)
  {
    forall i | 0 <= i < n ensures Cong(Ints(x)[i], Cut(a, n, dpl)[i], m) { assert PieceOk(x[i], a, i, dpl, m); }
  }

  lemma ConvolvedResidues(x: seq<Limb>, y: seq<Limb>, z: seq<Limb>, a: nat, b: nat, dpl: nat, m: nat, n: nat)
    requires |x| == |y| == |z| == n && Pieced(x, a, dpl, m, n) && Pieced(y, b, dpl, m, n) && Convolved(x, y, z, m)
    ensures ResiduesOf(z, ItemValues(a, b, n, dpl), m)
  {
    PiecesCong(x, a, dpl, m, n);
    PiecesCong(y, b, dpl, m, n);
    forall k | 0 <= k < n ensures z[k] as int < 2 * m && Cong(ItemValues(a, b, n, dpl)[k], z[k], m) {
      assert ConvAt(x, y, z, m, k);
      ConvCong(Ints(x), Ints(y), Cut(a, n, dpl), Cut(b, n, dpl), k, n, m);
      CongTrans(z[k], Cyclic(Ints(x), Ints(y), k), Cyclic(Cut(a, n, dpl), Cut(b, n, dpl), k), m);
      CongBack(z[k], Cyclic(Cut(a, n, dpl), Cut(b, n, dpl), k), m);
    }
  }

  /** One modulus: both numbers, their convolution. */
  method OneModulus(a: array<Limb>, alen: nat, b: array<Limb>, blen: nat, dpl: nat, minLog: nat, len: nat, f: Field) returns (z: array<Limb>)
    requires alen <= a.Length && blen <= b.Length && 1 <= dpl <= 2 * LB() + minLog - 1 && minLog < LB() && Prepared(f, minLog, len)
    ensures fresh(z) && ResiduesOf(z[..], ItemValues(W(a[..], 0, alen), W(b[..], 0, blen), T(len), dpl), f.m)
  {
    z := LimbToNtt(a, alen, T(len), dpl, minLog, f.m, f.mInv);
    var y := LimbToNtt(b, blen, T(len), dpl, minLog, f.m, f.mInv);
    var tmp := new Limb[T(len)];
    ghost var x1, y1 := z[..], y[..];
    NttConv(z, y, tmp, f, minLog, len);
    ConvolvedResidues(x1, y1, z[..], W(a[..], 0, alen), W(b[..], 0, blen), dpl, f.m, T(len));
  }

  /** The values of one modulus go to their part of the buffer. */
  method Store(buf: array<Limb>, z: array<Limb>, j: nat, n: nat)
    requires z.Length == n && n * j + n <= buf.Length && buf != z
    modifies buf
    ensures buf[..n * j] == old(buf[..n * j]) && buf[n * j..n * j + n] == z[..]
  {
    ghost var lo, x := buf[..n * j], z[..];
    var i := 0;
    while i < n
      invariant 0 <= i <= n && buf[..n * j] == lo && z[..] == x && buf[n * j..n * j + i] == x[..i]
    {
      ghost var done := buf[n * j..n * j + i];
      buf[n * j + i] := z[i];
      assert buf[n * j..n * j + i] == done;
      assert buf[n * j..n * j + (i + 1)] == done + [x[i]];
      i := i + 1;
    }
  }

  /** The first j moduli are done. */
  ghost predicate Stored(buf: seq<Limb>, v: seq<nat>, mods: seq<Limb>, n: nat, j: nat)
  {
    |v| == n && j <= |mods| && n * j <= |buf| && forall l :: 0 <= l < j ==> StoredPart(buf, v, mods, n, l)
  }

  ghost predicate StoredPart(buf: seq<Limb>, v: seq<nat>, mods: seq<Limb>, n: nat, l: nat)
  {
    l < |mods| && 0 <= n * l <= n * l + n <= |buf| && ResiduesOf(buf[n * l..n * l + n], v, mods[l])
  }

  lemma StoredMore(s: seq<Limb>, t: seq<Limb>, z: seq<Limb>, v: seq<nat>, mods: seq<Limb>, n: nat, j: nat)
    requires Stored(s, v, mods, n, j) && j < |mods| && |s| == |t| && n * j + n <= |t|
    requires t[..n * j] == s[..n * j] && t[n * j..n * j + n] == z && ResiduesOf(z, v, mods[j])
    ensures Stored(t, v, mods, n, j + 1)
  {
    Distrib(j, 1, n);
    forall l | 0 <= l < j + 1 ensures StoredPart(t, v, mods, n, l) {
      if l < j {
        assert StoredPart(s, v, mods, n, l);
        MulMono(l + 1, j, n);
        Distrib(l, 1, n);
        assert t[n * l..n * l + n] == t[..n * j][n * l..n * l + n] == s[..n * j][n * l..n * l + n] == s[n * l..n * l + n];
      }
    }
  }

  lemma StoredResidues(buf: seq<Limb>, v: seq<nat>, mods: seq<Limb>, n: nat, i: nat)
    requires Stored(buf, v, mods, n, |mods|) && i < n
    ensures Residues(buf, n, mods, i, v[i])
  {
    forall j | 0 <= j < |mods| ensures ResidueAt(buf, n, mods, i, v[i], j) {
      assert StoredPart(buf, v, mods, n, j);
      assert buf[n * j..n * j + n][i] == buf[i + n * j];
    }
  }

  /** All moduli. */
  method AllModuli(a: array<Limb>, alen: nat, b: array<Limb>, blen: nat, dpl: nat, minLog: nat, len: nat, fields: seq<Field>, mods: seq<Limb>) returns (buf: array<Limb>)
    requires alen <= a.Length && blen <= b.Length && 1 <= dpl <= 2 * LB() + minLog - 1 && minLog < LB()
    requires |mods| == |fields| && forall j :: 0 <= j < |fields| ==> Prepared(fields[j], minLog, len) && mods[j] == fields[j].m
    ensures fresh(buf) && Stored(buf[..], ItemValues(W(a[..], 0, alen), W(b[..], 0, blen), T(len), dpl), mods, T(len), |mods|)
  {
    ghost var v := ItemValues(W(a[..], 0, alen), W(b[..], 0, blen), T(len), dpl);
    var n := T(len);
    buf := new Limb[n * |mods|];
    ghost var s1, s2 := a[..], b[..];
    var j := 0;
    while j < |mods|
      invariant 0 <= j <= |mods| && a[..] == s1 && b[..] == s2 && Stored(buf[..], v, mods, n, j)
    {
      var z := OneModulus(a, alen, b, blen, dpl, minLog, len, fields[j]);
      MulMono(j + 1, |mods|, n);
      Distrib(j, 1, n);
      ghost var s := buf[..];
      Store(buf, z, j, n);
      StoredMore(s, buf[..], z[..], v, mods, n, j);
      j := j + 1;
    }
  }

  /** What bf_get_fft_size guarantees for a product of len limbs: the pieces cover it, and
      their convolution is below the product of the moduli. */
  ghost predicate Plan(width: nat, dpl: nat, minLog: nat, len: nat, mods: seq<Limb>)
  {
    1 <= dpl <= 2 * LB() + minLog - 1 && minLog < LB() && T(len) * dpl >= width * LB() && T(len + 2 * dpl) <= ProductOf(Ints(mods))
  }

  lemma ItemsReady(buf: seq<Limb>, x: nat, y: nat, dpl: nat, minLog: nat, len: nat, width: nat, mods: seq<Limb>)
    requires Plan(width, dpl, minLog, len, mods) && Stored(buf, ItemValues(x, y, T(len), dpl), mods, T(len), |mods|)
    ensures var v := ItemValues(x, y, T(len), dpl); forall i :: 0 <= i < T(len) ==> v[i] < ProductOf(Ints(mods)) && Residues(buf, T(len), mods, i, v[i])
  {
    var v := ItemValues(x, y, T(len), dpl);
    ConvNonNegative(x, y, T(len), dpl);
    ItemBound(len, dpl);
    forall i | 0 <= i < T(len) ensures v[i] < ProductOf(Ints(mods)) && Residues(buf, T(len), mods, i, v[i]) {
      StoredResidues(buf, v, mods, T(len), i);
    }
  }

  lemma ItemBound(len: nat, dpl: nat)
    requires dpl >= 1
    ensures T(len) * ((T(dpl) - 1) * (T(dpl) - 1)) < T(len + 2 * dpl)
  {
    var u := T(dpl);
    TZero();
    TStrict(0, dpl);
    TAdd(dpl, dpl);
    TAdd(len, 2 * dpl);
    MulMono(u - 1, u, u - 1);
    MulStrict(u - 1, u, u);
    MulStrict((u - 1) * (u - 1), u * u, T(len));
  }

  lemma {:induction false} PieceSumIs(v: seq<nat>, z: seq<int>, t: nat, dpl: nat)
    requires t <= |v| == |z| && forall k :: 0 <= k < |v| ==> z[k] == v[k]
    ensures PieceSum(v, t, dpl) == Dft(z[..t], T(dpl), 1)
  {
    if t == 0 {
      DftEmpty(T(dpl), 1);
      assert z[..0] == [];
    } else {
      PieceSumIs(v, z, t - 1, dpl);
      assert z[..t] == z[..t - 1] + [z[t - 1]];
      DftSnoc(z[..t - 1], z[t - 1], T(dpl), 1);
      PowerOfTwo(dpl, t - 1);
    }
  }

  /** The sum of the items is the product. */
  lemma ProductOfPieces(x: nat, y: nat, alen: nat, blen: nat, dpl: nat, len: nat)
    requires x < P(alen) && y < P(blen) && alen >= 1 && blen >= 1 && T(len) * dpl >= (alen + blen) * LB()
    ensures PieceSum(ItemValues(x, y, T(len), dpl), T(len), dpl) % P(alen + blen) == x * y
  {
    var n, width := T(len), alen + blen;
    TLimbs(width);
    TMono(width * LB(), n * dpl);
    PAdd(alen, blen);
    TwoOrMore(alen);
    TwoOrMore(blen);
    BelowProduct(x, y, P(alen), P(blen));
    MulMono(2, P(blen), P(alen));
    MulMono(2, P(alen), P(blen));
    ConvolvedProduct(x, y, n, dpl);
    var c := ConvSeq(Cut(x, n, dpl), Cut(y, n, dpl), n);
    PieceSumIs(ItemValues(x, y, n, dpl), c, n, dpl);
    assert c[..n] == c;
    DivModUnique(x * y, P(width), 0, x * y);
  }

  lemma TwoOrMore(n: nat)
    requires n >= 1
    ensures P(n) >= 2
  {
    PSucc(n - 1);
    MulMono(1, P(n - 1), B);
  }

  lemma BelowProduct(x: nat, y: nat, p: nat, q: nat)
    requires x < p && y < q && p >= 2 && q >= 2
    ensures 0 <= x * y < p * q - 1
  {
    MulNonNeg(x, y);
    MulMono(x, p - 1, y);
    MulMono(y, q - 1, p - 1);
    Distrib(p, 1, q - 1);
    Distrib(q, 1, p);
  }

  /** fft_mul: the product. */
  method FftMul(res: array<Limb>, a: array<Limb>, alen: nat, b: array<Limb>, blen: nat, dpl: nat, minLog: nat, len: nat,
                fields: seq<Field>, mods: seq<Limb>, cr: seq<Limb>, crInv: seq<Limb>)
    requires 1 <= alen <= a.Length && 1 <= blen <= b.Length && res.Length == alen + blen && Plan(alen + blen, dpl, minLog, len, mods)
    requires |mods| == |fields| && forall j :: 0 <= j < |fields| ==> Prepared(fields[j], minLog, len) && mods[j] == fields[j].m
    requires Setup(mods, cr, crInv, dpl, (dpl - 1) / LB(), dpl - (dpl - 1) / LB() * LB())
    modifies res
    ensures W(res[..], 0, res.Length) == W(old(a[..]), 0, alen) * W(old(b[..]), 0, blen)
  {
    ghost var x, y := W(a[..], 0, alen), W(b[..], 0, blen);
    ghost var v := ItemValues(x, y, T(len), dpl);
    WBound(a[..], 0, alen);
    WBound(b[..], 0, blen);
    var buf := AllModuli(a, alen, b, blen, dpl, minLog, len, fields, mods);
    ItemsReady(buf[..], x, y, dpl, minLog, len, alen + blen, mods);
    NttToLimb(res, buf, T(len), dpl, mods, cr, crInv, v);
    ProductOfPieces(x, y, alen, blen, dpl, len);
  }
}
