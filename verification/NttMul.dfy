/** Multiplication by transforms (libbf.c, 7780-7801, 7882-8040, 8358-8458): ntt_vec_mul,
    ntt_conv, limb_to_ntt and fft_mul. */
module NttMul {
  import opened Hints
  import opened Arith
  import opened Limbs
  import opened LimbOps
  import opened Bits
  import opened Digits
  import opened Congruence
  import opened Fourier
  import opened Convolution
  import opened Ntt

  /** A modulus with its tables: the inverse for reductions, 1 / n, and the roots with their
      powers in both directions. */
  datatype Field = Field(m: Limb, mInv: Limb, norm: Limb, normInv: Limb, root: int, back: int, trigs: seq<seq<Limb>>, backTrigs: seq<seq<Limb>>)

  /** The tables of ntt_static_init for transforms of length 2^len; moduli have minLog + 1
      bits. */
  ghost predicate Prepared(f: Field, minLog: nat, len: nat)
  {
    Modulus(f.m) && T(minLog) <= f.m < 2 * T(minLog) && f.mInv == (B * T(minLog)) / f.m &&
    f.norm < f.m && f.normInv == Shoup(f.norm, f.m) && Cong(f.norm as int * T(len) as int, 1, f.m) &&
    Tables(f.trigs, f.root, len, f.m) && Tables(f.backTrigs, f.back, len, f.m) && InverseRoots(f.root, f.back, len, f.m)
  }

  // ------------------------------------------------------------------ ntt_vec_mul

  lemma ProductFits(a: nat, b: nat, m: nat, e: nat)
    requires a < m && b < 2 * m && m < 2 * e && 4 * m <= B
    ensures a * b < B * e
  {
    MulMono(a, m, b);
    MulStrict(b, 2 * m, m);
    MulMono(4 * m, B, m);
    MulMono(m, 2 * e, B);
    assert m * (2 * m) * 2 == (4 * m) * m;
    MulComm(B, m);
    assert B * (2 * e) == 2 * (B * e);
  }

  /** One value: the product, divided by n. */
  method Scaled(x: Limb, y: Limb, f: Field, minLog: nat, ghost len: nat) returns (r: Limb)
    requires Prepared(f, minLog, len) && x < 2 * f.m && y < 2 * f.m
    ensures r < 2 * f.m && Cong(r, (x as int * y as int) * f.norm as int, f.m)
  {
    var a: int := x;
    CongSame(x, f.m);
    if a >= f.m {
      a := a - f.m;
      CongBy(a, x, -1, f.m);
    }
    ProductFits(a, y, f.m, T(minLog));
    MulNonNeg(a, y);
    var b := ModFast(a * y as int, f.m, T(minLog), f.mInv);
    r := MulModFast3(b, f.norm, f.m, f.normInv);
    CongSame(y, f.m);
    CongMul(a, x, y, y, f.m);
    CongMod(a * y as int, f.m);
    CongBack(a * y as int, b, f.m);
    CongTrans(b, a * y as int, x as int * y as int, f.m);
    CongSame(f.norm, f.m);
    CongMul(b, x as int * y as int, f.norm, f.norm, f.m);
    CongTrans(r, b as int * f.norm as int, (x as int * y as int) * f.norm as int, f.m);
  }

  ghost predicate ProductAt(x: seq<Limb>, y: seq<Limb>, z: seq<Limb>, f: Field, i: nat)
  {
    i < |x| && i < |y| && i < |z| && z[i] as int < 2 * f.m as int && Cong(z[i], (x[i] as int * y[i] as int) * f.norm as int, f.m)
  }

  /** ntt_vec_mul */
  method VecMul(tab1: array<Limb>, tab2: array<Limb>, f: Field, minLog: nat, ghost len: nat)
    requires Prepared(f, minLog, len) && tab1.Length == tab2.Length && tab1 != tab2
    requires Ranged(tab1[..], 0, tab1.Length, 2 * f.m) && Ranged(tab2[..], 0, tab2.Length, 2 * f.m)
    modifies tab1
    ensures forall i :: 0 <= i < tab1.Length ==> ProductAt(old(tab1[..]), tab2[..], tab1[..], f, i)
  {
    ghost var x, y := tab1[..], tab2[..];
    var i := 0;
    while i < tab1.Length
      invariant 0 <= i <= tab1.Length && tab2[..] == y && (forall k :: i <= k < tab1.Length ==> tab1[k] == x[k])
      invariant forall k :: 0 <= k < i ==> ProductAt(x, y, tab1[..], f, k)
    {
      ghost var z := tab1[..];
      var r := Scaled(tab1[i], tab2[i], f, minLog, len);
      tab1[i] := r;
      forall k | 0 <= k <= i ensures ProductAt(x, y, tab1[..], f, k) {
        if k < i { assert ProductAt(x, y, z, f, k); }
      }
      i := i + 1;
    }
  }

  // ------------------------------------------------------------------ ntt_conv

  ghost predicate ConvAt(x: seq<Limb>, y: seq<Limb>, z: seq<Limb>, m: nat, k: nat)
  {
    |x| == |y| && k < |z| && z[k] as int < 2 * m && Cong(z[k], Cyclic(Ints(x), Ints(y), k), m)
  }

  /** The products of transforms, as the convolution theorem wants them. */
  lemma ProductsOk(x: seq<int>, y: seq<int>, x1: seq<Limb>, y1: seq<Limb>, p: seq<Limb>, f: Field, j: nat)
    requires ProductAt(x1, y1, p, f, j) && Cong(x1[j], Dft(x, f.root, j), f.m) && Cong(y1[j], Dft(y, f.root, j), f.m)
    ensures Cong(p[j], (Dft(x, f.root, j) * Dft(y, f.root, j)) * f.norm, f.m)
  {
    CongMul(x1[j], Dft(x, f.root, j), y1[j], Dft(y, f.root, j), f.m);
    CongSame(f.norm, f.m);
    CongMul(x1[j] as int * y1[j] as int, Dft(x, f.root, j) * Dft(y, f.root, j), f.norm, f.norm, f.m);
    CongTrans(p[j], (x1[j] as int * y1[j] as int) * f.norm as int, (Dft(x, f.root, j) * Dft(y, f.root, j)) * f.norm as int, f.m);
  }

  /** z is the transform of x. */
  ghost predicate Transformed(x: seq<Limb>, z: seq<Limb>, w: int, m: nat)
  {
    |x| == |z| && Ranged(z, 0, |z|, 2 * m) && forall t :: AskFor(Subject.Convolutions, t) ==> forall k :: 0 <= k < |z| ==> Cong(z[k], Dft(Ints(x), w, k), m)
  }

  /** ntt_fft_partial for a transform in one piece, in place. */
  method InPlace(buf: array<Limb>, tmp: array<Limb>, trigs: seq<seq<Limb>>, ghost w: int, len: nat, m: Limb)
    requires len >= 1 && buf.Length == tmp.Length == T(len) && tmp != buf && Modulus(m)
    requires Tables(trigs, w, len, m) && Cong(Exp(w, T(len - 1)), -1, m) && Ranged(buf[..], 0, buf.Length, 2 * m)
    modifies buf, tmp
    ensures Transformed(old(buf[..]), buf[..], w, m)
  {
    NttFft(buf, buf, tmp, trigs, w, len, m);
  }

  ghost predicate Products(x: seq<Limb>, y: seq<Limb>, z: seq<Limb>, f: Field)
  {
    |x| == |y| == |z| && Ranged(z, 0, |z|, 2 * f.m as int) && forall t :: AskFor(Subject.Convolutions, t) ==> forall i :: 0 <= i < |z| ==> ProductAt(x, y, z, f, i)
  }

  method Multiply(tab1: array<Limb>, tab2: array<Limb>, f: Field, minLog: nat, ghost len: nat)
    requires Prepared(f, minLog, len) && tab1.Length == tab2.Length && tab1 != tab2
    requires Ranged(tab1[..], 0, tab1.Length, 2 * f.m) && Ranged(tab2[..], 0, tab2.Length, 2 * f.m)
    modifies tab1
    ensures Products(old(tab1[..]), tab2[..], tab1[..], f)
  {
    VecMul(tab1, tab2, f, minLog, len);
    ProductRange(old(tab1[..]), tab2[..], tab1[..], f);
  }

  /** All values of a convolution. */
  ghost predicate Convolved(x: seq<Limb>, y: seq<Limb>, z: seq<Limb>, m: nat)
  {
    forall k :: 0 <= k < |z| ==> ConvAt(x, y, z, m, k)
  }

  /** ntt_conv for a length that is transformed in one piece: the cyclic convolution. */
  method NttConv(buf1: array<Limb>, buf2: array<Limb>, tmp: array<Limb>, f: Field, minLog: nat, len: nat)
    requires Prepared(f, minLog, len) && buf1.Length == buf2.Length == tmp.Length == T(len) && buf1 != buf2 && tmp != buf1 && tmp != buf2
    requires Ranged(buf1[..], 0, buf1.Length, 2 * f.m) && Ranged(buf2[..], 0, buf2.Length, 2 * f.m)
    modifies buf1, buf2, tmp
    ensures Convolved(old(buf1[..]), old(buf2[..]), buf1[..], f.m)
  {
    ghost var x, y := buf1[..], buf2[..];
    InPlace(buf1, tmp, f.trigs, f.root, len, f.m);
    ghost var x1 := buf1[..];
    InPlace(buf2, tmp, f.trigs, f.root, len, f.m);
    ghost var y1 := buf2[..];
    Multiply(buf1, buf2, f, minLog, len);
    ghost var p := buf1[..];
    InPlace(buf1, tmp, f.backTrigs, f.back, len, f.m);
    BackTransformed(x, y, x1, y1, p, buf1[..], f, minLog, len);
  }

  lemma ProductRange(x1: seq<Limb>, y1: seq<Limb>, p: seq<Limb>, f: Field)
    requires forall i :: 0 <= i < |p| ==> ProductAt(x1, y1, p, f, i)
    ensures Ranged(p, 0, |p|, 2 * f.m as int)
  {
    forall i | 0 <= i < |p| ensures p[i] as int < 2 * f.m as int { assert ProductAt(x1, y1, p, f, i); }
  }

  lemma BackTransformed(x: seq<Limb>, y: seq<Limb>, x1: seq<Limb>, y1: seq<Limb>, p: seq<Limb>, z: seq<Limb>, f: Field, minLog: nat, len: nat)
    requires Prepared(f, minLog, len) && |x| == |y| == T(len)
    requires Transformed(x, x1, f.root, f.m) && Transformed(y, y1, f.root, f.m) && Products(x1, y1, p, f) && Transformed(p, z, f.back, f.m)
    ensures Convolved(x, y, z, f.m)
  {
    assert AskFor(Subject.Convolutions, 0);
    forall j | 0 <= j < |p| ensures Cong(Ints(p)[j], (Dft(Ints(x), f.root, j) * Dft(Ints(y), f.root, j)) * f.norm, f.m) {
      ProductsOk(Ints(x), Ints(y), x1, y1, p, f, j);
    }
    forall k | 0 <= k < |z| ensures ConvAt(x, y, z, f.m, k) {
      ConvolutionTheorem(Ints(x), Ints(y), Ints(p), f.norm, f.root, f.back, len, k, f.m);
      CongTrans(z[k], Dft(Ints(p), f.back, k), Cyclic(Ints(x), Ints(y), k), f.m);
    }
  }
}
