/** From residues to limbs (libbf.c, 7240-7257, 8146-8243): ntt_to_limb. */
module Crt {
  import opened Hints
  import opened Arith
  import opened Limbs
  import opened LimbOps
  import opened Bits
  import opened Congruence
  import opened Ntt
  import opened Garner
  import opened LimbBits
  import D = Digits
  import LogicOp

  // ------------------------------------------------------------------- mixed radix digits

  /** Increasing moduli of a transform. */
  ghost predicate Moduli(mods: seq<Limb>)
  {
    |mods| >= 1 && (forall j :: 0 <= j < |mods| ==> Modulus(mods[j])) && (forall j, k :: 0 <= j < k < |mods| ==> mods[j] < mods[k])
  }

  /** Where the constants for modulus j start in the table. */
  function RowStart(n: nat, j: nat): nat
    requires j <= n
  {
    if j == 0 then 0 else RowStart(n, j - 1) + (n - j)
  }

  /** Entry l is the inverse of modulus j modulo modulus k. */
  ghost predicate InverseAt(mods: seq<Limb>, cr: seq<Limb>, crInv: seq<Limb>, j: nat, k: nat, l: nat)
  {
    j < k < |mods| && l < |cr| && l < |crInv| && mods[k] > 0 && cr[l] < mods[k] && crInv[l] == Shoup(cr[l], mods[k]) &&
    Cong(cr[l] as int * mods[j] as int, 1, mods[k])
  }

  ghost predicate InverseFor(mods: seq<Limb>, cr: seq<Limb>, crInv: seq<Limb>, j: nat, k: nat)
  {
    j < k < |mods| && InverseAt(mods, cr, crInv, j, k, RowStart(|mods|, j) + (k - j - 1))
  }

  ghost predicate Inverses(mods: seq<Limb>, cr: seq<Limb>, crInv: seq<Limb>)
  {
    forall j, k :: 0 <= j < k < |mods| ==> InverseFor(mods, cr, crInv, j, k)
  }

  lemma InversesCoprime(mods: seq<Limb>, cr: seq<Limb>, crInv: seq<Limb>)
    requires Inverses(mods, cr, crInv)
    ensures Coprime(Ints(mods))
  {
    var ms := Ints(mods);
    forall j, k | 0 <= j < k < |ms| ensures Invertible(ms[j], ms[k]) {
      var l := RowStart(|mods|, j) + (k - j - 1);
      assert InverseFor(mods, cr, crInv, j, k);
      assert Cong(cr[l] as int * ms[j], 1, ms[k]);
    }
  }

  /** Residue k, after the digits before j have been split off. */
  ghost predicate DigitOk(y: seq<Limb>, x: seq<Limb>, mods: seq<Limb>, j: nat, k: nat)
  {
    k < |y| == |x| == |mods| && y[k] < mods[k] &&
    var i := if j < k then j else k;
    Cong(Nest(Ints(y[..i]), Ints(mods[..i]), y[k]), x[k], mods[k])
  }

  ghost predicate Digits(y: seq<Limb>, x: seq<Limb>, mods: seq<Limb>, j: nat)
  {
    |y| == |x| == |mods| && forall k :: 0 <= k < |y| ==> DigitOk(y, x, mods, j, k)
  }

  /** In row j the digits before k are done. */
  ghost predicate Partly(y: seq<Limb>, x: seq<Limb>, mods: seq<Limb>, j: nat, k: nat)
  {
    |y| == |x| == |mods| && forall i :: 0 <= i < |y| ==> PartOk(y, x, mods, j, k, i)
  }

  ghost predicate PartOk(y: seq<Limb>, x: seq<Limb>, mods: seq<Limb>, j: nat, k: nat, i: nat)
  {
    DigitOk(y, x, mods, if i < k then j + 1 else j, i)
  }

  lemma DigitsStart(y: seq<Limb>, mods: seq<Limb>)
    requires |y| == |mods| && forall k :: 0 <= k < |y| ==> y[k] < mods[k]
    ensures Digits(y, y, mods, 0)
  {
    forall k | 0 <= k < |y| ensures DigitOk(y, y, mods, 0, k) {
      assert Ints(y[..0]) == [] && Ints(mods[..0]) == [];
      CongSame(y[k], mods[k]);
    }
  }

  /** Splitting digit j off residue k. */
  lemma SplitOff(y: seq<Limb>, y1: seq<Limb>, x: seq<Limb>, mods: seq<Limb>, j: nat, k: nat)
    requires Partly(y, x, mods, j, k) && j < k < |y| == |y1| && y1 == y[k := y1[k]] && y1[k] < mods[k]
    requires Cong(y[j] as int + mods[j] as int * y1[k] as int, y[k], mods[k])
    ensures Partly(y1, x, mods, j, k + 1)
  {
    var k1 := k + 1;
    forall i | 0 <= i < |y1| ensures PartOk(y1, x, mods, j, k1, i) {
      assert PartOk(y, x, mods, j, k, i);
      var d := if (if i < k then j + 1 else j) < i then (if i < k then j + 1 else j) else i;
      assert y1[..d] == y[..d];
      if i == k {
        NestMore(y, y1, mods, j, k);
        CongTrans(Nest(Ints(y1[..j + 1]), Ints(mods[..j + 1]), y1[k]), Nest(Ints(y[..j]), Ints(mods[..j]), y[k]), x[k], mods[k]);
      }
    }
  }

  lemma NestMore(y: seq<Limb>, y1: seq<Limb>, mods: seq<Limb>, j: nat, k: nat)
    requires j < k < |y| == |mods| == |y1| && y1 == y[k := y1[k]] && Cong(y[j] as int + mods[j] as int * y1[k] as int, y[k], mods[k])
    ensures Cong(Nest(Ints(y1[..j + 1]), Ints(mods[..j + 1]), y1[k]), Nest(Ints(y[..j]), Ints(mods[..j]), y[k]), mods[k])
  {
    assert Ints(y1[..j + 1]) == Ints(y[..j]) + [y[j] as int];
    assert Ints(mods[..j + 1]) == Ints(mods[..j]) + [mods[j] as int];
    NestSnoc(Ints(y[..j]), Ints(mods[..j]), y[j], mods[j], y1[k]);
    NestCong(Ints(y[..j]), Ints(mods[..j]), y[j] as int + mods[j] as int * y1[k] as int, y[k], mods[k]);
  }

  /** (yk - yj) / mj modulo mk */
  method Quotient(yj: Limb, yk: Limb, ghost mj: Limb, mk: Limb, c: Limb, cInv: Limb) returns (r: Limb)
    requires Modulus(mk) && yj < mk && yk < mk && c < mk && cInv == Shoup(c, mk) && Cong(c as int * mj as int, 1, mk)
    ensures r < mk && Cong(yj as int + mj as int * r as int, yk, mk)
  {
    var d: Limb := yk - yj + mk;
    r := MulModFast2(d, c, mk, cInv);
    CongMod(d as int * c as int, mk);
    QuotientCong(yj, yk, mj, mk, c, d, r);
  }

  lemma QuotientCong(yj: int, yk: int, mj: int, mk: int, c: int, d: int, r: int)
    requires d == yk - yj + mk && Cong(d * c, r, mk) && Cong(c * mj, 1, mk)
    ensures Cong(yj + mj * r, yk, mk)
  {
    CongSame(mj, mk);
    CongSame(d, mk);
    CongSame(yj, mk);
    CongBack(d * c, r, mk);
    CongMul(r, d * c, mj, mj, mk);
    CongMul(d, d, c * mj, 1, mk);
    MulAssoc(d, c, mj);
    CongTrans(r * mj, d * (c * mj), d * 1, mk);
    CongBy(d, yk - yj, 1, mk);
    CongTrans(r * mj, d, yk - yj, mk);
    CongAdd(yj, yj, r * mj, yk - yj, mk);
    MulComm(r, mj);
  }

  /** The Chinese remainder loops of ntt_to_limb. */
  method MixedRadix(y: array<Limb>, mods: seq<Limb>, cr: seq<Limb>, crInv: seq<Limb>)
    requires Moduli(mods) && y.Length == |mods| && Inverses(mods, cr, crInv)
    requires forall k :: 0 <= k < y.Length ==> y[k] < mods[k]
    modifies y
    ensures Digits(y[..], old(y[..]), mods, |mods|)
  {
    var n := |mods|;
    ghost var x := y[..];
    DigitsStart(x, mods);
    var j, l := 0, 0;
    while j < n - 1
      invariant 0 <= j <= n - 1 && l == RowStart(n, j) && Digits(y[..], x, mods, j)
    {
      l := SplitRow(y, x, mods, cr, crInv, j, l);
      j := j + 1;
    }
    LastRow(y[..], x, mods);
  }

  /** Digit j is split off all later residues. */
  method SplitRow(y: array<Limb>, ghost x: seq<Limb>, mods: seq<Limb>, cr: seq<Limb>, crInv: seq<Limb>, j: nat, l0: nat) returns (l: nat)
    requires Moduli(mods) && y.Length == |mods| && Inverses(mods, cr, crInv) && j < |mods|
    requires Digits(y[..], x, mods, j) && l0 == RowStart(|mods|, j)
    modifies y
    ensures Digits(y[..], x, mods, j + 1) && l == RowStart(|mods|, j + 1)
  {
    var n := |mods|;
    l := l0;
    var k := j + 1;
    RowBegins(y[..], x, mods, j);
    while k < n
      invariant j + 1 <= k <= n && l == l0 + (k - j - 1) && Partly(y[..], x, mods, j, k)
    {
      SplitResidue(y, x, mods, cr, crInv, j, k, l);
      l := l + 1;
      k := k + 1;
    }
    RowEnds(y[..], x, mods, j);
  }

  method SplitResidue(y: array<Limb>, ghost x: seq<Limb>, mods: seq<Limb>, cr: seq<Limb>, crInv: seq<Limb>, j: nat, k: nat, l: nat)
    requires Moduli(mods) && y.Length == |mods| && Inverses(mods, cr, crInv) && j < k < |mods|
    requires l == RowStart(|mods|, j) + (k - j - 1) && Partly(y[..], x, mods, j, k)
    modifies y
    ensures Partly(y[..], x, mods, j, k + 1)
  {
    ghost var t := y[..];
    assert PartOk(t, x, mods, j, k, j) && PartOk(t, x, mods, j, k, k);
    assert InverseFor(mods, cr, crInv, j, k);
    var r := Quotient(y[j], y[k], mods[j], mods[k], cr[l], crInv[l]);
    y[k] := r;
    SplitOff(t, y[..], x, mods, j, k);
  }

  lemma RowBegins(y: seq<Limb>, x: seq<Limb>, mods: seq<Limb>, j: nat)
    requires Digits(y, x, mods, j)
    ensures Partly(y, x, mods, j, j + 1)
  {
    var j1 := j + 1;
    forall i | 0 <= i < |y| ensures PartOk(y, x, mods, j, j1, i) {
      assert DigitOk(y, x, mods, j, i);
    }
  }

  lemma RowEnds(y: seq<Limb>, x: seq<Limb>, mods: seq<Limb>, j: nat)
    requires Partly(y, x, mods, j, |mods|)
    ensures Digits(y, x, mods, j + 1)
  {
    var j1 := j + 1;
    forall i | 0 <= i < |y| ensures DigitOk(y, x, mods, j1, i) {
      assert PartOk(y, x, mods, j, |mods|, i);
    }
  }

  lemma LastRow(y: seq<Limb>, x: seq<Limb>, mods: seq<Limb>)
    requires |mods| >= 1 && Digits(y, x, mods, |mods| - 1)
    ensures Digits(y, x, mods, |mods|)
  {
    forall i | 0 <= i < |y| ensures DigitOk(y, x, mods, |mods|, i) {
      assert DigitOk(y, x, mods, |mods| - 1, i);
    }
  }

  /** The number that mixed radix digits stand for. */
  ghost function MixedValue(y: seq<Limb>, mods: seq<Limb>): int
    requires |y| == |mods|
  {
    Nest(Ints(y), Ints(mods), 0)
  }

  /** It is the one number below the product of the moduli with the given residues. */
  lemma MixedCorrect(y: seq<Limb>, x: seq<Limb>, mods: seq<Limb>, v: int)
    requires Digits(y, x, mods, |mods|) && Coprime(Ints(mods)) && 0 <= v < ProductOf(Ints(mods))
    ensures 0 <= MixedValue(y, mods) < ProductOf(Ints(mods))
    ensures (forall k :: 0 <= k < |mods| ==> Cong(v, x[k], mods[k])) <==> v == MixedValue(y, mods)
  {
    var ms := Ints(mods);
    forall k | 0 <= k < |mods| ensures Cong(MixedValue(y, mods), x[k], mods[k]) && y[k] < mods[k] {
      assert DigitOk(y, x, mods, |mods|, k);
      NestPrefix(Ints(y), ms, k, mods[k]);
      assert Ints(y)[..k] == Ints(y[..k]) && ms[..k] == Ints(mods[..k]);
      CongTrans(MixedValue(y, mods), Nest(Ints(y[..k]), Ints(mods[..k]), y[k]), x[k], mods[k]);
    }
    NestBound(Ints(y), ms, 0);
    if forall k :: 0 <= k < |mods| ==> Cong(v, x[k], mods[k]) {
      forall k | 0 <= k < |ms| ensures Cong(v, MixedValue(y, mods), ms[k]) {
        CongBack(MixedValue(y, mods), x[k], mods[k]);
        CongTrans(v, x[k], MixedValue(y, mods), mods[k]);
      }
      CrtUnique(ms, v, MixedValue(y, mods));
    }
  }

  // ---------------------------------------------------------- back to normal representation

  /** The invariant of the multiplication: r is carried into limb i. */
  ghost predicate Multiplied(u: seq<Limb>, u0: seq<Limb>, c: seq<Limb>, i: nat, b: int, r0: int, r: int)
  {
    i <= |u| == |u0| && i <= |c| && forall t :: AskFor(Subject.MixedDigits, t) ==> W(u, 0, i) + r * P(i) == W(u0, 0, i) * b + r0 + W(c, 0, i)
  }

  lemma MultipliedStep(u: seq<Limb>, u1: seq<Limb>, u0: seq<Limb>, c: seq<Limb>, i: nat, b: int, r0: int, r: int, x: Limb, r1: int)
    requires Multiplied(u, u0, c, i, b, r0, r) && i < |u| && i < |c| && u1 == u[i := x] && x + r1 * B == u0[i] * b + r + c[i]
    ensures Multiplied(u1, u0, c, i + 1, b, r0, r1)
  {
    assert AskFor(Subject.MixedDigits, 0);
    assert u1[0..0 + i] == u[0..0 + i];
    WSnoc(u1, 0, i);
    WSnoc(u0, 0, i);
    WSnoc(c, 0, i);
    PSucc(i);
    MultipliedAlgebra(W(u, 0, i), W(u0, 0, i), W(c, 0, i), u0[i], b, r0, r, x, r1, c[i], P(i));
  }

  lemma MultipliedAlgebra(w: int, v: int, z: int, a: int, b: int, r0: int, r: int, x: int, r1: int, c: int, p: int)
    requires w + r * p == v * b + r0 + z && x + r1 * B == a * b + r + c
    ensures w + x * p + r1 * (B * p) == (v + a * p) * b + r0 + (z + c * p)
  {
    Distrib(v, a * p, b);
    assert (a * p) * b == (a * b) * p;
    Distrib(x, r1 * B, p);
    MulAssoc(r1, B, p);
    Distrib(a * b + r, c, p);
    Distrib(a * b, r, p);
  }

  /** u := u * b + r0 + c on l limbs; what does not fit is returned. */
  method MultiplyAdd(u: array<Limb>, l: nat, b: Limb, r0: Limb, c: array<Limb>) returns (r: Limb)
    requires l <= u.Length && l <= c.Length && u != c
    modifies u
    ensures Outside(old(u[..]), u[..], 0, l)
    ensures W(u[..], 0, l) + r * P(l) == W(old(u[..]), 0, l) * b + r0 + W(c[..], 0, l)
  {
    ghost var u0, z := u[..], c[..];
    r := r0;
    WZero(u0, 0);
    WZero(z, 0);
    PZero();
    var k := 0;
    while k < l
      invariant 0 <= k <= l && Multiplied(u[..], u0, z, k, b, r0, r) && Outside(u0, u[..], 0, k) && c[..] == z
    {
      ghost var t, before := u[..], r;
      var x, r1 := MulLimbs(u[k], b, r, c[k]);
      u[k] := x;
      r := r1;
      MultipliedStep(t, u[..], u0, z, k, b, r0, before, x, r);
      k := k + 1;
    }
    assert AskFor(Subject.MixedDigits, 0);
  }

  /** The digits from j on. */
  ghost function RestOf(y: seq<int>, mods: seq<int>, j: nat): int
    requires j <= |y| == |mods|
    decreases |y| - j
  {
    if j == |y| then 0 else y[j] + mods[j] * RestOf(y, mods, j + 1)
  }

  ghost function Rest(y: seq<Limb>, mods: seq<Limb>, j: nat): int
    requires j <= |y| == |mods|
  {
    RestOf(Ints(y), Ints(mods), j)
  }

  lemma {:induction false} NestRest(y: seq<int>, mods: seq<int>, j: nat)
    requires j <= |y| == |mods|
    ensures Nest(y, mods, 0) == Nest(y[..j], mods[..j], RestOf(y, mods, j))
    decreases |y| - j
  {
    if j == |y| {
      assert y[..j] == y && mods[..j] == mods;
    } else {
      NestRest(y, mods, j + 1);
      assert y[..j + 1] == y[..j] + [y[j]] && mods[..j + 1] == mods[..j] + [mods[j]];
      NestSnoc(y[..j], mods[..j], y[j], mods[j], RestOf(y, mods, j + 1));
    }
  }

  lemma MixedIsRest(y: seq<Limb>, mods: seq<Limb>)
    requires |y| == |mods|
    ensures MixedValue(y, mods) == Rest(y, mods, 0)
  {
    NestRest(Ints(y), Ints(mods), 0);
    assert Ints(y)[..0] == [] && Ints(mods)[..0] == [];
  }

  lemma RestStep(y: seq<Limb>, mods: seq<Limb>, j: nat)
    requires j < |y| == |mods|
    ensures Rest(y, mods, j) == Rest(y, mods, j + 1) * mods[j] + y[j]
  {
    MulComm(Rest(y, mods, j + 1), mods[j]);
  }

  lemma RestLast(y: seq<Limb>, mods: seq<Limb>)
    requires |y| == |mods| && |y| >= 1
    ensures Rest(y, mods, |y| - 1) == y[|y| - 1]
  {
    assert RestOf(Ints(y), Ints(mods), |y|) == 0;
  }

  /** From mixed radix digits to limbs, plus a carry; it fits in as many limbs as there are
      moduli. */
  method ToLimbs(y: array<Limb>, mods: seq<Limb>, u: array<Limb>, carry: array<Limb>, zero: array<Limb>)
    requires y.Length == |mods| == u.Length == carry.Length == zero.Length && |mods| >= 2
    requires u != y && u != carry && u != zero
    requires forall i :: 0 <= i < zero.Length ==> zero[i] == 0
    requires MixedValue(y[..], mods) + W(carry[..], 0, |mods|) < P(|mods|)
    modifies u
    ensures W(u[..], 0, |mods|) == MixedValue(y[..], mods) + W(carry[..], 0, |mods|)
  {
    var n := |mods|;
    ghost var s := y[..];
    MixedIsRest(s, mods);
    RestLast(s, mods);
    u[0] := y[n - 1];
    WCons(u[..], 0, 1);
    WZero(u[..], 1);
    var l, j := 1, n - 2;
    while j >= 1
      invariant 0 <= j <= n - 2 && l == n - 1 - j && W(u[..], 0, l) == Rest(s, mods, j + 1)
      invariant y[..] == s
    {
      ghost var t := u[..];
      var r := MultiplyAdd(u, l, mods[j], y[j], zero);
      ZeroValue(zero[..], l);
      u[l] := r;
      WSnoc(u[..], 0, l);
      RestStep(s, mods, j);
      l := l + 1;
      j := j - 1;
    }
    ghost var t := u[..];
    var r := MultiplyAdd(u, l, mods[0], y[0], carry);
    RestStep(s, mods, 0);
    TopFits(u[..], carry[..], l, r, Rest(s, mods, 1) * mods[0] + y[0]);
    u[l] := r + carry[l];
    WSnoc(u[..], 0, l);
    WSnoc(carry[..], 0, l);
    Distrib(r, carry[l], P(l));
  }

  lemma ZeroValue(z: seq<Limb>, l: nat)
    requires l <= |z| && forall i :: 0 <= i < |z| ==> z[i] == 0
    ensures W(z, 0, l) == 0
  {
    ValZeros(z[0..0 + l]);
  }

  lemma TopFits(u: seq<Limb>, c: seq<Limb>, l: nat, r: Limb, v: int)
    requires l < |u| && l < |c| && W(u, 0, l) + r * P(l) == v + W(c, 0, l) && v + W(c, 0, l + 1) < P(l + 1)
    ensures r + c[l] < B
  {
    WSnoc(c, 0, l);
    PSucc(l);
    Distrib(r, c[l], P(l));
    MulCancelLess(r + c[l], B, P(l));
  }

  // ----------------------------------------------------------------------------- put_bits

  /** Bits that are nowhere both set: an or is a sum. */
  lemma {:induction false} OrIsSum(x: nat, y: nat, p: nat, n: nat)
    requires x < T(p) && p <= n && y < T(n) && y % T(p) == 0
    ensures LogicOp.OpBits(LogicOp.Or, x, y, n) == x + y
    decreases n
  {
    TZero();
    if n > 0 {
      TSucc(n - 1);
      if p > 0 {
        TSucc(p - 1);
        EvenHalf(y, T(p - 1));
        OrIsSum(x / 2, y / 2, p - 1, n - 1);
      } else {
        OrIsSum(0, y / 2, 0, n - 1);
      }
    }
  }

  lemma EvenHalf(y: nat, t: nat)
    requires t >= 1 && y % (2 * t) == 0
    ensures y % 2 == 0 && (y / 2) % t == 0
  {
    DivMod(y, 2 * t);
    var q := y / (2 * t);
    MulAssoc(q, 2, t);
    MulComm(q, 2);
    MulAssoc(2, q, t);
    DivModUnique(y / 2, t, q, 0);
  }

  /** tab[i] |= v, where v has bits from p on only and tab[i] below p only. */
  method OrInto(tab: array<Limb>, i: nat, v: Limb, ghost p: nat)
    requires i < tab.Length && p <= LB() && tab[i] < T(p) && v % T(p) == 0
    modifies tab
    ensures tab[i] == old(tab[i]) + v && Outside(old(tab[..]), tab[..], i, 1)
  {
    TLimb();
    OrIsSum(tab[i], v, p, LB());
    tab[i] := LogicOp.OpResult(LogicOp.Or, tab[i], v);
  }

  /** A row below 2^pos: what its limbs are. */
  lemma RowBelow(s: seq<Limb>, len: nat, pos: nat, i: nat, p: nat)
    requires len <= |s| && W(s, 0, len) < T(pos) && pos == i * LB() + p && p < LB()
    ensures i < len ==> s[i] < T(p)
    ensures i + 1 < len ==> s[i + 1] == 0
  {
    TAdd(i * LB(), p);
    TLimbs(i);
    if i < len {
      var y := LimbAt(s, len, i);
      TopLimbBelow(W(s, 0, i), s[i] + y * B, P(i), T(p));
      TLimb();
      TStrict(p, LB());
      if y >= 1 { MulMono(1, y, B); }
      if i + 1 < len {
        WCons(s, i + 1, len - i - 1);
        var y1 := W(s, i + 2, len - i - 2);
        MulNonNeg(y1, B);
      }
    }
  }

  lemma TopLimbBelow(lo: nat, x: nat, p: nat, t: nat)
    requires lo + x * p < p * t && p >= 1
    ensures x < t
  {
    MulComm(p, t);
    MulCancelLess(x, t, p);
  }

  /** put_bits: val is put at bit position pos, where all bits are still free; bits outside
      of the buffer are dropped. */
  method PutBits(tab: array<Limb>, len: nat, pos: nat, val: Limb)
    requires len == tab.Length && W(tab[..], 0, len) < T(pos)
    modifies tab
    ensures W(tab[..], 0, len) <= W(old(tab[..]), 0, len) + val * T(pos)
    ensures Cong(W(tab[..], 0, len), W(old(tab[..]), 0, len) + val * T(pos), P(len))
  {
    var i, p := pos / LB(), pos % LB();
    BitPosition(pos);
    ghost var s := tab[..];
    RowBelow(s, len, pos, i, p);
    ghost var lo, hi := (val * T(p)) % B, (val * T(p)) / B;
    ShiftedLimb(val, p);
    if i < len { OrInto(tab, i, (val * T(p)) % B, p); }
    if p != 0 && i + 1 < len {
      TZero();
      OrInto(tab, i + 1, val / T(LB() - p), 0);
    }
    PutValue(s, tab[..], len, i, lo, hi, val * T(p), p);
    MulAssoc(val, T(p), P(i));
    MulComm(T(p), P(i));
  }

  lemma ShiftedLimb(v: Limb, p: nat)
    requires p < LB()
    ensures v * T(p) == (v * T(p)) % B + (v * T(p)) / B * B && ((v * T(p)) % B) % T(p) == 0
    ensures if p == 0 then (v * T(p)) / B == 0 else (v * T(p)) / B == v / T(LB() - p)
    ensures 0 <= (v * T(p)) / B < B
  {
    DivMod(v * T(p), B);
    TZero();
    TLimb();
    if p == 0 {
      DivModUnique(v, B, 0, v);
    } else {
      TAdd(p, LB() - p);
      var t, u := T(p), T(LB() - p);
      DivMod(v, u);
      var q, r := v / u, v % u;
      Distrib(q * u, r, t);
      MulAssoc(q, u, t);
      MulComm(u, t);
      MulMono(r, u - 1, t);
      Distrib(u, 1, t);
      MulNonNeg(r, t);
      DivModUnique(v * t, B, q, r * t);
      DivModUnique(r * t, t, r, 0);
      D.HighPart(v, u, t);
      MulMono(1, u, t);
    }
  }

  lemma PutValue(s: seq<Limb>, t: seq<Limb>, len: nat, i: nat, lo: nat, hi: nat, v: nat, p: nat)
    requires len == |s| == |t| && lo < B && hi < B && v == lo + hi * B && (p == 0 ==> hi == 0)
    requires i < len ==> t[i] == s[i] + lo
    requires i + 1 < len ==> t[i + 1] == s[i + 1] + hi
    requires forall j :: 0 <= j < len && j != i && j != i + 1 ==> t[j] == s[j]
    ensures W(t, 0, len) <= W(s, 0, len) + v * P(i) && Cong(W(t, 0, len), W(s, 0, len) + v * P(i), P(len))
  {
    Distrib(lo, hi * B, P(i));
    MulAssoc(hi, B, P(i));
    PSucc(i);
    MulNonNeg(lo, P(i));
    MulNonNeg(hi, P(i + 1));
    if i >= len {
      assert s == t;
      PAdd(len, i - len);
      MulComm(P(len), P(i - len));
      MulAssoc(v, P(i - len), P(len));
      BackMultiple(W(s, 0, len), v * P(i - len), P(len));
    } else {
      var t1 := s[i := t[i]];
      LimbAdded(s, t1, len, i, lo);
      if i + 1 < len {
        assert t == t1[i + 1 := t[i + 1]];
        LimbAdded(t1, t, len, i + 1, hi);
        CongSame(W(t, 0, len), P(len));
      } else {
        assert t == t1;
        BackMultiple(W(t, 0, len), hi, P(len));
      }
    }
  }

  lemma BackMultiple(w: int, q: int, m: int)
    ensures Cong(w, w + q * m, m)
  {
    CongBy(w + q * m, w, q, m);
    CongBack(w + q * m, w, m);
  }

  lemma LimbAdded(s: seq<Limb>, t: seq<Limb>, len: nat, i: nat, d: int)
    requires i < len <= |s| == |t| && t == s[i := t[i]] && t[i] == s[i] + d
    ensures W(t, 0, len) == W(s, 0, len) + d * P(i)
  {
    var y := LimbAt(s, len, i);
    var z := LimbAt(t, len, i);
    assert s[0..0 + i] == t[0..0 + i];
    assert s[i + 1..i + 1 + (len - i - 1)] == t[i + 1..i + 1 + (len - i - 1)];
    AddToLimb(W(s, 0, i), s[i], d, y, P(i));
  }

  lemma AddToLimb(lo: int, a: int, d: int, y: int, p: int)
    ensures lo + (a + d + y * B) * p == lo + (a + y * B) * p + d * p
  {
    Distrib(a + y * B, d, p);
  }

  // ------------------------------------------------------------------------- ntt_to_limb

  /** How a piece of dpl bits lies in limbs: whole ones, and mb bits of the next. */
  ghost predicate Pieces(dpl: nat, whole: nat, mb: nat)
  {
    dpl == whole * LB() + mb && 1 <= mb <= LB()
  }

  /** The lowest dpl bits of u are put at pos. */
  method PutDigits(tab: array<Limb>, len: nat, pos: nat, u: array<Limb>, ghost dpl: nat, whole: nat, mb: nat)
    requires tab != u && len == tab.Length && whole < u.Length && Pieces(dpl, whole, mb) && W(tab[..], 0, len) < T(pos)
    modifies tab
    ensures W(tab[..], 0, len) < T(pos + dpl)
    ensures Cong(W(tab[..], 0, len), W(old(tab[..]), 0, len) + W(u[..], 0, u.Length) % T(dpl) * T(pos), P(len))
  {
    ghost var w, s := W(tab[..], 0, len), u[..];
    WZero(s, 0);
    CongSame(w, P(len));
    TZero();
    var j := 0;
    while j < whole
      invariant 0 <= j <= whole && u[..] == s
      invariant W(tab[..], 0, len) <= w + W(s, 0, j) * T(pos) && Cong(W(tab[..], 0, len), w + W(s, 0, j) * T(pos), P(len))
    {
      ghost var before := W(tab[..], 0, len);
      PieceBelow(w, s, j, pos);
      PutBits(tab, len, pos + j * LB(), u[j]);
      PieceAdded(w, before, W(tab[..], 0, len), s, j, u[j], pos, P(len));
      WSnoc(s, 0, j);
      j := j + 1;
    }
    ghost var before := W(tab[..], 0, len);
    PieceBelow(w, s, whole, pos);
    TLimb();
    TMono(mb, LB());
    var v := u[whole] % T(mb);
    PutBits(tab, len, pos + whole * LB(), v);
    PieceAdded(w, before, W(tab[..], 0, len), s, whole, v, pos, P(len));
    LowBitsOf(s, |s|, dpl, whole, mb);
    BelowNext(w, W(tab[..], 0, len), W(s, 0, |s|) % T(dpl), pos, dpl);
  }

  /** What is written so far ends below the next piece. */
  lemma PieceBelow(w: nat, s: seq<Limb>, j: nat, pos: nat)
    requires w < T(pos) && j <= |s|
    ensures w + W(s, 0, j) * T(pos) < T(pos + j * LB())
  {
    WBound(s, 0, j);
    TLimbs(j);
    TAdd(j * LB(), pos);
    MulMono(W(s, 0, j) + 1, P(j), T(pos));
    Distrib(W(s, 0, j), 1, T(pos));
  }

  lemma PieceAdded(w: int, before: int, after: int, s: seq<Limb>, j: nat, v: nat, pos: nat, m: int)
    requires j <= |s| && before <= w + W(s, 0, j) * T(pos) && Cong(before, w + W(s, 0, j) * T(pos), m)
    requires after <= before + v * T(pos + j * LB()) && Cong(after, before + v * T(pos + j * LB()), m)
    ensures var x := W(s, 0, j) + v * P(j); after <= w + x * T(pos) && Cong(after, w + x * T(pos), m)
  {
    var x := W(s, 0, j) + v * P(j);
    TAdd(j * LB(), pos);
    TLimbs(j);
    Distrib(W(s, 0, j), v * P(j), T(pos));
    MulAssoc(v, P(j), T(pos));
    var a := v * T(pos + j * LB());
    CongSame(a, m);
    CongAdd(before, w + W(s, 0, j) * T(pos), a, a, m);
    CongTrans(after, before + a, w + x * T(pos), m);
  }

  lemma LowBitsOf(s: seq<Limb>, n: nat, dpl: nat, whole: nat, mb: nat)
    requires whole < n <= |s| && Pieces(dpl, whole, mb)
    ensures W(s, 0, n) % T(dpl) == W(s, 0, whole) + (s[whole] % T(mb)) * P(whole)
  {
    TAdd(whole * LB(), mb);
    TLimbs(whole);
    CutAt(s, n, whole, mb);
  }

  lemma BelowNext(w: nat, after: int, d: nat, pos: nat, dpl: nat)
    requires w < T(pos) && d < T(dpl) && after <= w + d * T(pos)
    ensures after < T(pos + dpl)
  {
    TAdd(dpl, pos);
    MulMono(d + 1, T(dpl), T(pos));
    Distrib(d, 1, T(pos));
  }

  // ------------------------------------------------------------------------ the next carry

  /** Two neighbouring limbs shifted right by mb bits. */
  ghost function Straddled(x: nat, y: nat, mb: nat): int
    requires mb <= LB()
  {
    x / T(mb) + (y % T(mb)) * T(LB() - mb)
  }

  ghost function CarryLimbAt(u: seq<Limb>, n: nat, whole: nat, mb: nat, i: nat): int
    requires n <= |u| && mb <= LB()
  {
    if whole + i >= n then 0 else Straddled(u[whole + i], if whole + i + 1 < n then u[whole + i + 1] as nat else 0, mb)
  }

  /** v is limb i of u >> dpl. */
  ghost predicate NextCarry(u: seq<Limb>, n: nat, whole: nat, mb: nat, i: nat, v: nat)
  {
    forall t :: AskFor(Subject.CarryLimbs, t) ==> n <= |u| && mb <= LB() && v == CarryLimbAt(u, n, whole, mb, i)
  }

  /** Where limb i of u >> dpl starts. */
  lemma CarryPosition(dpl: nat, whole: nat, mb: nat, i: nat)
    requires Pieces(dpl, whole, mb)
    ensures T(dpl + i * LB()) == P(whole + i) * T(mb)
  {
    Distrib(whole, i, LB());
    TAdd((whole + i) * LB(), mb);
    TLimbs(whole + i);
  }

  lemma ShiftedDigit(x: nat, dpl: nat, i: nat)
    ensures D.Digit(x / T(dpl), i) == (x / T(dpl + i * LB())) % B
  {
    D.DigitMeans(x / T(dpl), i);
    TLimbs(i);
    DivDiv(x, dpl, i * LB());
  }

  lemma NextCarryDigit(u: seq<Limb>, n: nat, dpl: nat, whole: nat, mb: nat, i: nat, v: nat)
    requires n <= |u| && Pieces(dpl, whole, mb) && NextCarry(u, n, whole, mb, i, v)
    ensures v == D.Digit(W(u, 0, n) / T(dpl), i)
  {
    assert AskFor(Subject.CarryLimbs, 0);
    ShiftedDigit(W(u, 0, n), dpl, i);
    CarryPosition(dpl, whole, mb, i);
    if whole + i >= n {
      CarryAbove(u, n, whole + i, mb);
    } else if mb < LB() {
      D.Straddle(u, n, whole + i, mb);
    } else {
      WholeShift(u, n, whole + i);
    }
  }

  lemma CarryAbove(u: seq<Limb>, n: nat, i: nat, mb: nat)
    requires n <= |u| && n <= i
    ensures (W(u, 0, n) / (P(i) * T(mb))) % B == 0
  {
    WBound(u, 0, n);
    PMono(n, i);
    MulMono(1, T(mb), P(i));
    DivModUnique(W(u, 0, n), P(i) * T(mb), 0, W(u, 0, n));
  }

  lemma WholeShift(u: seq<Limb>, n: nat, i: nat)
    requires i < n <= |u|
    ensures var a1 := if i + 1 < n then u[i + 1] as nat else 0;
            (W(u, 0, n) / (P(i) * T(LB()))) % B == u[i] / T(LB()) + (a1 % T(LB())) * T(0)
  {
    var a1 := if i + 1 < n then u[i + 1] as nat else 0;
    TZero();
    TLimb();
    PSucc(i);
    MulComm(B, P(i));
    D.DigitOfRow(u, n, i + 1);
    D.DigitMeans(W(u, 0, n), i + 1);
    DivModUnique(u[i], B, 0, u[i]);
    DivModUnique(a1, B, 0, a1);
  }

  /** A row of all the digits of a number is that number. */
  lemma {:induction false} RowOfDigits(s: seq<Limb>, n: nat, x: nat)
    requires n <= |s| && forall i :: 0 <= i < n ==> s[i] == D.Digit(x, i)
    ensures W(s, 0, n) == D.Low(x, n)
  {
    if n == 0 {
      WZero(s, 0);
      D.LowZero(x);
    } else {
      RowOfDigits(s, n - 1, x);
      WSnoc(s, 0, n - 1);
      D.LowStep(x, n - 1);
    }
  }

  /** The carry is what is left of u above its lowest dpl bits. */
  method ShiftCarry(u: array<Limb>, carry: array<Limb>, n: nat, ghost dpl: nat, whole: nat, mb: nat)
    requires u != carry && u.Length == carry.Length == n && whole < n && Pieces(dpl, whole, mb) && ZerosFrom(carry[..], n - whole)
    requires mb == LB() ==> ZerosFrom(carry[..], n - whole - 1)
    modifies carry
    ensures W(carry[..], 0, n) == W(u[..], 0, n) / T(dpl) && ZerosFrom(carry[..], n - whole)
    ensures mb == LB() ==> ZerosFrom(carry[..], n - whole - 1)
  {
    if mb == LB() {
      ShiftWhole(u, carry, n, whole);
    } else {
      ShiftParts(u, carry, n, whole, mb);
    }
    CarryShifted(carry[..], u[..], n, dpl, whole, mb);
  }

  lemma CarryShifted(c: seq<Limb>, u: seq<Limb>, n: nat, dpl: nat, whole: nat, mb: nat)
    requires |c| == |u| == n && Pieces(dpl, whole, mb) && CarryTo(c, u, n, whole, mb, n)
    ensures W(c, 0, n) == W(u, 0, n) / T(dpl)
  {
    forall i | 0 <= i < n ensures c[i] == D.Digit(W(u, 0, n) / T(dpl), i) {
      NextCarryDigit(u, n, dpl, whole, mb, i, c[i]);
    }
    CarryValue(c, u, n, dpl);
  }

  ghost predicate ZerosFrom(c: seq<Limb>, k: int)
  {
    forall i :: 0 <= i < |c| && k <= i ==> c[i] == 0
  }

  ghost predicate CarryTo(c: seq<Limb>, u: seq<Limb>, n: nat, whole: nat, mb: nat, k: nat)
  {
    k <= |c| && forall i :: 0 <= i < k ==> NextCarry(u, n, whole, mb, i, c[i])
  }

  method ShiftWhole(u: array<Limb>, carry: array<Limb>, n: nat, whole: nat)
    requires u != carry && u.Length == carry.Length == n && whole < n && ZerosFrom(carry[..], n - whole - 1)
    modifies carry
    ensures CarryTo(carry[..], u[..], n, whole, LB(), n) && ZerosFrom(carry[..], n - whole - 1)
  {
    ghost var s := u[..];
    var j := whole + 1;
    while j < n
      invariant whole + 1 <= j <= n && u[..] == s
      invariant CarryTo(carry[..], s, n, whole, LB(), j - whole - 1) && ZerosFrom(carry[..], n - whole - 1)
    {
      WholeCarry(s, n, whole, j - whole - 1);
      carry[j - (whole + 1)] := u[j];
      j := j + 1;
    }
    forall i | n - whole - 1 <= i < n ensures NextCarry(s, n, whole, LB(), i, carry[i]) {
      AboveWhole(s, n, whole, i);
    }
  }

  method ShiftParts(u: array<Limb>, carry: array<Limb>, n: nat, whole: nat, mb: nat)
    requires u != carry && u.Length == carry.Length == n && whole < n && 1 <= mb < LB() && ZerosFrom(carry[..], n - whole)
    modifies carry
    ensures CarryTo(carry[..], u[..], n, whole, mb, n) && ZerosFrom(carry[..], n - whole)
  {
    ghost var s := u[..];
    var j := whole;
    while j < n - 1
      invariant whole <= j <= n - 1 && u[..] == s
      invariant CarryTo(carry[..], s, n, whole, mb, j - whole) && ZerosFrom(carry[..], n - whole)
    {
      var v := ShiftPair(u[j], u[j + 1], mb);
      PartCarry(s, n, whole, mb, j - whole, v);
      carry[j - whole] := v;
      j := j + 1;
    }
    var v := ShiftPair(u[n - 1], 0, mb);
    PartCarry(s, n, whole, mb, n - 1 - whole, v);
    carry[n - 1 - whole] := v;
    forall i | n - whole <= i < n ensures NextCarry(s, n, whole, mb, i, carry[i]) {
      AbovePart(s, n, whole, mb, i);
    }
  }

  /** (x >> mb) | (y << (LIMB_BITS - mb)) */
  method ShiftPair(x: Limb, y: Limb, mb: nat) returns (v: Limb)
    requires mb < LB()
    ensures v == Straddled(x, y, mb)
  {
    CarryFits(x, y, mb);
    v := x / T(mb) + (y % T(mb)) * T(LB() - mb);
  }

  lemma PartCarry(s: seq<Limb>, n: nat, whole: nat, mb: nat, i: nat, v: nat)
    requires n <= |s| && whole + i < n && mb <= LB()
    requires v == Straddled(s[whole + i], if whole + i + 1 < n then s[whole + i + 1] as nat else 0, mb)
    ensures NextCarry(s, n, whole, mb, i, v)
  {}

  lemma AbovePart(s: seq<Limb>, n: nat, whole: nat, mb: nat, i: nat)
    requires n <= |s| && whole + i >= n && mb <= LB()
    ensures NextCarry(s, n, whole, mb, i, 0)
  {}

  lemma WholeCarry(s: seq<Limb>, n: nat, whole: nat, i: nat)
    requires n <= |s| && whole + i + 1 < n
    ensures NextCarry(s, n, whole, LB(), i, s[whole + i + 1])
  {
    TZero();
    TLimb();
    DivModUnique(s[whole + i], B, 0, s[whole + i]);
    DivModUnique(s[whole + i + 1], B, 0, s[whole + i + 1]);
  }

  lemma AboveWhole(s: seq<Limb>, n: nat, whole: nat, i: nat)
    requires n <= |s| && whole + i + 1 >= n
    ensures NextCarry(s, n, whole, LB(), i, 0)
  {
    TZero();
    TLimb();
    if whole + i < n { DivModUnique(s[whole + i], B, 0, s[whole + i]); }
    D.ZeroLimb(LB());
  }

  lemma CarryFits(x: Limb, y: Limb, mb: nat)
    requires mb < LB()
    ensures 0 <= x / T(mb) + (y % T(mb)) * T(LB() - mb) < B
  {
    TLimb();
    TAdd(mb, LB() - mb);
    D.HighPart(x, T(mb), T(LB() - mb));
    D.SumBelow(x / T(mb), y % T(mb), T(mb), T(LB() - mb));
  }

  lemma CarryValue(c: seq<Limb>, s: seq<Limb>, n: nat, dpl: nat)
    requires n <= |c| && n <= |s| && forall i :: 0 <= i < n ==> c[i] == D.Digit(W(s, 0, n) / T(dpl), i)
    ensures W(c, 0, n) == W(s, 0, n) / T(dpl)
  {
    var x := W(s, 0, n) / T(dpl);
    RowOfDigits(c, n, x);
    WBound(s, 0, n);
    DivMod(W(s, 0, n), T(dpl));
    MulMono(1, T(dpl), x);
    D.LowAll(x, n);
  }

  // ------------------------------------------------------------------------- all together

  /** The sum of v[i] * 2^(i * dpl) for i < n. */
  ghost function PieceSum(v: seq<nat>, n: nat, dpl: nat): nat
    requires n <= |v|
  {
    if n == 0 then 0 else PieceSum(v, n - 1, dpl) + v[n - 1] * T((n - 1) * dpl)
  }

  lemma {:induction false} ProductSmall(mods: seq<Limb>)
    requires |mods| >= 1 && forall j :: 0 <= j < |mods| ==> Modulus(mods[j])
    ensures 2 * ProductOf(Ints(mods)) <= P(|mods|) && ProductOf(Ints(mods)) >= 1
    decreases |mods|
  {
    var n := |mods| - 1;
    var m := mods[n];
    assert Ints(mods)[..n] == Ints(mods[..n]);
    PSucc(n);
    if n == 0 {
      PZero();
    } else {
      ProductSmall(mods[..n]);
      MulMono(2 * ProductOf(Ints(mods[..n])), P(n), m);
      MulMono(m, B, P(n));
      MulAssoc(2, ProductOf(Ints(mods[..n])), m);
      MulMono(1, m, ProductOf(Ints(mods[..n])));
    }
  }

  /** The tables and the layout that all items share. */
  ghost predicate Setup(mods: seq<Limb>, cr: seq<Limb>, crInv: seq<Limb>, dpl: nat, whole: nat, mb: nat)
  {
    |mods| >= 2 && Moduli(mods) && Inverses(mods, cr, crInv) && Pieces(dpl, whole, mb) && whole < |mods|
  }

  ghost predicate CarryReady(c: seq<Limb>, mods: seq<Limb>, whole: nat, mb: nat)
  {
    |c| == |mods| && W(c, 0, |c|) < ProductOf(Ints(mods)) && ZerosFrom(c, |c| - whole) && (mb == LB() ==> ZerosFrom(c, |c| - whole - 1))
  }

  /** One item: its residues in y, its lowest dpl bits with the carry added go to pos, the
      rest is the next carry. */
  method OneItem(tabr: array<Limb>, pos: nat, y: array<Limb>, u: array<Limb>, carry: array<Limb>, zero: array<Limb>,
                 mods: seq<Limb>, cr: seq<Limb>, crInv: seq<Limb>, ghost dpl: nat, whole: nat, mb: nat, ghost v: nat)
    requires Setup(mods, cr, crInv, dpl, whole, mb) && CarryReady(carry[..], mods, whole, mb)
    requires y.Length == u.Length == zero.Length == |mods| && (forall k :: 0 <= k < zero.Length ==> zero[k] == 0)
    requires tabr != y && tabr != u && tabr != carry && tabr != zero && y != u && y != carry && y != zero && u != carry && u != zero && carry != zero
    requires W(tabr[..], 0, tabr.Length) < T(pos) && v < ProductOf(Ints(mods))
    requires forall k :: 0 <= k < y.Length ==> y[k] < mods[k] && Cong(v, y[k], mods[k])
    modifies tabr, y, u, carry
    ensures W(tabr[..], 0, tabr.Length) < T(pos + dpl) && CarryReady(carry[..], mods, whole, mb)
    ensures Cong(W(tabr[..], 0, tabr.Length) + W(carry[..], 0, |mods|) * T(pos + dpl),
                 W(old(tabr[..]), 0, tabr.Length) + W(old(carry[..]), 0, |mods|) * T(pos) + v * T(pos), P(tabr.Length))
    ensures W(carry[..], 0, |mods|) == (v + W(old(carry[..]), 0, |mods|)) / T(dpl)
  {
    var n := |mods|;
    ghost var w, c, x := W(tabr[..], 0, tabr.Length), W(carry[..], 0, n), y[..];
    MixedRadix(y, mods, cr, crInv);
    InversesCoprime(mods, cr, crInv);
    MixedCorrect(y[..], x, mods, v);
    ProductSmall(mods);
    ToLimbs(y, mods, u, carry, zero);
    PutDigits(tabr, tabr.Length, pos, u, dpl, whole, mb);
    ghost var w1 := W(tabr[..], 0, tabr.Length);
    ShiftCarry(u, carry, n, dpl, whole, mb);
    ItemSum(w, w1, v + c, pos, dpl, P(tabr.Length));
    Distrib(v, c, T(pos));
    SmallCarry(v, c, ProductOf(Ints(mods)), dpl);
  }

  lemma ItemSum(w: int, w1: int, x: nat, pos: nat, dpl: nat, m: int)
    requires Cong(w1, w + x % T(dpl) * T(pos), m)
    ensures Cong(w1 + x / T(dpl) * T(pos + dpl), w + x * T(pos), m)
  {
    DivMod(x, T(dpl));
    TAdd(dpl, pos);
    var q := x / T(dpl);
    MulAssoc(q, T(dpl), T(pos));
    Distrib(q * T(dpl), x % T(dpl), T(pos));
    CongSame(q * T(pos + dpl), m);
    CongAdd(w1, w + x % T(dpl) * T(pos), q * T(pos + dpl), q * T(pos + dpl), m);
  }

  lemma SmallCarry(v: nat, c: nat, m: nat, dpl: nat)
    requires v < m && c < m && dpl >= 1
    ensures (v + c) / T(dpl) < m
  {
    TZero();
    TStrict(0, dpl);
    DivMod(v + c, T(dpl));
    if (v + c) / T(dpl) >= m {
      MulMono(m, (v + c) / T(dpl), T(dpl));
      MulMono(2, T(dpl), m);
    }
  }

  /** The residues of item i, each in its own part of the buffer. */
  ghost predicate Residues(buf: seq<Limb>, fftLen: nat, mods: seq<Limb>, i: nat, v: nat)
  {
    forall j :: 0 <= j < |mods| ==> ResidueAt(buf, fftLen, mods, i, v, j)
  }

  ghost predicate ResidueAt(buf: seq<Limb>, fftLen: nat, mods: seq<Limb>, i: nat, v: nat, j: nat)
  {
    j < |mods| && i + fftLen * j < |buf| && buf[i + fftLen * j] as int < 2 * (mods[j] as int) && Cong(v, buf[i + fftLen * j], mods[j])
  }

  /** ntt_limb_to_int for all residues of an item. */
  method ReadItem(buf: array<Limb>, fftLen: nat, mods: seq<Limb>, i: nat, y: array<Limb>, ghost v: nat)
    requires y.Length == |mods| && y != buf && Residues(buf[..], fftLen, mods, i, v)
    modifies y
    ensures forall k :: 0 <= k < y.Length ==> y[k] < mods[k] && Cong(v, y[k], mods[k])
  {
    ghost var s := buf[..];
    var j := 0;
    while j < |mods|
      invariant 0 <= j <= |mods| && buf[..] == s
      invariant forall k :: 0 <= k < j ==> y[k] < mods[k] && Cong(v, y[k], mods[k])
    {
      assert ResidueAt(s, fftLen, mods, i, v, j);
      var a := buf[i + fftLen * j];
      if a >= mods[j] {
        CongBy(a, a - mods[j], 1, mods[j]);
        CongTrans(v, a, a - mods[j], mods[j]);
        a := a - mods[j];
      }
      y[j] := a;
      j := j + 1;
    }
  }

  /** min(fft_len, ceil(r_len * LIMB_BITS / dpl)) */
  function Items(fftLen: nat, bits: nat, dpl: nat): (len: nat)
    requires dpl >= 1
    ensures len <= fftLen
  {
    var c := (bits + dpl - 1) / dpl;
    if c < fftLen then (if c < 0 then 0 else c) else fftLen
  }

  lemma ItemsEnough(fftLen: nat, bits: nat, dpl: nat)
    requires dpl >= 1
    ensures Items(fftLen, bits, dpl) < fftLen ==> Items(fftLen, bits, dpl) * dpl >= bits
  {
    DivMod(bits + dpl - 1, dpl);
  }

  /** ntt_to_limb: the sum of the numbers v[i] * 2^(i * dpl), where v[i] is given by its
      residues, modulo the width of the result, or of the items if that is less. */
  method NttToLimb(tabr: array<Limb>, buf: array<Limb>, fftLen: nat, dpl: nat, mods: seq<Limb>, cr: seq<Limb>, crInv: seq<Limb>, ghost v: seq<nat>)
    requires dpl >= 1 && Setup(mods, cr, crInv, dpl, (dpl - 1) / LB(), dpl - (dpl - 1) / LB() * LB()) && tabr != buf
    requires |v| == fftLen && forall i :: 0 <= i < fftLen ==> v[i] < ProductOf(Ints(mods)) && Residues(buf[..], fftLen, mods, i, v[i])
    modifies tabr
    ensures W(tabr[..], 0, tabr.Length) ==
            PieceSum(v, fftLen, dpl) % (if fftLen * dpl >= tabr.Length * LB() then P(tabr.Length) else T(fftLen * dpl))
  {
    var whole := (dpl - 1) / LB();
    ghost var left := AllItems(tabr, buf, fftLen, dpl, whole, dpl - whole * LB(), mods, cr, crInv, v);
    WBound(tabr[..], 0, tabr.Length);
    Written(W(tabr[..], 0, tabr.Length), left, v, fftLen, Items(fftLen, tabr.Length * LB(), dpl), dpl, tabr.Length);
  }

  /** After i items: what is written and the carry make up their sum. */
  ghost predicate ItemsDone(t: seq<Limb>, c: seq<Limb>, mods: seq<Limb>, whole: nat, mb: nat, v: seq<nat>, i: nat, dpl: nat)
  {
    i <= |v| && W(t, 0, |t|) < T(i * dpl) && CarryReady(c, mods, whole, mb) &&
    Cong(W(t, 0, |t|) + W(c, 0, |c|) * T(i * dpl), PieceSum(v, i, dpl), P(|t|)) &&
    W(c, 0, |c|) == PieceSum(v, i, dpl) / T(i * dpl)
  }

  method AllItems(tabr: array<Limb>, buf: array<Limb>, fftLen: nat, dpl: nat, whole: nat, mb: nat, mods: seq<Limb>, cr: seq<Limb>, crInv: seq<Limb>, ghost v: seq<nat>)
    returns (ghost left: nat)
    requires dpl >= 1 && Setup(mods, cr, crInv, dpl, whole, mb) && tabr != buf
    requires |v| == fftLen && forall i :: 0 <= i < fftLen ==> v[i] < ProductOf(Ints(mods)) && Residues(buf[..], fftLen, mods, i, v[i])
    modifies tabr
    ensures var len := Items(fftLen, tabr.Length * LB(), dpl);
            Cong(W(tabr[..], 0, tabr.Length) + left * T(len * dpl), PieceSum(v, len, dpl), P(tabr.Length)) &&
            left == PieceSum(v, len, dpl) / T(len * dpl)
  {
    var n := |mods|;
    var y, u := new Limb[n], new Limb[n];
    var carry, zero := new Limb[n](_ => 0), new Limb[n](_ => 0);
    Clear(tabr);
    NoItems(tabr[..], carry[..], mods, whole, mb, v, dpl);
    var len := Items(fftLen, tabr.Length * LB(), dpl);
    ghost var s := buf[..];
    var i := 0;
    while i < len
      invariant 0 <= i <= len && buf[..] == s && (forall k :: 0 <= k < n ==> zero[k] == 0)
      invariant ItemsDone(tabr[..], carry[..], mods, whole, mb, v, i, dpl)
    {
      ReadItem(buf, fftLen, mods, i, y, v[i]);
      NextItem(tabr, y, u, carry, zero, mods, cr, crInv, dpl, whole, mb, v, i);
      i := i + 1;
    }
    left := W(carry[..], 0, n);
  }

  lemma NoItems(t: seq<Limb>, c: seq<Limb>, mods: seq<Limb>, whole: nat, mb: nat, v: seq<nat>, dpl: nat)
    requires |c| == |mods| >= 1 && (forall j :: 0 <= j < |mods| ==> Modulus(mods[j]))
    requires (forall i :: 0 <= i < |t| ==> t[i] == 0) && forall i :: 0 <= i < |c| ==> c[i] == 0
    ensures ItemsDone(t, c, mods, whole, mb, v, 0, dpl)
  {
    ZeroValue(t, |t|);
    ZeroValue(c, |c|);
    ProductSmall(mods);
    TZero();
    CongSame(0, P(|t|));
  }

  method NextItem(tabr: array<Limb>, y: array<Limb>, u: array<Limb>, carry: array<Limb>, zero: array<Limb>,
                  mods: seq<Limb>, cr: seq<Limb>, crInv: seq<Limb>, dpl: nat, whole: nat, mb: nat, ghost v: seq<nat>, i: nat)
    requires Setup(mods, cr, crInv, dpl, whole, mb) && ItemsDone(tabr[..], carry[..], mods, whole, mb, v, i, dpl) && i < |v|
    requires y.Length == u.Length == zero.Length == |mods| && (forall k :: 0 <= k < zero.Length ==> zero[k] == 0)
    requires tabr != y && tabr != u && tabr != carry && tabr != zero && y != u && y != carry && y != zero && u != carry && u != zero && carry != zero
    requires v[i] < ProductOf(Ints(mods)) && forall k :: 0 <= k < y.Length ==> y[k] < mods[k] && Cong(v[i], y[k], mods[k])
    modifies tabr, y, u, carry
    ensures ItemsDone(tabr[..], carry[..], mods, whole, mb, v, i + 1, dpl)
  {
    ghost var n, rlen := |mods|, tabr.Length;
    ghost var before := W(tabr[..], 0, rlen) + W(carry[..], 0, n) * T(i * dpl);
    OneItem(tabr, i * dpl, y, u, carry, zero, mods, cr, crInv, dpl, whole, mb, v[i]);
    Distrib(i, 1, dpl);
    MoreItems(W(tabr[..], 0, rlen) + W(carry[..], 0, n) * T((i + 1) * dpl), before, v, i, dpl, P(rlen));
    CarryQuotient(v, i, dpl);
  }

  /** The carry is what the sum of the items leaves above their width. */
  lemma CarryQuotient(v: seq<nat>, i: nat, dpl: nat)
    requires i < |v|
    ensures (v[i] + PieceSum(v, i, dpl) / T(i * dpl)) / T(dpl) == PieceSum(v, i + 1, dpl) / T((i + 1) * dpl)
  {
    var s, t := PieceSum(v, i, dpl), T(i * dpl);
    Distrib(i, 1, dpl);
    DivMod(s, t);
    Distrib(v[i], s / t, t);
    DivModUnique(PieceSum(v, i + 1, dpl), t, v[i] + s / t, s % t);
    DivDiv(PieceSum(v, i + 1, dpl), i * dpl, dpl);
  }

  lemma MoreItems(after: int, before: int, v: seq<nat>, i: nat, dpl: nat, m: int)
    requires i < |v| && Cong(after, before + v[i] * T(i * dpl), m) && Cong(before, PieceSum(v, i, dpl), m)
    ensures Cong(after, PieceSum(v, i + 1, dpl), m)
  {
    var a := v[i] * T(i * dpl);
    CongSame(a, m);
    CongAdd(before, PieceSum(v, i, dpl), a, a, m);
    CongTrans(after, before + a, PieceSum(v, i + 1, dpl), m);
  }

  /** Items above the width of the result do not count. */
  lemma {:induction false} HighItems(v: seq<nat>, n: nat, len: nat, dpl: nat, rlen: nat)
    requires len <= n <= |v| && len * dpl >= rlen * LB()
    ensures Cong(PieceSum(v, n, dpl), PieceSum(v, len, dpl), P(rlen))
    decreases n
  {
    if n == len {
      CongSame(PieceSum(v, len, dpl), P(rlen));
    } else {
      HighItems(v, n - 1, len, dpl, rlen);
      MulMono(len, n - 1, dpl);
      HighPower(v[n - 1], (n - 1) * dpl, rlen);
      CongAdd(PieceSum(v, n - 1, dpl), PieceSum(v, len, dpl), v[n - 1] * T((n - 1) * dpl), 0, P(rlen));
    }
  }

  lemma HighPower(x: nat, k: nat, rlen: nat)
    requires k >= rlen * LB()
    ensures Cong(x * T(k), 0, P(rlen))
  {
    TAdd(k - rlen * LB(), rlen * LB());
    TLimbs(rlen);
    MulAssoc(x, T(k - rlen * LB()), P(rlen));
    CongBy(x * T(k), 0, x * T(k - rlen * LB()), P(rlen));
  }

  lemma Written(w: nat, left: nat, v: seq<nat>, fftLen: nat, len: nat, dpl: nat, rlen: nat)
    requires dpl >= 1 && |v| == fftLen && len == Items(fftLen, rlen * LB(), dpl) && w < P(rlen)
    requires Cong(w + left * T(len * dpl), PieceSum(v, len, dpl), P(rlen)) && left == PieceSum(v, len, dpl) / T(len * dpl)
    ensures w == PieceSum(v, fftLen, dpl) % (if fftLen * dpl >= rlen * LB() then P(rlen) else T(fftLen * dpl))
  {
    ItemsEnough(fftLen, rlen * LB(), dpl);
    if fftLen * dpl >= rlen * LB() {
      AllWritten(w, left, v, fftLen, len, dpl, rlen);
    } else {
      MulMono(len, fftLen, dpl);
      SomeWritten(w, left, PieceSum(v, len, dpl), len * dpl, rlen);
    }
  }

  /** The items cover the result. */
  lemma AllWritten(w: nat, left: nat, v: seq<nat>, fftLen: nat, len: nat, dpl: nat, rlen: nat)
    requires len <= fftLen == |v| && w < P(rlen) && len * dpl >= rlen * LB()
    requires Cong(w + left * T(len * dpl), PieceSum(v, len, dpl), P(rlen))
    ensures w == PieceSum(v, fftLen, dpl) % P(rlen)
  {
    var m, x := P(rlen), PieceSum(v, fftLen, dpl);
    HighItems(v, fftLen, len, dpl, rlen);
    CongBack(x, PieceSum(v, len, dpl), m);
    HighPower(left, len * dpl, rlen);
    CongSame(w, m);
    CongAdd(w, w, left * T(len * dpl), 0, m);
    CongBack(w + left * T(len * dpl), w, m);
    CongTrans(w, w + left * T(len * dpl), PieceSum(v, len, dpl), m);
    CongTrans(w, PieceSum(v, len, dpl), x, m);
    CongMod(x, m);
    CongTrans(w, x, x % m, m);
    CongUnique(w, x % m, m);
  }

  /** The items end below the top of the result: the last carry is not written. */
  lemma SomeWritten(w: nat, left: nat, x: nat, bits: nat, rlen: nat)
    requires w < P(rlen) && bits < rlen * LB() && Cong(w + left * T(bits), x, P(rlen)) && left == x / T(bits)
    ensures w == x % T(bits)
  {
    var m, y := P(rlen), left * T(bits);
    TLimbs(rlen);
    TMono(bits, rlen * LB());
    DivMod(x, T(bits));
    CongSame(0 - y, m);
    CongAdd(w + y, x, 0 - y, 0 - y, m);
    CongUnique(w, x % T(bits), m);
  }

  method Clear(tab: array<Limb>)
    modifies tab
    ensures forall i :: 0 <= i < tab.Length ==> tab[i] == 0
  {
    var i := 0;
    while i < tab.Length
      invariant 0 <= i <= tab.Length && forall j :: 0 <= j < i ==> tab[j] == 0
    {
      tab[i] := 0;
      i := i + 1;
    }
  }
}
