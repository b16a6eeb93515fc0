/** The number theoretic transform (libbf.c, 7368-7456, 7721-7778, 7818-7853): values are
    kept below twice the modulus and reduced only when needed. */
module Ntt {
  import opened Hints
  import opened Arith
  import opened Limbs
  import opened LimbOps
  import opened Bits
  import opened Congruence
  import opened Fourier
  import LogicOp

  // ------------------------------------------------------------------ modular arithmetic

  /** Moduli are so small that four times a modulus fits a limb. */
  predicate Modulus(m: nat) { 1 < m && 4 * m <= B }

  /** add_mod */
  method AddMod(a: Limb, b: Limb, m: Limb) returns (r: Limb)
    requires 2 * m <= B && a < m && b < m
    ensures r < m && Cong(r, a + b, m)
  {
    WrapMeaning(a, b);
    r := AddW(a, b);
    CongSame(a + b, m);
    if r >= m {
      r := SubW(r, m);
      CongBy(r, a + b, -1, m);
    }
  }

  /** sub_mod */
  method SubMod(a: Limb, b: Limb, m: Limb) returns (r: Limb)
    requires a < m && b < m
    ensures r < m && Cong(r, a - b, m)
  {
    r := SubW(a, b);
    CongSame(a - b, m);
    if r > a {
      r := AddW(r, m);
      CongBy(r, a - b, 1, m);
    }
  }

  function MulLow(x: Limb, y: Limb): Limb
  {
    (x * y) % B
  }

  /** The constant that goes with a multiplier (init_mul_mod_fast2). */
  function Shoup(b: nat, m: nat): nat
    requires m > 0
  {
    (b * B) / m
  }

  lemma ShoupFits(b: nat, m: nat)
    requires b < m
    ensures Shoup(b, m) < B
  {
    DivMod(b * B, m);
    MulStrict(b, m, B);
    if Shoup(b, m) >= B { MulMono(B, Shoup(b, m), m); MulComm(B, m); }
  }

  /** The quotient estimate is right or one too small. */
  lemma ShoupQuotient(a: nat, b: nat, m: nat, q: nat)
    requires a < B && b < m && q == (a * Shoup(b, m)) / B
    ensures 0 <= a * b - q * m < 2 * m
  {
    var c := Shoup(b, m);
    DivMod(b * B, m);
    DivMod(a * c, B);
    var t, s := (b * B) % m, (a * c) % B;
    assert (a * b - q * m) * B == m * s + a * t by { ShoupAlgebra(a, b, c, m, q, s, t); }
    MulNonNeg(m, s);
    MulNonNeg(a, t);
    MulMono(s, B - 1, m);
    MulMono(t, m, a);
    MulStrict(a, B, m);
    ShoupBounds(a * b - q * m, m);
  }

  lemma ShoupAlgebra(a: int, b: int, c: int, m: int, q: int, s: int, t: int)
    requires b * B == c * m + t && a * c == q * B + s
    ensures (a * b - q * m) * B == m * s + a * t
  {
    Distrib(a * b, q * m, B);
    MulAssoc(a, b, B);
    Distrib(c * m, t, a);
    MulAssoc(a, c, m);
    Distrib(q * B, s, m);
    assert (q * m) * B == (q * B) * m;
  }

  lemma ShoupBounds(x: int, m: int)
    requires 0 <= x * B < 2 * m * B
    ensures 0 <= x < 2 * m
  {
    MulCancelLess(x, 2 * m, B);
    if x < 0 { MulMono(x, -1, B); }
  }

  /** A difference of wrapped products is right if the exact one fits a limb. */
  lemma WrapExact(x: nat, y: nat)
    requires 0 <= x - y < B
    ensures SubW(x % B, y % B) == x - y
  {
    DivMod(x, B);
    DivMod(y, B);
    Distrib(x / B, y / B, B);
    WrapMeaning(x % B, y % B);
    var d := y / B - x / B;
    assert x % B - y % B == d * B + (x - y) by { Distrib(y / B, x / B, B); }
    DivModUnique(x % B - y % B, B, d, x - y);
  }

  /** mul_mod_fast3: the product modulo m, or that plus m. */
  method MulModFast3(a: Limb, b: Limb, m: Limb, bInv: Limb) returns (r: Limb)
    requires Modulus(m) && b < m && bInv == Shoup(b, m)
    ensures r < 2 * m && Cong(r, a * b, m)
  {
    QuotientFits(a, bInv);
    var q := (a * bInv) / B;
    r := SubW(MulLow(a, b), MulLow(q, m));
    FastResult(a, b, m, q, r);
  }

  lemma FastResult(a: Limb, b: Limb, m: Limb, q: Limb, r: Limb)
    requires Modulus(m) && b < m && q == (a * Shoup(b, m)) / B && r == SubW(MulLow(a, b), MulLow(q, m))
    ensures r < 2 * m && Cong(r, a * b, m)
  {
    ShoupQuotient(a, b, m, q);
    WrapExact(a * b, q * m);
    NegMul(q, m);
    CongBy(r, a * b, 0 - q as int, m);
  }

  lemma QuotientFits(a: Limb, c: Limb)
    ensures 0 <= (a * c) / B < B
  {
    DivMod(a * c, B);
    MulMono(a, B - 1, c);
    MulMono(c, B - 1, B - 1);
    if (a * c) / B >= B { MulMono(B, (a * c) / B, B); }
  }

  /** mul_mod_fast2: the product modulo m. */
  method MulModFast2(a: Limb, b: Limb, m: Limb, bInv: Limb) returns (r: Limb)
    requires Modulus(m) && b < m && bInv == Shoup(b, m)
    ensures r == (a * b) % m
  {
    r := MulModFast3(a, b, m, bInv);
    if r >= m {
      CongSame(m, m);
      CongBy(r - m, r, -1, m);
      CongTrans(r - m, r, a * b, m);
      r := r - m;
    }
    CongMod(a * b, m);
    CongTrans(r, a * b, (a * b) % m, m);
    CongUnique(r, (a * b) % m, m);
  }

  /** The estimate of mod_fast is at most two too small: e = 2^NTT_MOD_LOG2_MIN, and c is
      the inverse computed by init_mul_mod_fast. */
  lemma FastEstimate(r: nat, m: nat, e: nat, c: nat, a1: nat, q: nat)
    requires 1 <= e <= m && r < B * e && c == (B * e) / m && a1 == r / e && q == (a1 * c) / B
    ensures 0 <= r - q * m < 3 * m
  {
    DivMod(B * e, m);
    DivMod(r, e);
    DivMod(a1 * c, B);
    var t, s, d := (B * e) % m, (a1 * c) % B, r % e;
    if a1 >= B { MulMono(B, a1, e); }
    assert (r - d - q * m) * B == m * s + a1 * t by { FastAlgebra(r, m, e, c, a1, q, t, s, d); }
    MulNonNeg(m, s);
    MulNonNeg(a1, t);
    MulMono(s, B - 1, m);
    MulMono(t, m, a1);
    MulStrict(a1, B, m);
    ShoupBounds(r - d - q * m, m);
  }

  lemma FastAlgebra(r: int, m: int, e: int, c: int, a1: int, q: int, t: int, s: int, d: int)
    requires B * e == c * m + t && r == a1 * e + d && a1 * c == q * B + s
    ensures (r - d - q * m) * B == m * s + a1 * t
  {
    Distrib(a1 * e, q * m, B);
    assert (a1 * e) * B == a1 * (B * e);
    Distrib(c * m, t, a1);
    MulAssoc(a1, c, m);
    Distrib(q * B, s, m);
    assert (q * m) * B == (q * B) * m;
  }

  /** A limb as a signed number, shifted right by one. */
  function HalfSigned(x: Limb): Limb
  {
    if x >= B / 2 then (x - B) / 2 + B else x / 2
  }

  /** m & mask */
  function MaskedBy(m: Limb, mask: Limb): Limb
  {
    LogicOp.OpResult(LogicOp.And, m, mask)
  }

  /** The masks that occur. */
  lemma Masks(m: Limb)
    ensures MaskedBy(m, B - 1) == m && MaskedBy(m, 0) == 0 && HalfSigned(B - 1) == B - 1 && HalfSigned(0) == 0
  {
    TLimb();
    AllBits(m, LB());
    NoBits(m, LB());
  }

  lemma {:induction false} AllBits(x: nat, n: nat)
    requires x < T(n)
    ensures LogicOp.OpBits(LogicOp.And, x, T(n) - 1, n) == x
  {
    TZero();
    if n > 0 {
      TSucc(n - 1);
      assert (T(n) - 1) / 2 == T(n - 1) - 1 && (T(n) - 1) % 2 == 1;
      AllBits(x / 2, n - 1);
    }
  }

  lemma {:induction false} NoBits(x: nat, n: nat)
    ensures LogicOp.OpBits(LogicOp.And, x, 0, n) == 0
  {
    if n > 0 { NoBits(x / 2, n - 1); }
  }

  /** A small number in two limbs: the high limb is its sign. */
  lemma DoubleLimb(y: int)
    requires 0 - B <= y < B
    ensures (y % (B * B)) / B == (if y < 0 then B - 1 else 0) && (y % (B * B)) % B == y % B
  {
    var k := if y < 0 then -1 else 0;
    MulMono(2, B, B);
    DivModUnique(y, B * B, k, y - k * (B * B));
    Distrib(B, 1, B);
    if y < 0 {
      DivModUnique(y + B * B, B, B - 1, y + B);
      DivModUnique(y, B, -1, y + B);
    } else {
      DivModUnique(y, B, 0, y);
    }
  }

  /** What the two masked additions of mod_fast amount to: m is added where the double limb
      is negative. */
  function Lifted(y: int, m: int): int
  {
    if y < 0 then y + m else y
  }

  /** The masked additions of mod_fast, on two limbs and on one. */
  method LiftDouble(d: nat, m: Limb, ghost y: int) returns (d1: nat)
    requires d == y % (B * B) && 4 * m <= B && 0 - 2 * m as int <= y < m
    ensures d1 == Lifted(y, m) % (B * B)
  {
    DoubleLimb(y);
    Masks(m);
    d1 := (d + MaskedBy(m, HalfSigned(d / B))) % (B * B);
    DoubleSum(y, m);
  }

  lemma DoubleSum(y: int, m: nat)
    ensures (y % (B * B) + m) % (B * B) == (y + m) % (B * B) && (y % (B * B)) % (B * B) == y % (B * B)
  {
    var bb := B * B;
    MulMono(1, B, B);
    DivMod(y, bb);
    var u := y % bb + m;
    DivMod(u, bb);
    Distrib(u / bb, y / bb, bb);
    DivModUnique(y + m, bb, u / bb + y / bb, u % bb);
    DivModUnique(y % bb, bb, 0, y % bb);
  }

  method LiftLimb(d: nat, m: Limb, ghost y: int) returns (x: Limb)
    requires d == y % (B * B) && 2 * m <= B && 0 - m as int <= y < m
    ensures x == Lifted(y, m)
  {
    DoubleLimb(y);
    Masks(m);
    var r0, r1 := d % B, d / B;
    x := (r0 + MaskedBy(m, r1)) % B;
    LimbSum(y, m);
  }

  lemma LimbSum(y: int, m: nat)
    requires 0 - m <= y < m && 2 * m <= B
    ensures y < 0 ==> (y % B + m) % B == y + m
    ensures y >= 0 ==> (y % B + 0) % B == y
  {
    if y < 0 {
      DivModUnique(y, B, -1, y + B);
      DivModUnique(y + B + m, B, 1, y + m);
    } else {
      DivModUnique(y, B, 0, y);
    }
  }

  /** mod_fast: r modulo m, in double limbs that wrap and with masks from their sign. */
  method ModFast(r: nat, m: Limb, e: nat, mInv: Limb) returns (x: Limb)
    requires Modulus(m) && 1 <= e <= m && r < B * e && mInv == (B * e) / m
    ensures x == r % m
  {
    var a1: int := r / e;
    var q: int := (a1 * mInv as int) / B;
    ghost var y: int := r - q * m as int - 2 * m as int;
    FastRemainder(r, m, e, mInv, a1, q, y);
    MulMono(1, B, B);
    DivMod(y, B * B);
    var d: int := (r - q * m as int - 2 * m as int) % (B * B);
    d := LiftDouble(d, m, y);
    x := LiftLimb(d, m, Lifted(y, m));
  }

  lemma FastRemainder(r: nat, m: nat, e: nat, c: nat, a1: int, q: int, y: int)
    requires Modulus(m) && 1 <= e <= m && r < B * e && c == (B * e) / m && a1 == r / e && q == (a1 * c) / B
    requires y == r - q * m - 2 * m
    ensures Lifted(Lifted(y, m), m) == r % m && 0 <= r % m < m < B && 0 - 2 * m <= y < m
  {
    DivMod(r, e);
    DivMod(a1 * c, B);
    SignOfQuotient(r, e);
    MulNonNeg(a1, c);
    SignOfQuotient(a1 * c, B);
    FastEstimate(r, m, e, c, a1, q);
    Remainder(r, q, m, y);
    DivMod(r, m);
  }

  lemma SignOfQuotient(x: nat, d: nat)
    requires d >= 1
    ensures x / d >= 0
  {
    DivMod(x, d);
    if x / d < 0 { MulMono(x / d, -1, d); }
  }

  /** Two conditional additions bring the remainder into range. */
  lemma Remainder(r: nat, q: nat, m: nat, y: int)
    requires m >= 1 && 0 <= r - q * m < 3 * m && y == r - q * m - 2 * m
    ensures r % m == Lifted(Lifted(y, m), m)
  {
    var k := if y >= 0 then 2 else if y + m >= 0 then 1 else 0;
    Distrib(q, k, m);
    DivModUnique(r, m, q + k, y + (2 - k) * m);
  }

  // ------------------------------------------------------------------------- the passes

  ghost function ValueAt(y: seq<Limb>, i: int): int
  {
    if 0 <= i < |y| then y[i] else 0
  }

  /** Every step-th value from r on, n of them. */
  ghost function Column(y: seq<Limb>, step: nat, n: nat, r: nat): (c: seq<int>)
    ensures |c| == n && forall q :: 0 <= q < n ==> c[q] == ValueAt(y, q * step + r)
  {
    seq(n, q => ValueAt(y, q * step + r))
  }

  /** The transform of column r of y has the values r, r + step, ... of the transform of x. */
  ghost predicate ColumnOk(y: seq<Limb>, x: seq<int>, w: int, step: nat, n: nat, m: int, r: nat, k: nat)
  {
    Cong(Dft(Column(y, step, n, r), Exp(w, step), k), Dft(x, w, r + step * k), m)
  }

  ghost predicate Halfway(y: seq<Limb>, x: seq<int>, w: int, step: nat, n: nat, m: int)
  {
    forall r, k :: 0 <= r < step && 0 <= k < n ==> ColumnOk(y, x, w, step, n, m, r, k)
  }

  /** Output pair (i, j) of a pass: a sum, and a difference times w^(step * i). */
  ghost predicate PairOk(y: seq<Limb>, y1: seq<Limb>, w: int, step: nat, half: nat, m: int, i: nat, j: nat)
  {
    var a0, a1 := ValueAt(y, i * step + j), ValueAt(y, i * step + j + half * step);
    Cong(ValueAt(y1, 2 * (i * step) + j), a0 + a1, m) &&
    Cong(ValueAt(y1, 2 * (i * step) + step + j), (a0 - a1) * Exp(w, step * i), m)
  }

  ghost predicate RowOk(y: seq<Limb>, y1: seq<Limb>, w: int, step: nat, half: nat, m: int, i: nat)
  {
    forall j :: 0 <= j < step ==> PairOk(y, y1, w, step, half, m, i, j)
  }

  ghost predicate PassOk(y: seq<Limb>, y1: seq<Limb>, w: int, step: nat, half: nat, m: int)
  {
    forall i :: 0 <= i < half ==> RowOk(y, y1, w, step, half, m, i)
  }

  ghost function Differences(x: seq<int>, y: seq<int>, v: int): (o: seq<int>)
    requires |x| == |y|
    ensures Turned(x, y, o, v)
  {
    seq(|x|, q requires 0 <= q < |x| => (x[q] - y[q]) * Exp(v, q))
  }

  ghost function Additions(x: seq<int>, y: seq<int>): (e: seq<int>)
    requires |x| == |y|
    ensures Added(x, y, e)
  {
    seq(|x|, q requires 0 <= q < |x| => x[q] + y[q])
  }

  /** A column and its two halves. */
  lemma Halved(y: seq<Limb>, step: nat, half: nat, r: nat)
    ensures Column(y, step, 2 * half, r) == Column(y, step, half, r) + Column(y, step, half, r + half * step)
  {
    var c, c1, c2 := Column(y, step, 2 * half, r), Column(y, step, half, r), Column(y, step, half, r + half * step);
    forall q | 0 <= q < 2 * half ensures c[q] == (c1 + c2)[q] {
      if q >= half { Distrib(q - half, half, step); }
    }
  }

  lemma PairAt(y: seq<Limb>, y1: seq<Limb>, w: int, step: nat, half: nat, m: int, r: nat, q: nat)
    requires PassOk(y, y1, w, step, half, m) && r < step && q < half
    ensures PairOk(y, y1, w, step, half, m, q, r)
  {
    assert RowOk(y, y1, w, step, half, m, q);
  }

  /** The columns after a pass. */
  lemma PassColumns(y: seq<Limb>, y1: seq<Limb>, w: int, step: nat, half: nat, m: int, r: nat)
    requires PassOk(y, y1, w, step, half, m) && r < step
    ensures var x1, x2, v := Column(y, step, half, r), Column(y, step, half, r + half * step), Exp(w, step);
            AllCong(Column(y1, 2 * step, half, r), Additions(x1, x2), m) &&
            AllCong(Column(y1, 2 * step, half, r + step), Differences(x1, x2, v), m)
  {
    var x1, x2, v := Column(y, step, half, r), Column(y, step, half, r + half * step), Exp(w, step);
    var c, d, e, o := Column(y1, 2 * step, half, r), Column(y1, 2 * step, half, r + step), Additions(x1, x2), Differences(x1, x2, v);
    forall q | 0 <= q < half ensures Cong(c[q], e[q], m) && Cong(d[q], o[q], m) {
      PairAt(y, y1, w, step, half, m, r, q);
      PowerMul(w, step, q);
      assert q * (2 * step) == 2 * (q * step);
    }
  }

  /** A pass keeps what is known, for twice the step. */
  lemma PassHalfway(y: seq<Limb>, y1: seq<Limb>, x: seq<int>, w: int, step: nat, half: nat, m: int)
    requires Halfway(y, x, w, step, 2 * half, m) && PassOk(y, y1, w, step, half, m) && Cong(Exp(w, step * half), -1, m)
    ensures Halfway(y1, x, w, 2 * step, half, m)
  {
    forall r, k | 0 <= r < 2 * step && 0 <= k < half ensures ColumnOk(y1, x, w, 2 * step, half, m, r, k) {
      var r1 := if r < step then r else r - step;
      assert ColumnOk(y, x, w, step, 2 * half, m, r1, 2 * k);
      assert ColumnOk(y, x, w, step, 2 * half, m, r1, 2 * k + 1);
      PassColumn(y, y1, x, w, step, half, m, r1, k);
    }
  }

  lemma PassColumn(y: seq<Limb>, y1: seq<Limb>, x: seq<int>, w: int, step: nat, half: nat, m: int, r: nat, k: nat)
    requires PassOk(y, y1, w, step, half, m) && Cong(Exp(w, step * half), -1, m) && r < step && k < half
    requires ColumnOk(y, x, w, step, 2 * half, m, r, 2 * k) && ColumnOk(y, x, w, step, 2 * half, m, r, 2 * k + 1)
    ensures ColumnOk(y1, x, w, 2 * step, half, m, r, k) && ColumnOk(y1, x, w, 2 * step, half, m, r + step, k)
  {
    var x1, x2, v := Column(y, step, half, r), Column(y, step, half, r + half * step), Exp(w, step);
    PassColumns(y, y1, w, step, half, m, r);
    Halved(y, step, half, r);
    PowerMul(w, step, half);
    PowerMul(w, step, 2);
    MulComm(step, 2);
    StepTimes(step, k);
    TwoColumns(x1, x2, Column(y1, 2 * step, half, r), Column(y1, 2 * step, half, r + step), v, k, m,
               Dft(x, w, r + step * (2 * k)), Dft(x, w, r + step * (2 * k + 1)));
  }

  /** From a column of the input to the two columns of the output. */
  lemma TwoColumns(x1: seq<int>, x2: seq<int>, c: seq<int>, d: seq<int>, v: int, k: nat, m: int, even: int, odd: int)
    requires |x1| == |x2| && AllCong(c, Additions(x1, x2), m) && AllCong(d, Differences(x1, x2, v), m) && Cong(Exp(v, |x1|), -1, m)
    requires Cong(Dft(x1 + x2, v, 2 * k), even, m) && Cong(Dft(x1 + x2, v, 2 * k + 1), odd, m)
    ensures Cong(Dft(c, Exp(v, 2), k), even, m) && Cong(Dft(d, Exp(v, 2), k), odd, m)
  {
    var e, o := Additions(x1, x2), Differences(x1, x2, v);
    Decimate(x1, x2, e, o, v, k, m);
    DftCong(c, e, Exp(v, 2), k, m);
    DftCong(d, o, Exp(v, 2), k, m);
    Chain(Dft(c, Exp(v, 2), k), Dft(e, Exp(v, 2), k), Dft(x1 + x2, v, 2 * k), even, m);
    Chain(Dft(d, Exp(v, 2), k), Dft(o, Exp(v, 2), k), Dft(x1 + x2, v, 2 * k + 1), odd, m);
  }

  lemma StepTimes(step: int, k: int)
    ensures step * (2 * k) == (2 * step) * k && step * (2 * k + 1) == step + (2 * step) * k
  {
    MulAssoc(step, 2, k);
    MulComm(step, 2);
    Distrib(2 * k, 1, step);
  }

  lemma Chain(a: int, b: int, c: int, d: int, m: int)
    requires Cong(a, b, m) && Cong(b, c, m) && Cong(c, d, m)
    ensures Cong(a, d, m)
  {
    CongTrans(a, b, c, m);
    CongTrans(a, c, d, m);
  }

  // ------------------------------------------------------------------- passes on buffers

  /** All values are below the bound. */
  ghost predicate Below(y: seq<Limb>, n: nat, bound: int)
  {
    n <= |y| && forall i :: 0 <= i < n ==> y[i] < bound
  }

  /** Entry i of a table of multipliers: w^(step * i), and the constant that goes with it. */
  ghost predicate TrigAt(trig: seq<Limb>, w: int, step: nat, m: nat, i: nat)
  {
    m > 0 && 2 * i + 1 < |trig| && trig[2 * i] < m && trig[2 * i + 1] == Shoup(trig[2 * i], m) && Cong(trig[2 * i], Exp(w, step * i), m)
  }

  ghost predicate TrigOk(trig: seq<Limb>, w: int, step: nat, half: nat, m: nat)
  {
    |trig| == 2 * half && forall i :: 0 <= i < half ==> TrigAt(trig, w, step, m, i)
  }

  /** Two values in, their sum and their difference times c out. */
  method Butterfly(a0: Limb, a1: Limb, c: Limb, cInv: Limb, m: Limb) returns (b0: Limb, b1: Limb)
    requires Modulus(m) && a0 < 2 * m && a1 < 2 * m && c < m && cInv == Shoup(c, m)
    ensures b0 < 2 * m && b1 < 2 * m && Cong(b0, a0 + a1, m) && Cong(b1, (a0 - a1) * c, m)
  {
    b0 := AddMod(a0, a1, 2 * m);
    TwiceCong(b0, a0 + a1, m);
    var d := a0 - a1 + 2 * m;
    b1 := MulModFast3(d, c, m, cInv);
    CongBy(d, a0 - a1, 2, m);
    CongSame(c, m);
    CongMul(d, a0 - a1, c, c, m);
    CongTrans(b1, d * c, (a0 - a1) * c, m);
  }

  lemma TwiceCong(a: int, b: int, m: int)
    requires Cong(a, b, 2 * m)
    ensures Cong(a, b, m)
  {
    CongMeans(a, b, 2 * m);
    var q :| Multiple(a, b, q, 2 * m);
    MulAssoc(q, 2, m);
    CongBy(a, b, q * 2, m);
  }

  /** All values of the window [lo, hi) are below the bound. */
  ghost predicate Ranged(y: seq<Limb>, lo: nat, hi: nat, bound: int)
  {
    forall i :: 0 <= i < |y| && lo <= i < hi ==> y[i] < bound
  }

  /** Pair j of a block. */
  ghost predicate Crossed(y: seq<Limb>, y1: seq<Limb>, k: nat, p: nat, step: nat, off: nat, c: int, m: int, j: nat)
  {
    Cong(ValueAt(y1, p + j), ValueAt(y, k + j) + ValueAt(y, k + j + off), m) &&
    Cong(ValueAt(y1, p + step + j), (ValueAt(y, k + j) - ValueAt(y, k + j + off)) * c, m)
  }

  /** One block of a pass: the same multiplier for all pairs. */
  method Block(tin: array<Limb>, tout: array<Limb>, k: nat, p: nat, step: nat, off: nat, c: Limb, cInv: Limb, m: Limb)
    requires tin != tout && off + k + step <= tin.Length && p + 2 * step <= tout.Length
    requires Modulus(m) && c < m && cInv == Shoup(c, m) && Ranged(tin[..], 0, off + k + step, 2 * m)
    modifies tout
    ensures Outside(old(tout[..]), tout[..], p, 2 * step) && Ranged(tout[..], p, p + 2 * step, 2 * m)
    ensures forall j :: 0 <= j < step ==> Crossed(tin[..], tout[..], k, p, step, off, c, m, j)
  {
    ghost var s := tout[..];
    var j := 0;
    while j < step
      invariant 0 <= j <= step
      invariant Outside(s, tout[..], p, 2 * step)
      invariant forall i :: 0 <= i < j ==> Crossed(tin[..], tout[..], k, p, step, off, c, m, i)
      invariant Ranged(tout[..], p, p + j, 2 * m) && Ranged(tout[..], p + step, p + step + j, 2 * m)
    {
      ghost var t := tout[..];
      var b0, b1 := Butterfly(tin[k + j], tin[k + j + off], c, cInv, m);
      tout[p + j] := b0;
      tout[p + step + j] := b1;
      CrossedMore(tin[..], t, tout[..], k, p, step, off, c, m, j);
      j := j + 1;
    }
  }

  lemma CrossedMore(y: seq<Limb>, t: seq<Limb>, t1: seq<Limb>, k: nat, p: nat, step: nat, off: nat, c: int, m: int, j: nat)
    requires j < step && p + 2 * step <= |t| == |t1| && t1 == t[p + j := t1[p + j]][p + step + j := t1[p + step + j]]
    requires forall i :: 0 <= i < j ==> Crossed(y, t, k, p, step, off, c, m, i)
    requires Crossed(y, t1, k, p, step, off, c, m, j)
    ensures forall i :: 0 <= i < j + 1 ==> Crossed(y, t1, k, p, step, off, c, m, i)
  {
    forall i | 0 <= i < j ensures Crossed(y, t1, k, p, step, off, c, m, i) {
      assert Crossed(y, t, k, p, step, off, c, m, i);
    }
  }

  // ------------------------------------------------------------------------------ ntt_fft

  /** Indices of block i lie below those of block i + 1. */
  lemma BlockPlace(i: nat, half: nat, step: nat)
    requires i < half
    ensures 2 * (i * step) + 2 * step == 2 * ((i + 1) * step) && (i + 1) * step <= half * step && i * step + step == (i + 1) * step
  {
    Distrib(i, 1, step);
    MulMono(i + 1, half, step);
  }

  /** The pairs of a block, with the multiplier as a power of the root. */
  lemma BlockRow(y: seq<Limb>, y1: seq<Limb>, w: int, step: nat, half: nat, m: int, i: nat, c: int)
    requires forall j :: 0 <= j < step ==> Crossed(y, y1, i * step, 2 * (i * step), step, half * step, c, m, j)
    requires Cong(c, Exp(w, step * i), m)
    ensures RowOk(y, y1, w, step, half, m, i)
  {
    forall j | 0 <= j < step ensures PairOk(y, y1, w, step, half, m, i, j) {
      assert Crossed(y, y1, i * step, 2 * (i * step), step, half * step, c, m, j);
      var d := ValueAt(y, i * step + j) - ValueAt(y, i * step + j + half * step);
      CongSame(d, m);
      CongMul(d, d, c, Exp(w, step * i), m);
      CongTrans(ValueAt(y1, 2 * (i * step) + step + j), d * c, d * Exp(w, step * i), m);
    }
  }

  /** Writing later blocks does not change a row. */
  lemma RowKept(y: seq<Limb>, t: seq<Limb>, t1: seq<Limb>, w: int, step: nat, half: nat, m: int, i: nat, p: nat)
    requires RowOk(y, t, w, step, half, m, i) && |t| == |t1| && 2 * (i * step) + 2 * step <= p <= |t| && t[..p] == t1[..p]
    ensures RowOk(y, t1, w, step, half, m, i)
  {
    forall j | 0 <= j < step ensures PairOk(y, t1, w, step, half, m, i, j) {
      assert PairOk(y, t, w, step, half, m, i, j);
      var i0, i1 := 2 * (i * step) + j, 2 * (i * step) + step + j;
      assert t[..p][i0] == t1[..p][i0] && t[..p][i1] == t1[..p][i1];
    }
  }

  ghost predicate RowsOk(y: seq<Limb>, y1: seq<Limb>, w: int, step: nat, half: nat, m: int, n: nat)
  {
    forall i :: 0 <= i < n ==> RowOk(y, y1, w, step, half, m, i)
  }

  lemma RowsMore(y: seq<Limb>, t: seq<Limb>, t1: seq<Limb>, w: int, step: nat, half: nat, m: int, n: nat)
    requires RowsOk(y, t, w, step, half, m, n) && RowOk(y, t1, w, step, half, m, n)
    requires |t| == |t1| && 2 * (n * step) <= |t| && t[..2 * (n * step)] == t1[..2 * (n * step)]
    ensures RowsOk(y, t1, w, step, half, m, n + 1)
  {
    forall i | 0 <= i < n ensures RowOk(y, t1, w, step, half, m, i) {
      BlockPlace(i, n, step);
      RowKept(y, t, t1, w, step, half, m, i, 2 * (n * step));
    }
  }

  /** One pass over the buffer. */
  method Pass(tin: array<Limb>, tout: array<Limb>, trig: seq<Limb>, ghost w: int, step: nat, half: nat, m: Limb)
    requires tin != tout && tin.Length == tout.Length == 2 * (half * step) && Modulus(m)
    requires TrigOk(trig, w, step, half, m) && Ranged(tin[..], 0, tin.Length, 2 * m)
    modifies tout
    ensures PassOk(tin[..], tout[..], w, step, half, m) && Ranged(tout[..], 0, tout.Length, 2 * m)
  {
    var i := 0;
    while i < half
      invariant 0 <= i <= half
      invariant RowsOk(tin[..], tout[..], w, step, half, m, i)
      invariant Ranged(tout[..], 0, 2 * (i * step), 2 * m)
    {
      BlockPlace(i, half, step);
      assert TrigAt(trig, w, step, m, i);
      ghost var t := tout[..];
      Block(tin, tout, i * step, 2 * (i * step), step, half * step, trig[2 * i], trig[2 * i + 1], m);
      BlockRow(tin[..], tout[..], w, step, half, m, i, trig[2 * i]);
      RowsMore(tin[..], t, tout[..], w, step, half, m, i);
      i := i + 1;
    }
  }

  /** Pair k of the last pass. */
  ghost predicate LastPair(y: seq<Limb>, y1: seq<Limb>, stride: nat, m: int, k: nat)
  {
    Cong(ValueAt(y1, k), ValueAt(y, k) + ValueAt(y, k + stride), m) &&
    Cong(ValueAt(y1, k + stride), ValueAt(y, k) - ValueAt(y, k + stride), m)
  }

  /** The last pass has no multipliers; it may work in place. */
  method LastPass(tin: array<Limb>, out: array<Limb>, stride: nat, m: Limb)
    requires tin.Length == out.Length == 2 * stride && Modulus(m) && Ranged(tin[..], 0, tin.Length, 2 * m)
    modifies out
    ensures Ranged(out[..], 0, out.Length, 2 * m)
    ensures forall k :: 0 <= k < stride ==> LastPair(old(tin[..]), out[..], stride, m, k)
  {
    ghost var y := tin[..];
    var k := 0;
    while k < stride
      invariant 0 <= k <= stride
      invariant forall i :: 0 <= i < k ==> LastPair(y, out[..], stride, m, i)
      invariant forall i :: k <= i < stride || stride + k <= i < 2 * stride ==> tin[i] == y[i]
      invariant Ranged(out[..], 0, k, 2 * m) && Ranged(out[..], stride, stride + k, 2 * m)
    {
      var a0, a1 := tin[k], tin[k + stride];
      assert a0 == y[k] && a1 == y[k + stride];
      ghost var t := out[..];
      var b0 := AddMod(a0, a1, 2 * m);
      var b1 := SubMod(a0, a1, 2 * m);
      TwiceCong(b0, a0 + a1, m);
      TwiceCong(b1, a0 as int - a1 as int, m);
      out[k], out[k + stride] := b0, b1;
      LastMore(y, t, out[..], stride, m, k);
      k := k + 1;
    }
  }

  lemma LastMore(y: seq<Limb>, t: seq<Limb>, t1: seq<Limb>, stride: nat, m: int, k: nat)
    requires k < stride && |t| == |t1| == 2 * stride && t1 == t[k := t1[k]][k + stride := t1[k + stride]]
    requires forall i :: 0 <= i < k ==> LastPair(y, t, stride, m, i)
    requires LastPair(y, t1, stride, m, k)
    ensures forall i :: 0 <= i < k + 1 ==> LastPair(y, t1, stride, m, i)
  {
    forall i | 0 <= i < k ensures LastPair(y, t1, stride, m, i) {
      assert LastPair(y, t, stride, m, i);
    }
  }

  lemma LastPassOk(y: seq<Limb>, y1: seq<Limb>, w: int, stride: nat, m: int)
    requires forall k :: 0 <= k < stride ==> LastPair(y, y1, stride, m, k)
    ensures PassOk(y, y1, w, stride, 1, m)
  {
    PowerZero(w);
    forall j | 0 <= j < stride ensures PairOk(y, y1, w, stride, 1, m, 0, j) {
      assert LastPair(y, y1, stride, m, j);
    }
    assert RowOk(y, y1, w, stride, 1, m, 0);
  }

  /** The limbs as integers. */
  ghost function Ints(y: seq<Limb>): (x: seq<int>)
    ensures |x| == |y| && forall i :: 0 <= i < |y| ==> x[i] == y[i]
  {
    seq(|y|, i requires 0 <= i < |y| => y[i] as int)
  }

  /** Before the first pass the only column is the input. */
  lemma StartHalfway(y: seq<Limb>, w: int, m: int)
    ensures Halfway(y, Ints(y), w, 1, |y|, m)
  {
    forall r, k | 0 <= r < 1 && 0 <= k < |y| ensures ColumnOk(y, Ints(y), w, 1, |y|, m, r, k) {
      assert Column(y, 1, |y|, 0) == Ints(y);
      PowerZero(w);
      PowerSucc(w, 0);
      CongSame(Dft(Ints(y), w, k), m);
    }
  }

  /** After the last pass every column is a single value. */
  lemma EndHalfway(y: seq<Limb>, x: seq<int>, w: int, n: nat, m: int, k: nat)
    requires Halfway(y, x, w, n, 1, m) && k < n == |y|
    ensures Cong(y[k], Dft(x, w, k), m)
  {
    assert ColumnOk(y, x, w, n, 1, m, k, 0);
    var c := Column(y, n, 1, k);
    assert c == [] + [c[0]];
    DftSnoc([], c[0], Exp(w, n), 0);
    DftEmpty(Exp(w, n), 0);
    PowerZero(Exp(w, n));
  }

  /** The tables for all passes: the root of order 2^l is w^(2^(len - l)). */
  ghost predicate Tables(trigs: seq<seq<Limb>>, w: int, len: nat, m: nat)
  {
    |trigs| > len && forall l :: 2 <= l <= len ==> TrigOk(trigs[l], w, T(len - l), T(l - 1), m)
  }

  /** ntt_fft: for a root w with w^(n / 2) = -1, the output is congruent to the transform of
      the input, and stays below twice the modulus. */
  method NttFft(out: array<Limb>, inp: array<Limb>, tmp: array<Limb>, trigs: seq<seq<Limb>>, ghost w: int, len: nat, m: Limb)
    requires len >= 1 && inp.Length == tmp.Length == out.Length == T(len) && tmp != inp && tmp != out && Modulus(m)
    requires Tables(trigs, w, len, m) && Cong(Exp(w, T(len - 1)), -1, m) && Ranged(inp[..], 0, inp.Length, 2 * m)
    modifies inp, tmp, out
    ensures Ranged(out[..], 0, out.Length, 2 * m)
    ensures forall k :: 0 <= k < out.Length ==> Cong(out[k], Dft(Ints(old(inp[..])), w, k), m)
  {
    ghost var x := Ints(inp[..]);
    var blocks, step, l := T(len), 1, len;
    var tin, tout := inp, tmp;
    TZero();
    StartHalfway(inp[..], w, m);
    while blocks != 2
      invariant 1 <= l <= len && blocks == T(l) && step == T(len - l)
      invariant (tin == inp && tout == tmp) || (tin == tmp && tout == inp)
      invariant Ranged(tin[..], 0, tin.Length, 2 * m) && Halfway(tin[..], x, w, step, blocks, m)
      decreases l
    {
      Deeper(l, len);
      blocks := blocks / 2;
      Pass(tin, tout, trigs[l], w, step, blocks, m);
      PassHalfway(tin[..], tout[..], x, w, step, blocks, m);
      step := 2 * step;
      l := l - 1;
      tin, tout := tout, tin;
    }
    Deepest(l, len);
    var stride := T(len) / 2;
    ghost var y := tin[..];
    LastPass(tin, out, stride, m);
    LastPassOk(y, out[..], w, stride, m);
    PassHalfway(y, out[..], x, w, stride, 1, m);
    forall k | 0 <= k < out.Length ensures Cong(out[k], Dft(x, w, k), m) {
      EndHalfway(out[..], x, w, T(len), m, k);
    }
  }

  lemma Deeper(l: nat, len: nat)
    requires 1 <= l <= len && T(l) != 2
    ensures l >= 2 && T(l) == 2 * T(l - 1) && 2 * T(len - l) == T(len - l + 1)
    ensures T(len) == 2 * (T(l - 1) * T(len - l)) && T(len - l) * T(l - 1) == T(len - 1)
  {
    TZero();
    TSucc(0);
    TSucc(l - 1);
    TSucc(len - l);
    TSucc(len - 1);
    TAdd(l - 1, len - l);
    MulComm(T(l - 1), T(len - l));
  }

  lemma Deepest(l: nat, len: nat)
    requires 1 <= l <= len && T(l) == 2
    ensures l == 1 && T(len) == 2 * T(len - 1)
  {
    TZero();
    TSucc(0);
    TSucc(len - 1);
    TSucc(1);
    if l >= 2 { TMono(2, l); }
  }

  // ----------------------------------------------------------------------------- get_trig

  /** Entries below n are those of a table of powers of c. */
  ghost predicate TrigUpTo(tab: seq<Limb>, w: int, step: nat, m: nat, n: nat)
  {
    forall i :: 0 <= i < n ==> TrigAt(tab, w, step, m, i)
  }

  lemma TrigMore(t: seq<Limb>, t1: seq<Limb>, w: int, step: nat, m: nat, n: nat)
    requires TrigUpTo(t, w, step, m, n) && |t| == |t1| && 2 * n <= |t| && t[..2 * n] == t1[..2 * n] && TrigAt(t1, w, step, m, n)
    ensures TrigUpTo(t1, w, step, m, n + 1)
  {
    forall i | 0 <= i < n ensures TrigAt(t1, w, step, m, i) {
      assert TrigAt(t, w, step, m, i);
      assert t[..2 * n][2 * i] == t1[..2 * n][2 * i] && t[..2 * n][2 * i + 1] == t1[..2 * n][2 * i + 1];
    }
  }

  /** get_trig: the powers of the root cMul = w^step. */
  method GetTrig(half: nat, cMul: Limb, cMulInv: Limb, m: Limb, ghost w: int, ghost step: nat) returns (tab: array<Limb>)
    requires Modulus(m) && cMul < m && cMulInv == Shoup(cMul, m) && Cong(cMul, Exp(w, step), m)
    ensures fresh(tab) && TrigOk(tab[..], w, step, half, m)
  {
    tab := new Limb[2 * half];
    var c: Limb := 1;
    PowerZero(w);
    CongSame(1, m);
    var i := 0;
    while i < half
      invariant 0 <= i <= half && c < m && Cong(c, Exp(w, step * i), m)
      invariant TrigUpTo(tab[..], w, step, m, i)
    {
      ghost var t := tab[..];
      ShoupFits(c, m);
      tab[2 * i] := c;
      tab[2 * i + 1] := Shoup(c, m);
      TrigMore(t, tab[..], w, step, m, i);
      ghost var c0 := c;
      c := MulModFast2(c, cMul, m, cMulInv);
      NextPower(c0, cMul, c, w, step, i, m);
      i := i + 1;
    }
  }

  lemma NextPower(c0: nat, cMul: nat, c: nat, w: int, step: nat, i: nat, m: nat)
    requires m > 0 && c == (c0 * cMul) % m && Cong(c0, Exp(w, step * i), m) && Cong(cMul, Exp(w, step), m)
    ensures Cong(c, Exp(w, step * (i + 1)), m)
  {
    Distrib(i, 1, step);
    PowerAdd(w, step * i, step);
    CongMul(c0, Exp(w, step * i), cMul, Exp(w, step), m);
    CongMod(c0 * cMul, m);
    CongBack(c0 * cMul, c, m);
    CongTrans(c, c0 * cMul, Exp(w, step * (i + 1)), m);
  }
}
