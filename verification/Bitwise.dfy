/** bf_logic_op as a whole (libbf.c, 2322-2406): negative operands are increased by one
    before the loop over the limbs, and a negative result is decreased by one after it. */
module Bitwise {
  import opened Hints
  import opened Arith
  import opened Limbs
  import opened LimbOps
  import opened Bits
  import opened RoundSpec
  import opened Float
  import opened RoundScale
  import opened LogicOp
  import FloatAdd

  /** BF_PREC_INF and BF_RNDZ: no rounding at all for numbers that are not out of range. */
  function ExactFormat(): Format
  {
    Format(PrecInf(), B / 16, false, false, RndZ)
  }

  lemma ExactRound(neg: bool, n: nat, e: int)
    requires n > 0 && BitLen(n) <= PrecInf() && 1 <= e + BitLen(n)
    ensures RoundOutcome(ExactFormat(), neg, n, e, false).num == if e + BitLen(n) <= B / 16 then NumFinite(neg, e + BitLen(n), n, e) else NumInf(neg)
  {
    OutcomeMeans(ExactFormat(), neg, n, e, false);
    FinishMeans(ExactFormat(), neg, e + BitLen(n), n, e, false);
  }

  // ------------------------------------------------------------------ integer operands

  /** An integer as the library keeps it. */
  ghost predicate Whole(x: Bf)
    reads x, x.tab
  {
    Integer(x) && (x.kind == Finite ==> x.Normal() && x.expn <= B / 16)
  }

  /** Integers with an exponent that the library has. */
  predicate InRange(v: int)
  {
    v == 0 || BitLen(FloatAdd.Abs(v)) <= B / 16
  }

  /** r is the integer v, or infinity if there is no such number. */
  ghost predicate Holds(r: Bf, v: int)
    reads r, r.tab
  {
    if InRange(v) then Whole(r) && IntValue(r) == v else r.kind == Inf && r.len == 0 && r.neg == (v < 0)
  }

  ghost function IntValue(x: Bf): int
    reads x, x.tab
    requires Integer(x)
  {
    if x.neg then 0 - Absolute(x) as int else Absolute(x)
  }

  /** An integer in units of 2^c. */
  lemma IntegerScaled(x: Bf, c: int)
    requires Integer(x) && x.kind == Finite && c <= 0 && c <= FloatAdd.Scale(x)
    ensures FloatAdd.Magnitude(x, c) == Absolute(x) * T(0 - c)
  {
    var n, s := W(x.tab[..], 0, x.len), LowestExponent(x);
    assert s == FloatAdd.Scale(x);
    if s >= 0 {
      TAdd(s, 0 - c);
      MulAssoc(n, T(s), T(0 - c));
    } else {
      DivMod(n, T(0 - s));
      TAdd(0 - s, s - c);
      MulAssoc(Absolute(x), T(0 - s), T(s - c));
    }
  }

  /** A whole multiple of one is an integer. */
  lemma ScaledInteger(x: Bf, c: int, m: nat)
    requires x.kind == Finite && 1 <= x.len <= x.tab.Length && c <= 0 && c <= FloatAdd.Scale(x)
    requires FloatAdd.Magnitude(x, c) == m * T(0 - c)
    ensures Integer(x) && Absolute(x) == m
  {
    var n, s := W(x.tab[..], 0, x.len), LowestExponent(x);
    assert s == FloatAdd.Scale(x);
    if s >= 0 {
      TAdd(s, 0 - c);
      MulAssoc(n, T(s), T(0 - c));
      CancelScale(n * T(s), m, T(0 - c));
    } else {
      TAdd(0 - s, s - c);
      MulAssoc(m, T(0 - s), T(s - c));
      CancelScale(n, m * T(0 - s), T(s - c));
      DivModUnique(n, T(0 - s), m, 0);
    }
  }

  /** Without zero limbs at the low end, less than a limb lies below the radix point. */
  lemma ShortFraction(x: Bf)
    requires Integer(x) && x.Normal()
    ensures x.len * LB() < x.expn + LB()
  {
    var n, s := W(x.tab[..], 0, x.len), LowestExponent(x);
    if s <= 0 - LB() {
      TAdd(0 - s - LB(), LB());
      TLimb();
      DivMod(n, T(0 - s));
      var q := n / T(0 - s);
      MulAssoc(q, T(0 - s - LB()), B);
      WCons(x.tab[..], 0, x.len);
      var h := W(x.tab[..], 1, x.len - 1);
      DivModUnique(n, B, h, x.tab[0]);
      DivModUnique(n, B, q * T(0 - s - LB()), 0);
      assert false;
    }
  }

  /** A finite integer is one or more. */
  lemma PositiveInteger(x: Bf)
    requires Integer(x) && x.Normal()
    ensures x.expn >= 1 && 1 <= Absolute(x) < T(x.expn)
  {
    var c := if FloatAdd.Scale(x) < 0 then FloatAdd.Scale(x) else 0;
    FloatAdd.MagnitudeBounds(x, c);
    IntegerScaled(x, c);
    UnitsBelow(Absolute(x), x.expn, 0 - c);
  }

  lemma UnitsBelow(m: nat, expn: int, k: nat)
    requires expn + k >= 0 && 0 < m * T(k) < T(expn + k)
    ensures expn >= 1 && 1 <= m < T(expn)
  {
    if m < 1 { MulMono(m, 0, T(k)); }
    MulMono(1, m, T(k));
    if expn <= 0 { TMono(expn + k, k); }
    TAdd(expn, k);
    MulCancelLess(m, T(expn), T(k));
  }

  /** The integer that a rounded sum shows. */
  lemma ShownInteger(r: Bf, neg: bool, expn: int, n: nat, s: int, m: nat)
    requires r.Shows(NumFinite(neg, expn, n, s)) && s <= 0 && n == m * T(0 - s)
    ensures Integer(r) && Absolute(r) == m && r.neg == neg
  {
    var t := FloatAdd.Scale(r);
    var c := if t < s then t else s;
    SameScale(W(r.tab[..], 0, r.len), t, n, s, c);
    TAdd(0 - s, s - c);
    MulAssoc(m, T(0 - s), T(s - c));
    ScaledInteger(r, c, m);
  }

  // ------------------------------------------------------------------ adding plus or minus one

  lemma Roomy()
    ensures 8 * LB() + 8 <= B / 16 && B / 16 + B / 16 <= PrecInf() && (B / 16) % LB() == 0
  {
    TheBases();
  }

  /** bf_set_si for one and minus one. */
  method Unit(neg: bool) returns (u: Bf)
    ensures fresh(u) && fresh(u.tab) && u.Normal() && u.neg == neg && u.len == 1 && u.expn == 1
    ensures Integer(u) && Absolute(u) == 1
  {
    u := new Bf();
    u.tab := new Limb[1];
    u.neg := neg;
    u.SetUnit(1);
    TZero();
    ShownInteger(u, neg, 1, 1, 0, 1);
  }

  /** The sum of an integer and a unit, in the units of the addition. */
  lemma UnitSum(x: Bf, u: Bf)
    requires Integer(x) && FloatAdd.Known(x) && Integer(u) && u.Normal() && u.len == 1 && u.expn == 1
    ensures var s := FloatAdd.SumScale(x, u); s <= 0 && FloatAdd.ExactSum(x, u, false) == (IntValue(x) + IntValue(u)) * T(0 - s)
  {
    var s := FloatAdd.SumScale(x, u);
    IntegerScaled(u, s);
    if x.kind == Finite { IntegerScaled(x, s); }
    SignedProducts(Absolute(x), x.neg, Absolute(u), u.neg, T(0 - s));
  }

  lemma SignedProducts(m: int, mNeg: bool, n: int, nNeg: bool, t: int)
    ensures (if mNeg then 0 - m * t else m * t) + (if nNeg then 0 - n * t else n * t) ==
            ((if mNeg then 0 - m else m) + (if nNeg then 0 - n else n)) * t
  {
    var a, b := if mNeg then 0 - m else m, if nNeg then 0 - n else n;
    Distrib(a, b, t);
    Distrib(0, m, t);
    Distrib(0, n, t);
  }

  lemma BitLenAtMost(v: nat, k: nat)
    requires 0 < v < T(k)
    ensures 1 <= BitLen(v) <= k
  {
    BitLenBounds(v);
    if BitLen(v) > k { TMono(k, BitLen(v) - 1); }
  }

  /** The sum has a small exponent, and few enough bits. */
  lemma UnitSumBits(x: Bf, u: Bf, v: nat)
    requires Whole(x) && Integer(u) && u.Normal() && u.len == 1 && u.expn == 1 && v > 0
    requires v <= Absolute(x) + 1
    ensures var s := FloatAdd.SumScale(x, u); var n := v * T(0 - s);
            s <= 0 && n > 0 && BitLen(n) <= PrecInf() && s + BitLen(n) == BitLen(v) >= 1
  {
    var s := FloatAdd.SumScale(x, u);
    Roomy();
    MulMono(1, v, T(0 - s));
    BitLenShift(v, 0 - s);
    TZero();
    TSucc(0);
    if x.kind == Finite {
      PositiveInteger(x);
      ShortFraction(x);
      TSucc(x.expn);
      BitLenAtMost(v, x.expn + 1);
    } else {
      BitLenAtMost(v, 1);
    }
  }

  /** bf_add_si with one or minus one, without rounding. */
  method AddSi(x: Bf, neg: bool) returns (r: Bf)
    requires Whole(x)
    ensures fresh(r) && Holds(r, IntValue(x) + if neg then -1 else 1)
  {
    var u := Unit(neg);
    r := new Bf();
    ghost var e, s, v := UnitFacts(x, u);
    AddExactly(r, x, u, e, s, v);
  }

  /** What an addition leads to. */
  ghost predicate Leads(e: int, s: int, v: int)
  {
    s <= 0 && e == v * T(0 - s) &&
    (v != 0 ==> BitLen(FloatAdd.Abs(v) * T(0 - s)) <= PrecInf() && s + BitLen(FloatAdd.Abs(v) * T(0 - s)) == BitLen(FloatAdd.Abs(v)) >= 1)
  }

  lemma UnitFacts(x: Bf, u: Bf) returns (e: int, s: int, v: int)
    requires Whole(x) && Integer(u) && u.Normal() && u.len == 1 && u.expn == 1 && Absolute(u) == 1
    ensures e == FloatAdd.ExactSum(x, u, false) && s == FloatAdd.SumScale(x, u) && v == IntValue(x) + IntValue(u) && Leads(e, s, v)
  {
    e, s, v := FloatAdd.ExactSum(x, u, false), FloatAdd.SumScale(x, u), IntValue(x) + IntValue(u);
    UnitSum(x, u);
    if v != 0 { UnitSumBits(x, u, FloatAdd.Abs(v)); }
  }

  method AddExactly(r: Bf, x: Bf, u: Bf, ghost e: int, ghost s: int, ghost v: int)
    requires FloatAdd.Known(x) && FloatAdd.Real(x) && FloatAdd.Known(u) && FloatAdd.Real(u) && r != x && r != u
    requires e == FloatAdd.ExactSum(x, u, false) && s == FloatAdd.SumScale(x, u) && Leads(e, s, v)
    modifies r
    ensures Holds(r, v)
  {
    Roomy();
    var st, bad := FloatAdd.AddInternal(r, x, u, ExactFormat(), false);
    SumShown(r, e, s, v, st);
  }

  lemma SumShown(r: Bf, e: int, s: int, v: int, st: Status)
    requires Leads(e, s, v)
    requires if e == 0 then r.kind == Zero && r.len == 0 else FloatAdd.Rounds(r, ExactFormat(), e, s, st)
    ensures Holds(r, v)
  {
    if v != 0 {
      var w := FloatAdd.Abs(v);
      SumSign(v, T(0 - s));
      ExactRound(v < 0, w * T(0 - s), s);
      if InRange(v) { ShownInteger(r, v < 0, BitLen(w), w * T(0 - s), s, w); }
    }
  }

  lemma SumSign(v: int, t: int)
    requires t >= 1 && v != 0
    ensures v * t != 0 && (v * t < 0 <==> v < 0) && FloatAdd.Abs(v * t) == FloatAdd.Abs(v) * t
  {
    if v > 0 { MulMono(1, v, t); } else { MulMono(v, -1, t); }
  }

  // -------------------------------------------------------------------------- bf_logic_op

  /** Every bit of v is the operation on the bits of x and y, in two's complement without
      end. */
  ghost predicate BitsOf(op: Op, x: int, y: int, v: int)
  {
    match op
    case Or => forall k: nat :: IntBit(v, k) <==> IntBit(x, k) || IntBit(y, k)
    case And => forall k: nat :: IntBit(v, k) <==> IntBit(x, k) && IntBit(y, k)
    case Xor => forall k: nat :: IntBit(v, k) <==> (IntBit(x, k) != IntBit(y, k))
  }

  // ------------------------------------------------------------------------ bits and sums

  /** The lowest bit, and the others. */
  lemma BitSteps(x: int, k: nat)
    ensures IntBit(x, 0) == (x % 2 == 1) && IntBit(x / 2, k) == IntBit(x, k + 1)
  {
    TZero();
    TSucc(k);
    var t := T(k);
    DivMod(x, 2 * t);
    var q, r := x / (2 * t), x % (2 * t);
    HalfDiv(x, t, q, r);
  }

  lemma HalfDiv(x: int, t: nat, q: int, r: int)
    requires t >= 1 && x == q * (2 * t) + r && 0 <= r < 2 * t
    ensures (x / 2) / t == q
  {
    MulAssoc(q, 2, t);
    assert x / 2 == q * t + r / 2;
    DivModUnique(x / 2, t, q, r / 2);
  }

  lemma HalvesOf(op: Op, x: int, y: int, v: int)
    requires BitsOf(op, x, y, v)
    ensures BitsOf(op, x / 2, y / 2, v / 2)
  {
    forall k: nat
      ensures IntBit(v / 2, k) == IntBit(v, k + 1) && IntBit(x / 2, k) == IntBit(x, k + 1) && IntBit(y / 2, k) == IntBit(y, k + 1)
    {
      BitSteps(v, k);
      BitSteps(x, k);
      BitSteps(y, k);
    }
  }

  /** The lowest bits of the results. */
  lemma LowestBits(op: Op, x: int, y: int, v: int)
    requires BitsOf(op, x, y, v)
    ensures op.Or? ==> (v % 2 == 1 <==> x % 2 == 1 || y % 2 == 1)
    ensures op.And? ==> (v % 2 == 1 <==> x % 2 == 1 && y % 2 == 1)
    ensures op.Xor? ==> (v % 2 == 1 <==> x % 2 != y % 2)
  {
    BitSteps(v, 0);
    BitSteps(x, 0);
    BitSteps(y, 0);
  }

  ghost function Size(x: int): nat
  {
    if x >= 0 then x else -1 - x
  }

  /** The bits of zero and of minus one. */
  lemma EndBits(x: int, k: nat)
    requires x == 0 || x == -1
    ensures IntBit(x, k) == (x == -1)
  {
    if x == 0 {
      DivModUnique(0, T(k), 0, 0);
    } else {
      DivModUnique(-1, T(k), -1, T(k) - 1);
    }
  }

  /** The results for zero and minus one. */
  lemma EndResult(op: Op, x: int, y: int, v: int)
    requires (x == 0 || x == -1) && (y == 0 || y == -1) && BitsOf(op, x, y, v)
    ensures v == match op case Or => (if x == -1 then x else y) case And => (if x == -1 then y else x) case Xor => (if x == y then 0 else -1)
  {
    var w := match op case Or => (if x == -1 then x else y) case And => (if x == -1 then y else x) case Xor => (if x == y then 0 else -1);
    forall k: nat ensures IntBit(v, k) == IntBit(w, k) {
      EndBits(x, k);
      EndBits(y, k);
      EndBits(w, k);
      assert IntBit(v, k) == OpBit(op, IntBit(x, k), IntBit(y, k));
    }
    IntBitsDetermine(v, w);
  }

  /** Or, and, and exclusive or as arithmetic: what the or counts once the sum counts twice
      where both bits are set. */
  lemma {:induction false} LogicSums(x: int, y: int, u: int, v: int, w: int)
    requires BitsOf(Or, x, y, u) && BitsOf(And, x, y, v) && BitsOf(Xor, x, y, w)
    ensures u + v == x + y && w == u - v
    decreases Size(x) + Size(y)
  {
    if (x == 0 || x == -1) && (y == 0 || y == -1) {
      EndResult(Or, x, y, u);
      EndResult(And, x, y, v);
      EndResult(Xor, x, y, w);
    } else {
      HalvesOf(Or, x, y, u);
      HalvesOf(And, x, y, v);
      HalvesOf(Xor, x, y, w);
      LogicSums(x / 2, y / 2, u / 2, v / 2, w / 2);
      LowestBits(Or, x, y, u);
      LowestBits(And, x, y, v);
      LowestBits(Xor, x, y, w);
    }
  }

  /** The operand of the loop: one is added to a negative number. Minus zero counts as
      positive. */
  method Shifted(x: Bf) returns (a: Bf, sign: bool)
    requires Whole(x)
    ensures (a == x || fresh(a)) && Whole(a) && Value(Absolute(a), sign) == IntValue(x)
  {
    sign := Exponent(x) > 0 && x.neg;
    if x.kind == Finite { PositiveInteger(x); }
    if sign {
      SmallerInRange(x);
      a := AddSi(x, false);
    } else {
      a := x;
    }
  }

  /** Towards zero there is no overflow. */
  lemma SmallerInRange(x: Bf)
    requires Whole(x) && x.kind == Finite && x.neg
    ensures InRange(IntValue(x) + 1)
  {
    PositiveInteger(x);
    if IntValue(x) + 1 != 0 { BitLenAtMost(FloatAdd.Abs(IntValue(x) + 1), x.expn); }
  }

  lemma LengthBound(op: Op, a: int, b: int, aSign: bool, bSign: bool)
    requires a <= B / 16 && b <= B / 16
    ensures Length(op, a, b, aSign, bSign) * LB() <= B / 16
  {
    Roomy();
    var bits :=
      if op.And? && !(aSign && bSign) then
        if !aSign && !bSign then (if a < b then a else b) else if !aSign then a else b
      else if a > b then a else b;
    WholeLimbs(if bits < 1 then 1 else bits);
  }

  /** The largest exponent is a multiple of LIMB_BITS. */
  lemma WholeLimbs(bits: nat)
    requires 1 <= bits <= B / 16
    ensures LimbsFor(bits) * LB() <= B / 16
  {
    Roomy();
    CeilLimbs(bits);
    var l, q := LimbsFor(bits), (B / 16) / LB();
    DivMod(B / 16, LB());
    if l > q {
      MulMono(q + 1, l, LB());
      Distrib(q, 1, LB());
    } else {
      MulMono(l, q, LB());
    }
  }

  lemma ExponentRoom(x: Bf)
    requires Whole(x)
    ensures Exponent(x) <= B / 16
  {
    Roomy();
  }

  /** The limbs of the loop become the number r. */
  method SetLimbs(r: Bf, tab: array<Limb>, l: nat, neg: bool)
    requires 1 <= l <= tab.Length && l * LB() <= B / 16
    modifies r, tab
    ensures Whole(r) && r.neg == neg && Absolute(r) == W(old(tab[..]), 0, l)
  {
    ghost var n := W(tab[..], 0, l);
    r.kind, r.neg, r.expn, r.tab, r.len := Finite, neg, l * LB(), tab, l;
    WBound(tab[..], 0, l);
    TLimbs(l);
    Roomy();
    TZero();
    var st := FloatAdd.NormalizeAndRound(r, ExactFormat());
    if n > 0 {
      BitLenAtMost(n, l * LB());
      ExactRound(neg, n, 0);
      ShownInteger(r, neg, BitLen(n), n, 0, n);
    }
  }

  /** bf_logic_op: the bitwise operation on two integers, v. Only the power of two whose
      exponent is one too large, negative, becomes an infinity. */
  method LogicOperation(r: Bf, a1: Bf, b1: Bf, op: Op) returns (ghost v: int)
    requires r != a1 && r != b1 && Whole(a1) && Whole(b1)
    modifies r
    ensures BitsOf(op, IntValue(a1), IntValue(b1), v) && Holds(r, v) && (InRange(v) || v == 0 - T(B / 16) as int)
  {
    ghost var x, y := IntValue(a1), IntValue(b1);
    var a, aSign := Shifted(a1);
    var b, bSign := Shifted(b1);
    v := Combine(r, a, b, aSign, bSign, op, x, y);
  }

  method Combine(r: Bf, a: Bf, b: Bf, aSign: bool, bSign: bool, op: Op, ghost x: int, ghost y: int) returns (ghost v: int)
    requires Whole(a) && Whole(b) && Value(Absolute(a), aSign) == x && Value(Absolute(b), bSign) == y
    modifies r
    ensures BitsOf(op, x, y, v) && Holds(r, v) && (InRange(v) || v == 0 - T(B / 16) as int)
  {
    var tab, l;
    tab, l, v := LoopLimbs(a, b, aSign, bSign, op, x, y);
    SetResult(r, tab, l, OpBit(op, aSign, bSign), v);
  }

  /** The number that the limbs stand for, one less when it is negative. */
  method SetResult(r: Bf, tab: array<Limb>, l: nat, rSign: bool, ghost v: int)
    requires 1 <= l <= tab.Length && l * LB() <= B / 16 && v == Value(W(tab[..], 0, l), rSign)
    modifies r, tab
    ensures Holds(r, v) && (InRange(v) || v == 0 - T(B / 16) as int)
  {
    WBound(tab[..], 0, l);
    ValueInRange(W(tab[..], 0, l), l, rSign);
    SetLimbs(r, tab, l, rSign);
    if rSign {
      var t := AddSi(r, true);
      r.kind, r.neg, r.expn, r.tab, r.len := t.kind, t.neg, t.expn, t.tab, t.len;
      SameHolds(r, t, v);
    }
  }

  lemma ValueInRange(n: nat, l: nat, sign: bool)
    requires n < P(l) && l * LB() <= B / 16
    ensures var v := Value(n, sign); InRange(v) || v == 0 - T(B / 16) as int
  {
    var v, k := Value(n, sign), B / 16;
    TLimbs(l);
    TMono(l * LB(), k);
    if 0 < FloatAdd.Abs(v) < T(k) { BitLenAtMost(FloatAdd.Abs(v), k); }
  }

  lemma SameHolds(r: Bf, t: Bf, v: int)
    requires Holds(t, v) && r.kind == t.kind && r.neg == t.neg && r.expn == t.expn && r.tab == t.tab && r.len == t.len
    ensures Holds(r, v)
  {}

  /** The loop, and what its limbs stand for. */
  method LoopLimbs(a: Bf, b: Bf, aSign: bool, bSign: bool, op: Op, ghost x: int, ghost y: int) returns (tab: array<Limb>, l: nat, ghost v: int)
    requires Whole(a) && Whole(b) && Value(Absolute(a), aSign) == x && Value(Absolute(b), bSign) == y
    ensures fresh(tab) && 1 <= l == tab.Length && l * LB() <= B / 16
    ensures v == Value(W(tab[..], 0, l), OpBit(op, aSign, bSign)) && BitsOf(op, x, y, v)
  {
    tab, l := LogicLimbs(a, b, aSign, bSign, op);
    v := Value(W(tab[..], 0, l), OpBit(op, aSign, bSign));
    ExponentRoom(a);
    ExponentRoom(b);
    LengthBound(op, Exponent(a), Exponent(b), aSign, bSign);
    forall k: nat ensures IntBit(v, k) == OpBit(op, IntBit(x, k), IntBit(y, k)) {
      LogicCorrect(a, b, aSign, bSign, op, tab[..], l, k);
    }
  }

  /** The bits leave no choice: an integer is determined by them. */
  lemma OneResult(op: Op, x: int, y: int, v: int, w: int)
    requires BitsOf(op, x, y, v) && BitsOf(op, x, y, w)
    ensures v == w
  {
    assert forall k: nat :: IntBit(v, k) == IntBit(w, k);
    IntBitsDetermine(v, w);
  }

  lemma IntBitsDetermine(v: int, w: int)
    requires forall k: nat :: IntBit(v, k) == IntBit(w, k)
    ensures v == w
  {
    var k := HighBitIsSign(v, w);
    assert IntBit(v, k) == IntBit(w, k);
    if v >= 0 {
      BitsDetermine(v, w);
    } else {
      var m, n := -1 - v, -1 - w;
      forall j: nat ensures IntBit(m, j) == IntBit(n, j) {
        Complement(m, j);
        Complement(n, j);
        assert IntBit(v, j) == IntBit(w, j);
      }
      BitsDetermine(m, n);
    }
  }

  /** Far up, the bits are the sign. */
  lemma HighBitIsSign(v: int, w: int) returns (k: nat)
    ensures (IntBit(v, k) <==> v < 0) && (IntBit(w, k) <==> w < 0)
  {
    var m, n := Folded(v), Folded(w);
    k := m + n;
    SelfBelow(m);
    SelfBelow(n);
    TMono(m, k);
    TMono(n, k);
    DivModUnique(m, T(k), 0, m);
    DivModUnique(n, T(k), 0, n);
    Complement(m, k);
    Complement(n, k);
  }

  function Folded(v: int): nat
  {
    if v < 0 then -1 - v else v
  }

  lemma {:induction false} SelfBelow(n: nat)
    ensures n < T(n)
  {
    if n == 0 {
      TZero();
    } else {
      SelfBelow(n - 1);
      TSucc(n - 1);
    }
  }
}
