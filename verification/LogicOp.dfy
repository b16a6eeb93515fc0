/** Bitwise operations on integers of any size (libbf.c, 2304-2406): numbers with a sign
    and a magnitude, results as in two's complement with infinitely many sign bits (section
    6.1.6.2 of ECMA-262). */
module LogicOp {
  import opened Arith
  import opened Limbs
  import opened LimbOps
  import opened Bits
  import opened LimbBits
  import opened Digits
  import opened Float

  datatype Op = Or | Xor | And

  /** The operation on two bits. */
  function OpBit(op: Op, x: bool, y: bool): bool
  {
    match op
    case Or => x || y
    case Xor => x != y
    case And => x && y
  }

  /** Bit k of an integer in two's complement. */
  predicate IntBit(x: int, k: nat)
  {
    (x / T(k)) % 2 == 1
  }

  /** -1 - n has the opposite bits of n. */
  lemma Complement(n: nat, k: nat)
    ensures IntBit(-1 - n, k) == !IntBit(n, k)
  {
    var t := T(k);
    DivMod(n, t);
    var q, r := n / t, n % t;
    Distrib(-1, q, t);
    DivModUnique(-1 - n, t, -1 - q, t - 1 - r);
  }

  function FromBit(b: bool): nat { if b then 1 else 0 }

  /** The operation on n bits. */
  function OpBits(op: Op, x: nat, y: nat, n: nat): (r: nat)
  {
    if n == 0 then 0 else 2 * OpBits(op, x / 2, y / 2, n - 1) + FromBit(OpBit(op, x % 2 == 1, y % 2 == 1))
  }

  lemma {:induction false} OpBitsBound(op: Op, x: nat, y: nat, n: nat)
    ensures OpBits(op, x, y, n) < T(n)
  {
    TZero();
    if n > 0 {
      OpBitsBound(op, x / 2, y / 2, n - 1);
      TSucc(n - 1);
    }
  }

  lemma {:induction false} OpBitsAt(op: Op, x: nat, y: nat, n: nat, j: nat)
    requires j < n
    ensures IntBit(OpBits(op, x, y, n), j) == OpBit(op, IntBit(x, j), IntBit(y, j))
  {
    TZero();
    if j > 0 {
      var r := OpBits(op, x, y, n);
      OpBitsAt(op, x / 2, y / 2, n - 1, j - 1);
      HalfBit(r, j);
      HalfBit(x, j);
      HalfBit(y, j);
      assert r / 2 == OpBits(op, x / 2, y / 2, n - 1);
    }
  }

  lemma HalfBit(x: nat, j: nat)
    requires j > 0
    ensures IntBit(x, j) == IntBit(x / 2, j - 1)
  {
    TZero();
    TSucc(0);
    DivDiv(x, 1, j - 1);
  }

  /** bf_logic_op1 on limbs. */
  function OpLimb(op: Op, x: Limb, y: Limb): nat
  {
    OpBits(op, x, y, LB())
  }

  /** Exclusive or with a mask of equal bits. */
  function Masked(x: Limb, sign: bool): Limb
  {
    if sign then B - 1 - x else x
  }

  lemma MaskedBit(x: Limb, sign: bool, j: nat)
    requires j < LB()
    ensures IntBit(Masked(x, sign), j) == (sign != IntBit(x, j))
  {
    TLimb();
    if sign { FlipBit(x, j, LB()); }
  }

  /** The opposite bits within n bits. */
  lemma FlipBit(x: nat, j: nat, n: nat)
    requires x < T(n) && j < n
    ensures IntBit(T(n) - 1 - x, j) == !IntBit(x, j)
  {
    TAdd(n - j, j);
    TSucc(n - j - 1);
    FlipOdd(x, T(j), T(n - j), T(n - j - 1), T(n));
  }

  lemma FlipOdd(x: nat, t: nat, u: nat, h: nat, m: nat)
    requires t >= 1 && u == 2 * h && m == u * t
    ensures ((m - 1 - x) / t) % 2 == 1 <==> (x / t) % 2 != 1
  {
    FlipDiv(x, t, u);
    FlipParity(x / t, h);
  }

  lemma FlipDiv(x: int, t: int, u: int)
    requires t >= 1 && x >= 0
    ensures (u * t - 1 - x) / t == u - 1 - x / t
  {
    DivMod(x, t);
    var q, r := x / t, x % t;
    Distrib(u, 1 + q, t);
    Distrib(1, q, t);
    DivModUnique(u * t - 1 - x, t, u - 1 - q, t - 1 - r);
  }

  lemma FlipParity(q: int, h: int)
    ensures (2 * h - 1 - q) % 2 == 1 - q % 2
  {}

  /** A bit of a number is a bit of a digit. */
  lemma DigitBit(n: nat, k: nat)
    ensures IntBit(n, k) == IntBit(Digit(n, k / LB()), k % LB())
  {
    var i, j := k / LB(), k % LB();
    BitPosition(k);
    DigitMeans(n, i);
    TLimbs(i);
    DivDiv(n, i * LB(), j);
    LowerLimbBit(n / P(i), j);
  }

  lemma LowerLimbBit(h: nat, j: nat)
    requires j < LB()
    ensures IntBit(h, j) == IntBit(h % B, j)
  {
    DivMod(h, B);
    PZero();
    CutLimb(0, 0, h % B, h / B, j);
    UpperEven((h % B) / T(j), h / B, j);
  }

  // -------------------------------------------------------------------------- operands

  /** An integer operand: zero, or a number without a fraction. */
  ghost predicate Integer(x: Bf)
    reads x, x.tab
  {
    x.len <= x.tab.Length &&
    if x.kind == Zero then x.len == 0
    else x.kind == Finite && 1 <= x.len && (LowestExponent(x) < 0 ==> W(x.tab[..], 0, x.len) % T(0 - LowestExponent(x)) == 0)
  }

  /** The exponent; that of zero, BF_EXP_ZERO, is below all others. */
  function Exponent(x: Bf): int
    reads x
  {
    if x.kind == Zero then 0 - (B / 2) else x.expn
  }

  function LowestExponent(x: Bf): int
    reads x
  {
    Exponent(x) - x.len * LB()
  }

  /** Its magnitude. */
  ghost function Absolute(x: Bf): nat
    reads x, x.tab
    requires Integer(x)
  {
    if x.kind == Zero then 0
    else if LowestExponent(x) >= 0 then W(x.tab[..], 0, x.len) * T(LowestExponent(x))
    else W(x.tab[..], 0, x.len) / T(0 - LowestExponent(x))
  }

  /** Digit i of an operand, read at its bit position. */
  method ReadDigit(x: Bf, i: nat) returns (v: Limb)
    requires Integer(x)
    ensures v == Digit(Absolute(x), i)
  {
    ghost var n := W(x.tab[..], 0, x.len);
    v := GetBits(x.tab, x.len, i * LB() - LowestExponent(x));
    if x.kind == Zero {
      WZero(x.tab[..], 0);
      ZeroBits(i * LB() - LowestExponent(x), v);
      ZeroDigit(i);
    } else if LowestExponent(x) >= 0 {
      BitsAreDigit(n, LowestExponent(x), i, v);
    } else {
      FractionDigit(n, 0 - LowestExponent(x), i, v);
    }
  }

  lemma ZeroBits(pos: int, v: Limb)
    requires IsBits(0, pos, v)
    ensures v == 0
  {}

  lemma ZeroDigit(i: nat)
    ensures Digit(0, i) == 0
  {
    LowAll(0, i);
  }

  lemma FractionDigit(n: nat, f: nat, i: nat, v: Limb)
    requires IsBits(n, i * LB() + f, v)
    ensures v == Digit(n / T(f), i)
  {
    DigitMeans(n / T(f), i);
    TLimbs(i);
    DivDiv(n, f, i * LB());
  }

  /** An integer is below two to its exponent. */
  lemma AbsoluteBelow(x: Bf, l: nat)
    requires Integer(x) && Exponent(x) <= l * LB()
    ensures Absolute(x) < P(l)
  {
    if x.kind == Finite {
      WBound(x.tab[..], 0, x.len);
      TLimbs(x.len);
      TLimbs(l);
      BelowPower(W(x.tab[..], 0, x.len), x.len * LB(), LowestExponent(x), l * LB());
    }
  }

  lemma BelowPower(n: nat, m: nat, s: int, k: nat)
    requires n < T(m) && m + s <= k
    ensures if s >= 0 then n * T(s) < T(k) else n / T(0 - s) < T(k)
  {
    if s >= 0 {
      TAdd(m, s);
      MulStrict(n, T(m), T(s));
      TMono(m + s, k);
    } else {
      var t := T(0 - s);
      DivMod(n, t);
      TAdd(k, 0 - s);
      TMono(m, k - s);
      if n / t >= T(k) { MulMono(T(k), n / t, t); }
    }
  }

  // -------------------------------------------------------------------------- bf_logic_op

  /** The number that a sign and a magnitude stand for, one less when negative: the code adds
      one to negative operands before, and subtracts it from a negative result after. */
  function Value(n: nat, sign: bool): int
  {
    if sign then -1 - n else n
  }

  lemma ValueBit(n: nat, sign: bool, k: nat)
    ensures IntBit(Value(n, sign), k) == (sign != IntBit(n, k))
  {
    Complement(n, k);
  }

  /** The number of limbs computed. For an and without a sign, the shorter operand is
      enough. */
  function Length(op: Op, a: int, b: int, aSign: bool, bSign: bool): (l: nat)
    ensures l >= 1
  {
    var bits :=
      if op.And? && !(aSign && bSign) then
        if !aSign && !bSign then (if a < b then a else b) else if !aSign then a else b
      else if a > b then a else b;
    var m := if bits < 1 then 1 else bits;
    LimbsFor(m)
  }

  function LimbsFor(m: nat): (l: nat)
    requires m >= 1
    ensures l >= 1
  {
    var l := (m + LB() - 1) / LB();
    if l < 1 then 1 else l
  }

  lemma LimbsEnough(m: nat)
    requires m >= 1
    ensures m <= LimbsFor(m) * LB() && LimbsFor(m) == (m + LB() - 1) / LB()
  {
    CeilLimbs(m);
  }

  /** What the limbs of the result are. */
  ghost predicate ResultLimbs(s: seq<Limb>, l: nat, op: Op, a: nat, b: nat, aSign: bool, bSign: bool)
  {
    l <= |s| && forall i :: 0 <= i < l ==>
      s[i] == Masked(OpResult(op, Masked(Digit(a, i), aSign), Masked(Digit(b, i), bSign)), OpBit(op, aSign, bSign))
  }

  function OpResult(op: Op, x: Limb, y: Limb): (r: Limb)
  {
    OpBitsBound(op, x, y, LB());
    TLimb();
    OpLimb(op, x, y)
  }

  /** The loop over the limbs of the result; the operands are the magnitudes, decreased by
      one where the sign is negative. */
  method LogicLimbs(a: Bf, b: Bf, aSign: bool, bSign: bool, op: Op) returns (tab: array<Limb>, l: nat)
    requires Integer(a) && Integer(b)
    ensures fresh(tab) && tab.Length == l == Length(op, Exponent(a), Exponent(b), aSign, bSign)
    ensures ResultLimbs(tab[..], l, op, Absolute(a), Absolute(b), aSign, bSign)
  {
    var rSign := OpBit(op, aSign, bSign);
    l := Length(op, Exponent(a), Exponent(b), aSign, bSign);
    tab := new Limb[l];
    var i := 0;
    while i < l
      invariant 0 <= i <= l && ResultLimbs(tab[..], i, op, Absolute(a), Absolute(b), aSign, bSign)
    {
      var v := LogicLimb(a, b, aSign, bSign, op, rSign, i);
      tab[i] := v;
      i := i + 1;
    }
  }

  /** One limb of the result. */
  method LogicLimb(a: Bf, b: Bf, aSign: bool, bSign: bool, op: Op, rSign: bool, i: nat) returns (v: Limb)
    requires Integer(a) && Integer(b)
    ensures v == Masked(OpResult(op, Masked(Digit(Absolute(a), i), aSign), Masked(Digit(Absolute(b), i), bSign)), rSign)
  {
    var v1 := ReadDigit(a, i);
    var v2 := ReadDigit(b, i);
    v := Masked(OpResult(op, Masked(v1, aSign), Masked(v2, bSign)), rSign);
  }

  /** The limbs below l have the right bits. */
  lemma LowBits(s: seq<Limb>, l: nat, op: Op, a: nat, b: nat, aSign: bool, bSign: bool, k: nat)
    requires ResultLimbs(s, l, op, a, b, aSign, bSign) && k / LB() < l
    ensures IntBit(Value(W(s, 0, l), OpBit(op, aSign, bSign)), k) == OpBit(op, IntBit(Value(a, aSign), k), IntBit(Value(b, bSign), k))
  {
    var i, j, rSign := k / LB(), k % LB(), OpBit(op, aSign, bSign);
    DivMod(k, LB());
    ValueBit(W(s, 0, l), rSign, k);
    ValueBit(a, aSign, k);
    ValueBit(b, bSign, k);
    DigitBit(W(s, 0, l), k);
    DigitBit(a, k);
    DigitBit(b, k);
    DigitOfRow(s, l, i);
    var v1, v2 := Masked(Digit(a, i), aSign), Masked(Digit(b, i), bSign);
    MaskedBit(OpResult(op, v1, v2), rSign, j);
    OpBitsAt(op, v1, v2, LB(), j);
    MaskedBit(Digit(a, i), aSign, j);
    MaskedBit(Digit(b, i), bSign, j);
  }

  /** Above bit position k a small number has no bits. */
  lemma NoHighBit(n: nat, l: nat, k: nat)
    requires n < P(l) && k / LB() >= l
    ensures !IntBit(n, k)
  {
    DivMod(k, LB());
    MulMono(l, k / LB(), LB());
    TLimbs(l);
    NoBit(n, l * LB(), k);
  }

  /** Above the limbs that are computed the sign says it all. */
  lemma HighBits(s: seq<Limb>, l: nat, op: Op, a: nat, b: nat, aSign: bool, bSign: bool, k: nat)
    requires l <= |s| && k / LB() >= l
    requires if op.And? && !(aSign && bSign) then (!aSign && a < P(l)) || (!bSign && b < P(l)) else a < P(l) && b < P(l)
    ensures IntBit(Value(W(s, 0, l), OpBit(op, aSign, bSign)), k) == OpBit(op, IntBit(Value(a, aSign), k), IntBit(Value(b, bSign), k))
  {
    ValueBit(W(s, 0, l), OpBit(op, aSign, bSign), k);
    ValueBit(a, aSign, k);
    ValueBit(b, bSign, k);
    WBound(s, 0, l);
    NoHighBit(W(s, 0, l), l, k);
    if a < P(l) { NoHighBit(a, l, k); }
    if b < P(l) { NoHighBit(b, l, k); }
  }

  /** Every bit of the result is the operation on the bits of the operands, in two's
      complement without end. */
  lemma LogicCorrect(a: Bf, b: Bf, aSign: bool, bSign: bool, op: Op, s: seq<Limb>, l: nat, k: nat)
    requires Integer(a) && Integer(b) && l == Length(op, Exponent(a), Exponent(b), aSign, bSign)
    requires ResultLimbs(s, l, op, Absolute(a), Absolute(b), aSign, bSign)
    ensures IntBit(Value(W(s, 0, l), OpBit(op, aSign, bSign)), k) ==
            OpBit(op, IntBit(Value(Absolute(a), aSign), k), IntBit(Value(Absolute(b), bSign), k))
  {
    if k / LB() < l {
      LowBits(s, l, op, Absolute(a), Absolute(b), aSign, bSign, k);
    } else {
      LengthEnough(op, Exponent(a), Exponent(b), aSign, bSign);
      if Exponent(a) <= l * LB() { AbsoluteBelow(a, l); }
      if Exponent(b) <= l * LB() { AbsoluteBelow(b, l); }
      HighBits(s, l, op, Absolute(a), Absolute(b), aSign, bSign, k);
    }
  }

  lemma LengthEnough(op: Op, a: int, b: int, aSign: bool, bSign: bool)
    ensures var l := Length(op, a, b, aSign, bSign);
            if op.And? && !(aSign && bSign) then (!aSign && a <= l * LB()) || (!bSign && b <= l * LB()) else a <= l * LB() && b <= l * LB()
  {
    var bits :=
      if op.And? && !(aSign && bSign) then
        if !aSign && !bSign then (if a < b then a else b) else if !aSign then a else b
      else if a > b then a else b;
    LimbsEnough(if bits < 1 then 1 else bits);
  }

  /** Numbers are equal if all their bits are. */
  lemma {:induction false} BitsDetermine(x: nat, y: nat)
    requires forall k: nat :: IntBit(x, k) == IntBit(y, k)
    ensures x == y
    decreases x
  {
    TZero();
    assert IntBit(x, 0) == IntBit(y, 0);
    if x > 0 {
      forall k: nat ensures IntBit(x / 2, k) == IntBit(y / 2, k) {
        HalfBit(x, k + 1);
        HalfBit(y, k + 1);
        assert IntBit(x, k + 1) == IntBit(y, k + 1);
      }
      BitsDetermine(x / 2, y / 2);
    } else if y > 0 {
      BitLenBounds(y);
      TopBitSet(y, BitLen(y) - 1);
    }
  }

  lemma TopBitSet(y: nat, k: nat)
    requires T(k) <= y < T(k + 1)
    ensures IntBit(y, k) && !IntBit(0, k)
  {
    TSucc(k);
    DivModUnique(y, T(k), 1, y - T(k));
  }
}
