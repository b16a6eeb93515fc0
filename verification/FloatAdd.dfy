/** Addition and subtraction of numbers (libbf.c, 591-627, 736-760, 868-1010). */
module FloatAdd {
  import opened Hints
  import opened Arith
  import opened Limbs
  import opened LimbOps
  import opened Bits
  import opened LimbBits
  import opened RoundSpec
  import opened Float
  import opened RoundScale
  import opened Digits
  import opened AddLoops
  import opened Cancel

  // -------------------------------------------------------------- bf_normalize_and_round

  /** The invariant of the left shift: the bits pushed out of limb i - 1 are still to be
      added. */
  ghost predicate Shifted(r: seq<Limb>, s: seq<Limb>, i: nat, shift: nat, out: nat)
  {
    i <= |r| == |s| && forall t :: AskFor(Subject.LeftShifts, t) ==> W(r, 0, i) + out * P(i) == W(s, 0, i) * T(shift)
  }

  lemma ShiftLimb(x: Limb, v: Limb, shift: nat)
    requires 0 < shift < LB()
    ensures var u := T(LB() - shift);
            x * T(shift) == (x * T(shift)) % B + (x / u) * B && (x * T(shift)) % B + v / u < B && v / u >= 0
  {
    var t, u := T(shift), T(LB() - shift);
    TLimb();
    TAdd(shift, LB() - shift);
    DivMod(x, u);
    DivMod(v, u);
    var q, r := x / u, x % u;
    assert x * t == q * B + r * t by {
      Distrib(q * u, r, t);
      MulAssoc(q, u, t);
      MulComm(u, t);
    }
    MulMono(r, u - 1, t);
    Distrib(u, 1, t);
    MulComm(u, t);
    MulNonNeg(r, t);
    DivModUnique(x * t, B, q, r * t);
    HighPart(v, u, t);
  }

  lemma ShiftStep(r: seq<Limb>, r1: seq<Limb>, s: seq<Limb>, i: nat, shift: nat, out: nat, x: Limb, out1: nat)
    requires Shifted(r, s, i, shift, out) && i < |r| && r1 == r[i := x] && s[i] * T(shift) + out == x + out1 * B
    ensures Shifted(r1, s, i + 1, shift, out1)
  {
    assert AskFor(Subject.LeftShifts, 0);
    assert r1[0..0 + i] == r[0..0 + i];
    WSnoc(r1, 0, i);
    WSnoc(s, 0, i);
    PSucc(i);
    var p, t := P(i), T(shift);
    Distrib(W(s, 0, i), s[i] * p, t);
    MulComm(s[i], p);
    MulAssoc(p, s[i], t);
    MulComm(p, s[i] * t);
    Distrib(s[i] * t, out, p);
    Distrib(x, out1 * B, p);
    MulAssoc(out1, B, p);
  }

  /** One limb: the bits of a shifted left, and those pushed out of v below it. */
  method ShiftOne(a: Limb, v: Limb, shift: nat, ghost out: nat) returns (x: Limb, ghost out1: nat)
    requires 0 < shift < LB() && out == v / T(LB() - shift)
    ensures a * T(shift) + out == x + out1 * B && out1 == a / T(LB() - shift)
  {
    ShiftLimb(a, v, shift);
    x := (a * T(shift)) % B + v / T(LB() - shift);
    out1 := a / T(LB() - shift);
  }

  /** The mantissa is shifted left, with no bits lost. */
  method ShiftLeft(tab: array<Limb>, l: nat, shift: nat)
    requires 1 <= l <= tab.Length && 0 < shift < LB() && tab[l - 1] * T(shift) < B
    modifies tab
    ensures W(tab[..], 0, l) == W(old(tab[..]), 0, l) * T(shift)
  {
    ghost var s := tab[..];
    var v: Limb := 0;
    WZero(s, 0);
    var i := 0;
    ghost var out := 0;
    while i < l
      invariant 0 <= i <= l && Shifted(tab[..], s, i, shift, out) && out == v / T(LB() - shift)
      invariant forall j :: i <= j < l ==> tab[j] == s[j]
      invariant v == if i == 0 then 0 else s[i - 1]
    {
      var a := tab[i];
      ghost var r, before := tab[..], out;
      var x;
      x, out := ShiftOne(a, v, shift, out);
      tab[i] := x;
      ShiftStep(r, tab[..], s, i, shift, before, x, out);
      v := a;
      i := i + 1;
    }
    ShiftDone(tab[..], s, l, shift, out);
  }

  lemma ShiftDone(r: seq<Limb>, s: seq<Limb>, l: nat, shift: nat, out: nat)
    requires 1 <= l <= |r| && Shifted(r, s, l, shift, out) && shift < LB() && s[l - 1] * T(shift) < B && out == s[l - 1] / T(LB() - shift)
    ensures W(r, 0, l) == W(s, 0, l) * T(shift)
  {
    TopOut(s[l - 1], shift);
    assert AskFor(Subject.LeftShifts, 0);
  }

  lemma TopOut(x: Limb, shift: nat)
    requires shift < LB() && x * T(shift) < B
    ensures x / T(LB() - shift) == 0
  {
    TLimb();
    TAdd(LB() - shift, shift);
    MulCancelLess(x, T(LB() - shift), T(shift));
    DivModUnique(x, T(LB() - shift), 0, x);
  }

  /** clz is the shift that normalizes. */
  lemma ClzNormalizes(x: Limb)
    requires x > 0
    ensures 0 <= Clz(x) < LB() && B / 2 <= x * T(Clz(x)) < B
  {
    ClzRange(x);
    BitLenBounds(x);
    var n := BitLen(x);
    TLimb();
    TAdd(n, LB() - n);
    TAdd(n - 1, LB() - n);
    TSucc(LB() - 1);
    HalfBase();
    MulMono(T(n - 1), x, T(LB() - n));
    MulStrict(x, T(n), T(LB() - n));
  }

  lemma ShowsSame(r: Bf, a: Number, b: Number)
    requires r.Shows(a) && SameNumber(a, b)
    ensures r.Shows(b)
  {
    if a.NumFinite? {
      SameTrans(W(r.tab[..], 0, r.len), r.expn - r.len * LB(), a.m, a.s, b.m, b.s);
    }
  }

  /** Limbs that are not zero at the top. */
  method TopLimb(tab: array<Limb>, len: nat) returns (l: nat)
    requires len <= tab.Length
    ensures l <= len && (l > 0 ==> tab[l - 1] > 0) && W(tab[..], 0, l) == W(tab[..], 0, len)
  {
    l := len;
    while l > 0 && tab[l - 1] == 0
      invariant 0 <= l <= len && W(tab[..], 0, l) == W(tab[..], 0, len)
    {
      WSnoc(tab[..], 0, l - 1);
      l := l - 1;
    }
  }

  /** bf_normalize_and_round: the correctly rounded value of the mantissa, or zero. */
  method NormalizeAndRound(r: Bf, f: Format) returns (st: Status)
    requires r.kind == Finite && r.len <= r.tab.Length && f.prec >= 1
    modifies r, r.tab
    ensures r.neg == old(r.neg) && (fresh(r.tab) || r.tab == old(r.tab))
    ensures var n, e := W(old(r.tab[..]), 0, old(r.len)), old(r.expn) - old(r.len) * LB();
            if n == 0 then r.kind == Zero && r.len == 0 && st == Status(false, false, false)
            else var o := RoundOutcome(f, r.neg, n, e, false); r.Shows(o.num) && st == o.status
  {
    ghost var n, e := W(r.tab[..], 0, r.len), r.expn - r.len * LB();
    var l := TopLimb(r.tab, r.len);
    if l == 0 {
      WZero(r.tab[..], 0);
      r.kind, r.len := Zero, 0;
      return Status(false, false, false);
    }
    NonZeroTop(r.tab[..], l);
    var shift := Normalize(r, l);
    RoundScaled(f, r.neg, n, e, shift, false);
    st := r.Round(l, f, false);
    ShowsSame(r, RoundOutcome(f, r.neg, n * T(shift), e - shift, false).num, RoundOutcome(f, r.neg, n, e, false).num);
  }

  /** The top bit of the mantissa is moved to the top of limb l - 1. */
  method Normalize(r: Bf, l: nat) returns (shift: nat)
    requires 1 <= l <= r.len <= r.tab.Length && r.tab[l - 1] > 0
    modifies r`expn, r.tab
    ensures r.tab[l - 1] >= B / 2 && W(r.tab[..], 0, l) == W(old(r.tab[..]), 0, l) * T(shift)
    ensures r.expn - l * LB() == old(r.expn) - r.len * LB() - shift
  {
    ghost var s := r.tab[..];
    Distrib(r.len, l, LB());
    r.expn := r.expn - (r.len - l) * LB();
    ClzNormalizes(r.tab[l - 1]);
    shift := Clz(r.tab[l - 1]);
    TZero();
    if shift != 0 {
      ShiftLeft(r.tab, l, shift);
      r.expn := r.expn - shift;
    }
    ShiftedTop(s, r.tab[..], l, shift);
  }

  lemma ShiftedTop(s: seq<Limb>, t: seq<Limb>, l: nat, shift: nat)
    requires 1 <= l <= |s| == |t| && W(t, 0, l) == W(s, 0, l) * T(shift) && s[l - 1] * T(shift) >= B / 2
    ensures t[l - 1] >= B / 2
  {
    WSnoc(s, 0, l - 1);
    TopTimes(s[l - 1], P(l - 1), T(shift), W(s, 0, l), B / 2);
    ValTop(t[0..0 + l], B / 2);
  }

  lemma TopTimes(x: nat, p: nat, u: nat, w: nat, h: nat)
    requires w >= x * p && x * u >= h
    ensures w * u >= h * p
  {
    MulMono(x * p, w, u);
    MulMono(h, x * u, p);
    MulAssoc(x, p, u);
    MulComm(p, u);
    MulAssoc(x, u, p);
  }

  lemma NonZeroTop(s: seq<Limb>, l: nat)
    requires 1 <= l <= |s| && s[l - 1] > 0
    ensures W(s, 0, l) > 0
  {
    WSnoc(s, 0, l - 1);
    MulMono(1, s[l - 1], P(l - 1));
  }

  // ------------------------------------------------------------------------- operands

  /** A finite number that is not zero: its mantissa is normalized. */
  ghost predicate Operand(x: Bf)
    reads x, x.tab
  {
    x.kind == Finite && 1 <= x.len <= x.tab.Length && x.tab[x.len - 1] >= B / 2
  }

  /** The mantissa as an integer, and the exponent that belongs to it. */
  ghost function Mant(x: Bf): nat
    reads x, x.tab
    requires x.len <= x.tab.Length
  {
    W(x.tab[..], 0, x.len)
  }

  function Scale(x: Bf): int
    reads x
  {
    x.expn - x.len * LB()
  }

  /** The magnitude in units of 2^c. */
  ghost function Magnitude(x: Bf, c: int): nat
    reads x, x.tab
    requires x.len <= x.tab.Length && c <= Scale(x)
  {
    Mant(x) * T(Scale(x) - c)
  }

  /** The magnitude is in [2^(expn - 1), 2^expn). */
  lemma MagnitudeBounds(x: Bf, c: int)
    requires Operand(x) && c <= Scale(x)
    ensures x.expn - 1 >= c && T(x.expn - 1 - c) <= Magnitude(x, c) < T(x.expn - c)
  {
    NormalBits(x.tab[..], x.len);
    WBound(x.tab[..], 0, x.len);
    TLimbs(x.len);
    MulMono(1, x.len, LB());
    var k := Scale(x) - c;
    TAdd(x.len * LB() - 1, k);
    TAdd(x.len * LB(), k);
    MulMono(T(x.len * LB() - 1), Mant(x), T(k));
    MulStrict(Mant(x), T(x.len * LB()), T(k));
  }

  lemma ScaleChange(x: Bf, c: int, c1: int)
    requires x.len <= x.tab.Length && c1 <= c <= Scale(x)
    ensures Magnitude(x, c1) == Magnitude(x, c) * T(c - c1)
  {
    TAdd(Scale(x) - c, c - c1);
    MulAssoc(Mant(x), T(Scale(x) - c), T(c - c1));
  }

  /** Aligned in tot limbs, the operands are their magnitudes in units of the last digit. */
  lemma AlignedValues(x: Bf, y: Bf, tot: nat)
    requires Operand(x) && Operand(y) && y.expn <= x.expn && Aligned(x.len, y.len, x.expn - y.expn, tot)
    ensures var c := x.expn - tot * LB();
            c <= Scale(x) && c <= Scale(y) && First(Mant(x), x.len, tot) == Magnitude(x, c) &&
            Other(Mant(y), y.len, x.expn - y.expn, tot) == Magnitude(y, c)
  {
    Distrib(tot, x.len, LB());
    Distrib(tot, y.len, LB());
    MulMono(x.len, tot, LB());
    TLimbs(tot - x.len);
  }

  // -------------------------------------------------------------------------- bf_cmpu

  /** The first digit that differs decides. */
  lemma DigitDecides(a: nat, n: nat, tot: nat, j: nat)
    requires j < tot && Prefix(a, tot, j) == Prefix(n, tot, j) && TopDigit(a, tot, j) > TopDigit(n, tot, j)
    ensures a > n
  {
    PrefixStep(a, tot, j);
    PrefixStep(n, tot, j);
    if a <= n { DivOrder(a, n, P(tot - j - 1)); }
  }

  function Smaller(i: int, j: int): int
  {
    if i < j then i else j
  }

  /** bf_cmpu on finite numbers: the order of the magnitudes. */
  method CmpU(x: Bf, y: Bf) returns (c: int)
    requires Operand(x) && Operand(y)
    ensures var s := Smaller(Scale(x), Scale(y));
            (c < 0 <==> Magnitude(x, s) < Magnitude(y, s)) && (c == 0 <==> Magnitude(x, s) == Magnitude(y, s)) &&
            (c == 0 ==> x.expn == y.expn) && (c > 0 ==> x.expn >= y.expn) && (c < 0 ==> x.expn <= y.expn)
  {
    ghost var s := Smaller(Scale(x), Scale(y));
    if x.expn != y.expn {
      MagnitudeBounds(x, s);
      MagnitudeBounds(y, s);
      if x.expn < y.expn {
        TMono(x.expn - s, y.expn - 1 - s);
        return -1;
      } else {
        TMono(y.expn - s, x.expn - 1 - s);
        return 1;
      }
    }
    c := CmpDigits(x, y);
  }

  method CmpDigits(x: Bf, y: Bf) returns (c: int)
    requires Operand(x) && Operand(y) && x.expn == y.expn
    ensures var s := Smaller(Scale(x), Scale(y));
            (c < 0 <==> Magnitude(x, s) < Magnitude(y, s)) && (c == 0 <==> Magnitude(x, s) == Magnitude(y, s))
  {
    var len := if x.len > y.len then x.len else y.len;
    ghost var a, n := First(Mant(x), x.len, len), First(Mant(y), y.len, len);
    SameTop(x, y, len);
    PrefixStart(a, len);
    PrefixStart(n, len);
    var j := 0;
    while j < len
      invariant 0 <= j <= len && Prefix(a, len, j) == Prefix(n, len, j)
    {
      var v1 := TopFirst(x.tab, x.len, len, j);
      var v2 := TopFirst(y.tab, y.len, len, j);
      if v1 != v2 {
        if v1 < v2 {
          DigitDecides(n, a, len, j);
          return -1;
        } else {
          DigitDecides(a, n, len, j);
          return 1;
        }
      }
      PrefixStep(a, len, j);
      PrefixStep(n, len, j);
      j := j + 1;
    }
    c := 0;
  }

  lemma SameTop(x: Bf, y: Bf, len: nat)
    requires Operand(x) && Operand(y) && x.expn == y.expn && len == if x.len > y.len then x.len else y.len
    ensures var s := Smaller(Scale(x), Scale(y)); var a, n := First(Mant(x), x.len, len), First(Mant(y), y.len, len);
            a == Magnitude(x, s) && n == Magnitude(y, s) && a < P(len) && n < P(len)
  {
    WBound(x.tab[..], 0, x.len);
    WBound(y.tab[..], 0, y.len);
    Distrib(len, x.len, LB());
    Distrib(len, y.len, LB());
    MulMono(x.len, len, LB());
    MulMono(y.len, len, LB());
    TLimbs(len - x.len);
    TLimbs(len - y.len);
    PAdd(x.len, len - x.len);
    PAdd(y.len, len - y.len);
    MulStrict(Mant(x), P(x.len), P(len - x.len));
    MulStrict(Mant(y), P(y.len), P(len - y.len));
  }

  // ------------------------------------------------------------------ how long the sum is

  /** s has its leading bit at position cancelled or before it. */
  ghost predicate Big(s: nat, tot: nat, cancelled: nat)
  {
    s * T(cancelled + 1) >= P(tot)
  }

  /** The upper part of a big number has enough bits for rounding. */
  lemma UpperBits(s: nat, hi: nat, lo: nat, tot: nat, k: nat, cancelled: nat, prec: nat)
    requires Big(s, tot, cancelled) && k <= tot && s == hi * P(k) + lo && lo < P(k)
    requires (tot - k) * LB() >= cancelled + prec + 2
    ensures hi > 0 && BitLen(hi) >= prec + 2
  {
    var m := tot * LB() - cancelled - 1;
    Distrib(tot, k, LB());
    TLimbs(tot);
    TLimbs(k);
    TAdd(m, cancelled + 1);
    MulCancelLeq(T(m), s, T(cancelled + 1));
    var h := m - k * LB();
    TAdd(h, k * LB());
    AboveQuotient(hi, lo, P(k), T(h));
    BitLenBounds(hi);
    if BitLen(hi) <= h { TMono(BitLen(hi), h); }
  }

  lemma AboveQuotient(hi: nat, lo: nat, p: nat, t: nat)
    requires lo < p && hi * p + lo >= t * p && t >= 1
    ensures hi >= t
  {
    if hi < t { MulMono(hi + 1, t, p); Distrib(hi, 1, p); }
  }

  /** An addition keeps the leading bit of the first operand. */
  lemma SumBig(x: Bf, tot: nat, s: nat)
    requires Operand(x) && x.len <= tot && x.expn - tot * LB() <= Scale(x) && s >= Magnitude(x, x.expn - tot * LB())
    ensures Big(s, tot, 0) && s > 0
  {
    MagnitudeBounds(x, x.expn - tot * LB());
    TLimbs(tot);
    TSucc(tot * LB() - 1);
    TZero();
    TSucc(0);
  }

  /** A subtrahend at least two bits shorter cancels at most one bit. */
  lemma FarBig(x: Bf, y: Bf, tot: nat)
    requires Operand(x) && Operand(y) && x.expn >= y.expn + 2
    requires var c := x.expn - tot * LB(); c <= Scale(x) && c <= Scale(y)
    ensures var c := x.expn - tot * LB(); Magnitude(y, c) < Magnitude(x, c) && Big(Magnitude(x, c) - Magnitude(y, c), tot, 1)
  {
    var c := x.expn - tot * LB();
    MagnitudeBounds(x, c);
    MagnitudeBounds(y, c);
    TMono(y.expn - c, x.expn - 2 - c);
    TSucc(x.expn - 2 - c);
    TSucc(x.expn - 1 - c);
    TLimbs(tot);
    TZero();
    TSucc(0);
    TSucc(1);
  }

  // -------------------------------------------------------------------- bf_add_internal

  /** The exact sum or difference of the magnitudes in units of 2^c. */
  ghost function Exactly(x: Bf, y: Bf, sub: bool, c: int): int
    reads x, x.tab, y, y.tab
    requires x.len <= x.tab.Length && y.len <= y.tab.Length && c <= Scale(x) && c <= Scale(y)
  {
    if sub then Magnitude(x, c) - Magnitude(y, c) else Magnitude(x, c) + Magnitude(y, c)
  }

  /** The number of limbs that hold d bits. */
  function LimbCount(d: nat): (q: nat)
    ensures q == (d + LB() - 1) / LB()
  {
    CeilBits(d);
    (d + LB() - 1) / LB()
  }

  function Wider(i: nat, j: nat): nat
  {
    if i > j then i else j
  }

  lemma CeilBits(d: nat)
    ensures var q := (d + LB() - 1) / LB(); d <= q * LB() < d + LB() && q >= 0
  {
    DivMod(d + LB() - 1, LB());
    var q := (d + LB() - 1) / LB();
    if q < 0 { MulMono(q, -1, LB()); }
  }

  /** The difference of the exponents. */
  function Gap(x: Bf, y: Bf): nat
    reads x, y
  {
    if x.expn < y.expn then 0 else x.expn - y.expn
  }

  /** The numbers of limbs: all, and those that are computed. */
  ghost predicate Shape(xlen: nat, ylen: nat, d: nat, sub: bool, f: Format, tot: nat, rlen: nat, cancelled: nat)
  {
    1 <= rlen <= tot && forall t :: AskFor(Subject.SumShapes, t) ==>
      tot == Wider(xlen, ylen + LimbCount(d)) && rlen == Smaller(LimbCount(cancelled + f.prec + 2), tot) &&
      (!sub ==> cancelled == 0) && (rlen < tot ==> rlen * LB() >= cancelled + f.prec + 2)
  }

  lemma ShapeMeans(xlen: nat, ylen: nat, d: nat, sub: bool, f: Format, tot: nat, rlen: nat, cancelled: nat)
    requires Shape(xlen, ylen, d, sub, f, tot, rlen, cancelled)
    ensures tot == Wider(xlen, ylen + LimbCount(d)) && rlen == Smaller(LimbCount(cancelled + f.prec + 2), tot)
    ensures (!sub ==> cancelled == 0) && (rlen < tot ==> rlen * LB() >= cancelled + f.prec + 2)
  {
    assert AskFor(Subject.SumShapes, 0);
  }

  /** The number of limbs that are computed. */
  method ComputedLimbs(ghost xlen: nat, ghost ylen: nat, ghost d: nat, ghost sub: bool, f: Format, tot: nat, cancelled: nat) returns (rlen: nat)
    requires tot == Wider(xlen, ylen + LimbCount(d)) && tot >= 1 && (!sub ==> cancelled == 0)
    ensures Shape(xlen, ylen, d, sub, f, tot, rlen, cancelled)
  {
    rlen := LimbCount(cancelled + f.prec + 2);
    LongEnough(cancelled + f.prec + 2);
    if rlen > tot { rlen := tot; }
  }

  /** How many limbs the exact result has, and how many are computed: all of them, or at
      least two bits more than the precision after the leading zeros. */
  method Lengths(x: Bf, y: Bf, sub: bool, f: Format) returns (tot: nat, rlen: nat, ghost cancelled: nat)
    requires Operand(x) && Operand(y) && y.expn <= x.expn
    requires var s := Smaller(Scale(x), Scale(y)); sub ==> Magnitude(y, s) < Magnitude(x, s)
    ensures Aligned(x.len, y.len, x.expn - y.expn, tot) && Shape(x.len, y.len, Gap(x, y), sub, f, tot, rlen, cancelled)
    ensures var c := x.expn - tot * LB(); c <= Scale(x) && c <= Scale(y) && Exactly(x, y, sub, c) > 0 && Big(Exactly(x, y, sub, c), tot, cancelled)
  {
    tot := Wider(x.len, y.len + LimbCount(x.expn - y.expn));
    WideEnough(x.len, y.len, x.expn - y.expn);
    AlignedValues(x, y, tot);
    var lost := CancelledBits(x, y, sub, tot);
    cancelled := lost;
    rlen := ComputedLimbs(x.len, y.len, x.expn - y.expn, sub, f, tot, lost);
  }

  lemma WideEnough(xlen: nat, ylen: nat, d: nat)
    requires xlen >= 1 && ylen >= 1
    ensures Aligned(xlen, ylen, d, Wider(xlen, ylen + LimbCount(d)))
  {
    CeilBits(d);
    Distrib(ylen, LimbCount(d), LB());
    MulMono(ylen + LimbCount(d), Wider(xlen, ylen + LimbCount(d)), LB());
  }

  lemma LongEnough(bits: nat)
    requires bits >= 1
    ensures LimbCount(bits) >= 1 && LimbCount(bits) * LB() >= bits
  {
    CeilBits(bits);
    if LimbCount(bits) < 1 { MulMono(LimbCount(bits), 0, LB()); }
  }

  /** The number of leading bits that may cancel. */
  method CancelledBits(x: Bf, y: Bf, sub: bool, ghost tot: nat) returns (lost: nat)
    requires Operand(x) && Operand(y) && y.expn <= x.expn && Aligned(x.len, y.len, x.expn - y.expn, tot)
    requires var s := Smaller(Scale(x), Scale(y)); sub ==> Magnitude(y, s) < Magnitude(x, s)
    requires x.expn - tot * LB() <= Scale(x) && x.expn - tot * LB() <= Scale(y)
    ensures var e := Exactly(x, y, sub, x.expn - tot * LB()); e > 0 && Big(e, tot, lost)
    ensures !sub ==> lost == 0
  {
    ghost var c := x.expn - tot * LB();
    ghost var s := Smaller(Scale(x), Scale(y));
    AlignedValues(x, y, tot);
    if !sub {
      lost := 0;
      SumBig(x, tot, Magnitude(x, c) + Magnitude(y, c));
    } else {
      ScaleChange(x, s, c);
      ScaleChange(y, s, c);
      MulStrict(Magnitude(y, s), Magnitude(x, s), T(s - c));
      if x.expn - y.expn <= 1 {
        lost := CountCancelled(x.tab, x.len, y.tab, y.len, x.expn - y.expn, tot);
      } else {
        lost := 1;
        FarBig(x, y, tot);
      }
    }
  }

  /** The digits of the result: the upper part of the exact sum, its lowest bit set if the
      rest is not zero; a carry goes into one more limb. */
  method SumLimbs(x: Bf, y: Bf, sub: bool, tot: nat, rlen: nat) returns (tab: array<Limb>, len: nat, ghost hi: nat, ghost lo: nat)
    requires Operand(x) && Operand(y) && y.expn <= x.expn && Aligned(x.len, y.len, x.expn - y.expn, tot) && 1 <= rlen <= tot
    requires var c := x.expn - tot * LB(); c <= Scale(x) && c <= Scale(y) && Exactly(x, y, sub, c) >= 0
    ensures fresh(tab) && rlen <= len <= rlen + 1 && len <= tab.Length
    ensures lo < P(tot - rlen) && Exactly(x, y, sub, x.expn - tot * LB()) == hi * P(tot - rlen) + lo
    ensures W(tab[..], 0, len) == WithSticky(hi, lo != 0)
  {
    var d := x.expn - y.expn;
    ghost var a, n := First(Mant(x), x.len, tot), Other(Mant(y), y.len, d, tot);
    AlignedValues(x, y, tot);
    WBound(x.tab[..], 0, x.len);
    WBound(y.tab[..], 0, y.len);
    OperandBounds(Mant(x), x.len, Mant(y), y.len, d, tot);
    var k := tot - rlen;
    var carry, nz := LowLoop(x.tab, x.len, y.tab, y.len, d, tot, k, sub);
    ghost var z := Total(a, n, sub, k) - Carried(carry, k);
    LowMeans(a, n, sub, k, carry, nz);
    lo := z;
    tab := new Limb[rlen + 1];
    carry := HighLoop(tab, rlen, x.tab, x.len, y.tab, y.len, d, tot, sub, carry);
    WBound(tab[..], 0, rlen);
    SumIs(a, n, sub, tot, z, W(tab[..], 0, rlen), k, carry);
    hi := W(tab[..], 0, rlen);
    len := rlen;
    SetSticky(tab, rlen, nz);
    if !sub && carry != 0 {
      tab[rlen] := 1;
      len := rlen + 1;
      CarryLimbOn(tab[..], rlen, hi, nz, k, tot);
      hi := hi + P(rlen);
    }
  }

  lemma LowMeans(a: nat, n: nat, sub: bool, k: nat, carry: Limb, nz: bool)
    requires LowDone(a, n, sub, k, carry, nz)
    ensures var z := Total(a, n, sub, k) - Carried(carry, k); 0 <= z < P(k) && (nz <==> z != 0)
  {
    assert AskFor(Subject.AddingLoops, 0);
  }

  /** tab[0] |= (z != 0) */
  method SetSticky(tab: array<Limb>, l: nat, nz: bool)
    requires 1 <= l <= tab.Length
    modifies tab
    ensures W(tab[..], 0, l) == WithSticky(W(old(tab[..]), 0, l), nz)
  {
    ghost var s := tab[..];
    HalfBase();
    if nz && tab[0] % 2 == 0 { tab[0] := tab[0] + 1; }
    LowestBit(s, tab[..], l, nz);
  }

  lemma LowestBit(s: seq<Limb>, t: seq<Limb>, l: nat, nz: bool)
    requires 1 <= l <= |s| == |t| && t[0] == (if nz && s[0] % 2 == 0 then s[0] as int + 1 else s[0] as int) && s[1..] == t[1..]
    ensures W(t, 0, l) == WithSticky(W(s, 0, l), nz)
  {
    WCons(s, 0, l);
    WCons(t, 0, l);
    assert t[1..1 + (l - 1)] == t[1..][..l - 1] == s[1..][..l - 1] == s[1..1 + (l - 1)];
    ParityRow(s[0], W(s, 1, l - 1));
  }

  lemma ParityRow(x: nat, y: nat)
    ensures (x + y * B) % 2 == x % 2
  {
    EvenRest(y);
  }

  lemma EvenRest(y: nat)
    ensures (y * B) % 2 == 0
  {
    HalfBase();
    MulAssoc(y, B / 2, 2);
  }

  lemma CarryLimbOn(s: seq<Limb>, rlen: nat, hi: nat, nz: bool, k: nat, tot: nat)
    requires 1 <= rlen < |s| && s[rlen] == 1 && W(s, 0, rlen) == WithSticky(hi, nz) && tot == k + rlen
    ensures W(s, 0, rlen + 1) == WithSticky(hi + P(rlen), nz) && (hi + P(rlen)) * P(k) == hi * P(k) + P(tot)
  {
    WSnoc(s, 0, rlen);
    EvenPower(rlen);
    PAdd(rlen, k);
    Distrib(hi, P(rlen), P(k));
    SameParity(hi, P(rlen));
  }

  lemma SameParity(h: nat, p: nat)
    requires p % 2 == 0
    ensures (h + p) % 2 == h % 2
  {}

  lemma EvenPower(n: nat)
    requires n >= 1
    ensures P(n) % 2 == 0
  {
    PSucc(n - 1);
    EvenRest(P(n - 1));
    MulComm(B, P(n - 1));
  }

  /** Rounding the computed part of a number is rounding the number. */
  lemma EnoughBits(f: Format, neg: bool, e: nat, hi: nat, lo: nat, tot: nat, rlen: nat, cancelled: nat, c: int)
    requires e > 0 && Precision(f, c + BitLen(e)) <= f.prec && Big(e, tot, cancelled) && 1 <= rlen <= tot
    requires rlen < tot ==> rlen * LB() >= cancelled + f.prec + 2
    requires e == hi * P(tot - rlen) + lo && lo < P(tot - rlen)
    ensures var r := WithSticky(hi, lo != 0);
            r > 0 && SameOutcome(RoundOutcome(f, neg, e, c, false), RoundOutcome(f, neg, r, c + (tot - rlen) * LB(), false))
  {
    var k := tot - rlen;
    TLimbs(k);
    if rlen < tot {
      UpperBits(e, hi, lo, tot, k, cancelled, f.prec);
      BitLenSticky(hi, lo, k * LB());
    } else {
      PZero();
    }
    RoundSticky(f, neg, hi, lo, k * LB(), c, false);
  }

  /** The format never asks for more bits than its precision: it does not count them from
      the radix point, which the library allows for rounding only (libbf.h, 122-124). */
  predicate Bounded(f: Format)
  {
    !f.radpnt || f.prec == PrecInf()
  }

  lemma BoundedPrecision(f: Format, x: int)
    requires Bounded(f)
    ensures Precision(f, x) <= f.prec
  {}

  /** With the precision counted from the radix point an integer is not changed. */
  lemma IntegerKept(f: Format, neg: bool, n: nat, e: nat)
    requires n > 0 && f.radpnt && f.prec != PrecInf() && f.range >= e + BitLen(n)
    ensures RoundOutcome(f, neg, n, e, false) == Outcome(NumFinite(neg, e + BitLen(n), n, e), Status(f.mode.RndF?, f.mode.RndF? && e + BitLen(n) < MinExp(f), false))
      || (e + BitLen(n) < MinExp(f) && !f.subnormal)
  {
    OutcomeMeans(f, neg, n, e, false);
    FinishMeans(f, neg, e + BitLen(n), n, e, f.mode.RndF?);
  }

  /** The exact sum in units of its last digit, of which hi is computed. */
  ghost predicate Parts(x: Bf, y: Bf, sub: bool, tot: nat, rlen: nat, cancelled: nat, hi: nat, lo: nat)
    reads x, x.tab, y, y.tab
  {
    var c := x.expn - tot * LB();
    x.len <= x.tab.Length && y.len <= y.tab.Length && c <= Scale(x) && c <= Scale(y) && rlen <= tot && lo < P(tot - rlen) &&
    var e := Exactly(x, y, sub, c);
    e > 0 && Big(e, tot, cancelled) && e == hi * P(tot - rlen) + lo
  }

  /** Sum or difference of magnitudes, the first one not smaller: what is rounded is the
      part of the exact sum that was computed, with a sticky bit. */
  method SumRounded(r: Bf, x: Bf, y: Bf, neg: bool, sub: bool, f: Format) returns (st: Status, ghost tot: nat, ghost rlen: nat, ghost cancelled: nat, ghost hi: nat, ghost lo: nat)
    requires Operand(x) && Operand(y) && y.expn <= x.expn && r != x && r != y && f.prec >= 1
    requires var s := Smaller(Scale(x), Scale(y)); sub ==> Magnitude(y, s) < Magnitude(x, s)
    modifies r
    ensures Shape(x.len, y.len, Gap(x, y), sub, f, tot, rlen, cancelled) && Parts(x, y, sub, tot, rlen, cancelled, hi, lo)
    ensures WithSticky(hi, lo != 0) > 0 && r.neg == neg && ShowsOutcome(r, RoundOutcome(f, neg, WithSticky(hi, lo != 0), x.expn - rlen * LB(), false), st)
  {
    var tab, len, expn;
    tab, len, expn, tot, rlen, cancelled, hi, lo := ComputeSum(x, y, sub, f);
    st := Deliver(r, tab, len, neg, expn, f, WithSticky(hi, lo != 0), x.expn - rlen * LB());
  }

  /** The limbs of the sum, and its exponent. */
  method ComputeSum(x: Bf, y: Bf, sub: bool, f: Format)
    returns (tab: array<Limb>, len: nat, expn: int, ghost tot: nat, ghost rlen: nat, ghost cancelled: nat, ghost hi: nat, ghost lo: nat)
    requires Operand(x) && Operand(y) && y.expn <= x.expn
    requires var s := Smaller(Scale(x), Scale(y)); sub ==> Magnitude(y, s) < Magnitude(x, s)
    ensures Shape(x.len, y.len, Gap(x, y), sub, f, tot, rlen, cancelled) && Parts(x, y, sub, tot, rlen, cancelled, hi, lo)
    ensures fresh(tab) && len <= tab.Length && W(tab[..], 0, len) == WithSticky(hi, lo != 0) > 0 && expn - len * LB() == x.expn - rlen * LB()
  {
    var tot1, rlen1;
    tot1, rlen1, cancelled := Lengths(x, y, sub, f);
    tab, len, hi, lo := SumLimbs(x, y, sub, tot1, rlen1);
    tot, rlen := tot1, rlen1;
    SomePart(hi, lo, P(tot - rlen));
    Distrib(rlen, 1, LB());
    expn := if len > rlen1 then x.expn + LB() else x.expn;
  }

  lemma SomePart(hi: nat, lo: nat, p: nat)
    requires hi * p + lo > 0
    ensures WithSticky(hi, lo != 0) > 0
  {
    if hi == 0 { MulComm(0, p); }
  }

  ghost predicate ShowsOutcome(r: Bf, o: Outcome, st: Status)
    reads r, r.tab
  {
    r.Shows(o.num) && st == o.status
  }

  /** The computed limbs become the number r, normalized and rounded. */
  method Deliver(r: Bf, tab: array<Limb>, len: nat, neg: bool, expn: int, f: Format, ghost m: nat, ghost g: int) returns (st: Status)
    requires len <= tab.Length && f.prec >= 1 && W(tab[..], 0, len) == m && m > 0 && expn - len * LB() == g
    modifies r, tab
    ensures r.neg == neg && ShowsOutcome(r, RoundOutcome(f, neg, m, g, false), st)
  {
    r.kind, r.neg, r.expn, r.tab, r.len := Finite, neg, expn, tab, len;
    st := NormalizeAndRound(r, f);
  }

  /** The same, for a format with bounded precision: the exact sum is rounded. */
  method AddMagnitudes(r: Bf, x: Bf, y: Bf, neg: bool, sub: bool, f: Format, ghost e: nat, ghost s: int) returns (st: Status)
    requires Operand(x) && Operand(y) && y.expn <= x.expn && r != x && r != y && f.prec >= 1 && Bounded(f)
    requires s == Smaller(Scale(x), Scale(y)) && e == Exactly(x, y, sub, s) && (sub ==> Magnitude(y, s) < Magnitude(x, s))
    modifies r
    ensures e > 0 && var o := RoundOutcome(f, neg, e, s, false); r.neg == neg && r.Shows(o.num) && st == o.status
  {
    ghost var tot, rlen, cancelled, hi, lo;
    st, tot, rlen, cancelled, hi, lo := SumRounded(r, x, y, neg, sub, f);
    ghost var o := RoundOutcome(f, neg, WithSticky(hi, lo != 0), x.expn - rlen * LB(), false);
    SameRounding(x, y, neg, sub, f, tot, rlen, cancelled, hi, lo, e, s, o);
    ShowsSame(r, o.num, RoundOutcome(f, neg, e, s, false).num);
  }

  /** Rounding the part that was computed is rounding the exact sum. */
  lemma SameRounding(x: Bf, y: Bf, neg: bool, sub: bool, f: Format, tot: nat, rlen: nat, cancelled: nat, hi: nat, lo: nat, e: int, s: int, o: Outcome)
    requires Shape(x.len, y.len, Gap(x, y), sub, f, tot, rlen, cancelled) && Parts(x, y, sub, tot, rlen, cancelled, hi, lo) && Bounded(f)
    requires s == Smaller(Scale(x), Scale(y)) && e == Exactly(x, y, sub, s) && WithSticky(hi, lo != 0) > 0
    requires o == RoundOutcome(f, neg, WithSticky(hi, lo != 0), x.expn - rlen * LB(), false)
    ensures e > 0 && SameNumber(o.num, RoundOutcome(f, neg, e, s, false).num) && o.status == RoundOutcome(f, neg, e, s, false).status
  {
    var c := x.expn - tot * LB();
    var e1 := Exactly(x, y, sub, c);
    ShapeMeans(x.len, y.len, Gap(x, y), sub, f, tot, rlen, cancelled);
    ExactScale(x, y, sub, s, c);
    BoundedPrecision(f, c + BitLen(e1));
    EnoughBits(f, neg, e1, hi, lo, tot, rlen, cancelled, c);
    RoundScaled(f, neg, e, s, s - c, false);
    Distrib(tot, rlen, LB());
    assert x.expn - rlen * LB() == c + (tot - rlen) * LB();
    SameThrough(o, RoundOutcome(f, neg, e1, c, false), RoundOutcome(f, neg, e, s, false));
  }

  lemma SameThrough(o: Outcome, o1: Outcome, o2: Outcome)
    requires SameOutcome(o1, o) && SameOutcome(o1, o2)
    ensures SameNumber(o.num, o2.num) && o.status == o2.status
  {
    SameBack(o1.num, o.num);
    if o.num.NumFinite? { SameTrans(o.num.m, o.num.s, o1.num.m, o1.num.s, o2.num.m, o2.num.s); }
  }

  // ----------------------------------------------- precision counted from the radix point

  /** The exponent of the smallest power of two to which one cannot be added. */
  function Breaks(f: Format): nat
  {
    LimbCount(f.prec + 2) * LB()
  }

  /** x is the number 2^k. */
  ghost predicate Power(x: Bf, k: nat)
    reads x, x.tab
  {
    Operand(x) && !x.neg && x.expn == k + 1 && x.len == 1 && Mant(x) == T(LB() - 1)
  }

  /** What is computed of 2^k + 1 when k is a multiple of LIMB_BITS. */
  lemma PowerPlusOne(x: Bf, y: Bf, k: nat, c: int, hi: nat, lo: nat)
    requires Power(x, k) && Power(y, 0)
    requires k >= LB() && c == 1 - LB() && lo < P(1) && Exactly(x, y, false, c) == hi * P(1) + lo
    ensures WithSticky(hi, lo != 0) == T(k - 1) + 1
  {
    TZero();
    PZero();
    PSucc(0);
    MulComm(T(LB() - 1), T(k));
    UpperOfPower(k, hi, lo);
  }

  lemma UpperOfPower(k: nat, hi: nat, lo: nat)
    requires k >= LB() && lo < B && T(k) * T(LB() - 1) + T(LB() - 1) == hi * B + lo
    ensures WithSticky(hi, lo != 0) == T(k - 1) + 1
  {
    var h := T(LB() - 1);
    TLimb();
    TSucc(LB() - 1);
    TSucc(k - 1);
    EvenPowerOfTwo(k - 1);
    HalfSplit(h, T(k - 1));
    DivModUnique(hi * B + lo, B, T(k - 1), h);
    DivModUnique(hi * B + lo, B, hi, lo);
  }

  lemma EvenPowerOfTwo(k: nat)
    requires k >= 1
    ensures T(k) % 2 == 0
  {
    TSucc(k - 1);
  }

  lemma HalfSplit(h: nat, u: nat)
    ensures (2 * u) * h == u * (2 * h)
  {}

  /** Otherwise some sum is wrong, although every bit of it is asked for: one added to this
      power of two gives the power plus two, and the result is not even marked inexact. */
  method RadixPointSum(r: Bf, x: Bf, y: Bf, f: Format) returns (st: Status)
    requires Power(x, Breaks(f)) && Power(y, 0) && r != x && r != y && !Bounded(f) && f.prec >= 1 && f.range > Breaks(f)
    modifies r
    ensures var k := Breaks(f); r.Shows(NumFinite(false, k + 1, T(k) + 2, 0)) && st == Status(f.mode.RndF?, false, false)
    ensures var o := RoundOutcome(f, false, T(Breaks(f)) + 1, 0, false); IsNumber(o.num, false, T(Breaks(f)) + 1, 0) && !r.Shows(o.num)
  {
    ghost var k := Breaks(f);
    ghost var tot, rlen, cancelled, hi, lo;
    st, tot, rlen, cancelled, hi, lo := SumRounded(r, x, y, false, false, f);
    PowerShape(x, y, f, tot, rlen, cancelled, hi, lo);
    NotTheSum(r, f, k, st);
  }

  lemma PowerShape(x: Bf, y: Bf, f: Format, tot: nat, rlen: nat, cancelled: nat, hi: nat, lo: nat)
    requires Power(x, Breaks(f)) && Power(y, 0) && Shape(x.len, y.len, Gap(x, y), false, f, tot, rlen, cancelled) && Parts(x, y, false, tot, rlen, cancelled, hi, lo)
    ensures Breaks(f) >= 2 && WithSticky(hi, lo != 0) == T(Breaks(f) - 1) + 1 && x.expn - rlen * LB() == 1
  {
    BreaksLimbs(f);
    ShapeMeans(x.len, y.len, Breaks(f), false, f, tot, rlen, cancelled);
    PowerPlusOne(x, y, Breaks(f), x.expn - tot * LB(), hi, lo);
  }

  lemma NotTheSum(r: Bf, f: Format, k: nat, st: Status)
    requires !Bounded(f) && f.range > k >= 2 && ShowsOutcome(r, RoundOutcome(f, false, T(k - 1) + 1, 1, false), st)
    ensures r.Shows(NumFinite(false, k + 1, T(k) + 2, 0)) && st == Status(f.mode.RndF?, false, false)
    ensures var o := RoundOutcome(f, false, T(k) + 1, 0, false); IsNumber(o.num, false, T(k) + 1, 0) && !r.Shows(o.num)
  {
    TwoSums(f, k);
    ShowsSame(r, NumFinite(false, k + 1, T(k - 1) + 1, 1), NumFinite(false, k + 1, T(k) + 2, 0));
    NotBoth(r, false, k + 1, T(k) + 2, T(k) + 1);
  }

  /** One limb of the sum is left out. */
  lemma BreaksLimbs(f: Format)
    ensures Breaks(f) >= LB() && LimbCount(Breaks(f)) == LimbCount(f.prec + 2)
    ensures Breaks(f) + 1 - (1 + LimbCount(Breaks(f))) * LB() == 1 - LB() && Breaks(f) + 1 - LimbCount(f.prec + 2) * LB() == 1
  {
    var q := LimbCount(f.prec + 2);
    CeilBits(f.prec + 2);
    if q < 1 { MulMono(q, 0, LB()); }
    MulMono(1, q, LB());
    DivModUnique(q * LB() + LB() - 1, LB(), q, LB() - 1);
    Distrib(1, q, LB());
  }

  lemma TwoSums(f: Format, k: nat)
    requires f.radpnt && f.prec != PrecInf() && f.range > k >= 2
    ensures RoundOutcome(f, false, T(k) + 1, 0, false) == Outcome(NumFinite(false, k + 1, T(k) + 1, 0), Status(f.mode.RndF?, false, false))
    ensures SameValue(T(k) + 1, 0, T(k) + 1, 0)
    ensures RoundOutcome(f, false, T(k - 1) + 1, 1, false) == Outcome(NumFinite(false, k + 1, T(k - 1) + 1, 1), Status(f.mode.RndF?, false, false))
    ensures SameNumber(NumFinite(false, k + 1, T(k - 1) + 1, 1), NumFinite(false, k + 1, T(k) + 2, 0))
  {
    TZero();
    TSucc(0);
    TSucc(k);
    TSucc(k - 1);
    TStrict(0, k);
    TStrict(0, k - 1);
    BitLenUnique(T(k) + 1, k + 1);
    BitLenUnique(T(k - 1) + 1, k);
    IntegerKept(f, false, T(k) + 1, 0);
    IntegerKept(f, false, T(k - 1) + 1, 1);
  }

  lemma NotBoth(r: Bf, neg: bool, x: int, m1: nat, m2: nat)
    requires r.Shows(NumFinite(neg, x, m1, 0)) && m1 != m2
    ensures !r.Shows(NumFinite(neg, x, m2, 0))
  {
    var t := r.expn - r.len * LB();
    var c := if t < 0 then t else 0;
    var w := W(r.tab[..], 0, r.len);
    SameScale(w, t, m1, 0, c);
    SameScale(w, t, m2, 0, c);
    CancelScale(m1, m2, T(0 - c));
  }

  lemma ExactScale(x: Bf, y: Bf, sub: bool, s: int, c: int)
    requires x.len <= x.tab.Length && y.len <= y.tab.Length && c <= s <= Scale(x) && s <= Scale(y)
    ensures Exactly(x, y, sub, c) == Exactly(x, y, sub, s) * T(s - c)
    ensures Exactly(x, y, sub, c) > 0 ==> Exactly(x, y, sub, s) > 0
  {
    ScaleChange(x, s, c);
    ScaleChange(y, s, c);
    Distrib(Magnitude(x, s), Magnitude(y, s), T(s - c));
    if Exactly(x, y, sub, s) <= 0 { MulMono(Exactly(x, y, sub, s), 0, T(s - c)); }
  }

  lemma SameBack(a: Number, b: Number)
    requires SameNumber(a, b)
    ensures SameNumber(b, a)
  {
    if a.NumFinite? {
      var c := Smaller(a.s, b.s);
      SameScale(a.m, a.s, b.m, b.s, c);
      SameScale(b.m, b.s, a.m, a.s, c);
    }
  }

  /** A number with a sign, in units of 2^c. */
  ghost function Signed(x: Bf, neg: bool, c: int): int
    reads x, x.tab
    requires x.len <= x.tab.Length && c <= Scale(x)
  {
    if neg then 0 - Magnitude(x, c) as int else Magnitude(x, c)
  }

  /** The sum of two numbers with signs is their magnitudes added or subtracted. */
  lemma SignedCases(x: int, y: int, xNeg: bool, yNeg: bool)
    requires x >= 0 && y >= 0
    ensures var e := (if xNeg then 0 - x else x) + (if yNeg then 0 - y else y);
            (x > y ==> (if e < 0 then 0 - e else e) == (if xNeg == yNeg then x + y else x - y) && (e < 0 <==> xNeg) && e != 0) &&
            (x < y ==> (if e < 0 then 0 - e else e) == (if xNeg == yNeg then x + y else y - x) && (e < 0 <==> yNeg) && e != 0) &&
            (x == y && xNeg != yNeg ==> e == 0) &&
            (x == y && x > 0 && xNeg == yNeg ==> (if e < 0 then 0 - e else e) == x + y && (e < 0 <==> xNeg) && e != 0)
  {}

  /** The exact sum in units of 2^s, s the smaller of the two scales. */
  ghost function FiniteSum(a: Bf, b: Bf, bNeg: bool): int
    reads a, a.tab, b, b.tab
    requires a.len <= a.tab.Length && b.len <= b.tab.Length
  {
    var s := Smaller(Scale(a), Scale(b));
    Signed(a, a.neg, s) + Signed(b, b.neg != bNeg, s)
  }

  function Abs(e: int): nat
  {
    if e < 0 then 0 - e else e
  }

  /** The larger magnitude gives the sign. */
  lemma LargerSign(a: Bf, b: Bf, bNeg: bool)
    requires Operand(a) && Operand(b)
    ensures var s := Smaller(Scale(a), Scale(b)); var e, sub := FiniteSum(a, b, bNeg), a.neg != (b.neg != bNeg);
            (Magnitude(a, s) > Magnitude(b, s) || (Magnitude(a, s) == Magnitude(b, s) && !sub) ==>
              e != 0 && (e < 0 <==> a.neg) && Abs(e) == Exactly(a, b, sub, s)) &&
            (Magnitude(a, s) < Magnitude(b, s) ==> e != 0 && (e < 0 <==> (b.neg != bNeg)) && Abs(e) == Exactly(b, a, sub, s)) &&
            (Magnitude(a, s) == Magnitude(b, s) && sub ==> e == 0)
  {
    var s := Smaller(Scale(a), Scale(b));
    SignedCases(Magnitude(a, s), Magnitude(b, s), a.neg, b.neg != bNeg);
    MagnitudeBounds(a, s);
  }

  /** The order of numbers of different kinds. */
  function Rank(k: Kind): nat
  {
    match k
    case Zero => 0
    case Finite => 1
    case Inf => 2
    case NaN => 3
  }

  /** A number as the library keeps it: only finite numbers have limbs. */
  ghost predicate Known(x: Bf)
    reads x, x.tab
  {
    if x.kind == Finite then Operand(x) else x.len == 0
  }

  predicate Real(x: Bf)
    reads x
  {
    x.kind == Zero || x.kind == Finite
  }

  /** The exact sum of numbers that are zero or finite, in units of 2^SumScale. */
  ghost function ExactSum(a: Bf, b: Bf, bNeg: bool): int
    reads a, a.tab, b, b.tab
    requires Known(a) && Known(b)
  {
    if a.kind == Zero && b.kind == Zero then 0
    else if a.kind == Zero then Signed(b, b.neg != bNeg, Scale(b))
    else if b.kind == Zero then Signed(a, a.neg, Scale(a))
    else FiniteSum(a, b, bNeg)
  }

  function SumScale(a: Bf, b: Bf): int
    reads a, b
  {
    if a.kind == Zero then Scale(b) else if b.kind == Zero then Scale(a) else Smaller(Scale(a), Scale(b))
  }

  /** r is the number e * 2^s after one rounding. */
  ghost predicate Rounds(r: Bf, f: Format, e: int, s: int, st: Status)
    reads r, r.tab
    requires e != 0
  {
    var o := RoundOutcome(f, e < 0, Abs(e), s, false);
    r.Shows(o.num) && st == o.status && IsCorrect(f, e < 0, Abs(e), s, false, o)
  }

  /** The sign of an exact zero: that of two equal zeros, else positive unless rounding is
      downwards. */
  predicate ZeroSign(a: Bf, b: Bf, f: Format, bNeg: bool)
    reads a, b
  {
    if a.kind == Zero && b.kind == Zero && a.neg == (b.neg != bNeg) then a.neg else f.mode.RndD?
  }

  /** bf_cmpu on any numbers: exponents of zero, infinity and NaN are out of the range of
      the others. */
  method Compare(a: Bf, b: Bf) returns (c: int)
    requires Known(a) && Known(b)
    ensures Rank(a.kind) < Rank(b.kind) ==> c < 0
    ensures Rank(a.kind) > Rank(b.kind) ==> c > 0
    ensures a.kind == b.kind && a.kind != Finite ==> c == 0
    ensures a.kind == Finite && b.kind == Finite ==>
              var s := Smaller(Scale(a), Scale(b));
              (c < 0 <==> Magnitude(a, s) < Magnitude(b, s)) && (c == 0 <==> Magnitude(a, s) == Magnitude(b, s)) &&
              (c == 0 ==> a.expn == b.expn) && (c > 0 ==> a.expn >= b.expn) && (c < 0 ==> a.expn <= b.expn)
  {
    if a.kind == Finite && b.kind == Finite {
      c := CmpU(a, b);
    } else {
      c := Rank(a.kind) - Rank(b.kind);
    }
  }

  /** One operand is zero: the other one is copied and rounded. */
  method AddZero(r: Bf, x: Bf, neg: bool, f: Format) returns (st: Status)
    requires Known(x) && Real(x) && r != x && f.prec >= 1
    modifies r
    ensures x.kind == Zero ==> r.kind == Zero && r.len == 0 && r.neg == neg && st == Status(false, false, false)
    ensures x.kind == Finite ==> Signed(x, neg, Scale(x)) != 0 && Rounds(r, f, Signed(x, neg, Scale(x)), Scale(x), st)
  {
    Copy(r, x, neg);
    ghost var n := Mant(x);
    if x.kind == Finite {
      MagnitudeBounds(x, Scale(x));
      TZero();
      RoundingCorrect(f, neg, n, Scale(x), false);
    } else {
      WZero(x.tab[..], 0);
    }
    st := NormalizeAndRound(r, f);
  }

  /** bf_set, with the sign given. */
  method Copy(r: Bf, x: Bf, neg: bool)
    requires x.len <= x.tab.Length && r != x
    modifies r
    ensures r.kind == Finite && r.neg == neg && r.expn == x.expn && r.len == x.len && fresh(r.tab) && r.len <= r.tab.Length && Mant(r) == Mant(x)
  {
    var t := new Limb[x.len](i requires 0 <= i < x.len <= x.tab.Length reads x, x.tab => x.tab[i]);
    assert t[..][0..0 + x.len] == x.tab[..][0..0 + x.len];
    r.kind, r.neg, r.expn, r.tab, r.len := Finite, neg, x.expn, t, x.len;
  }

  /** bf_add_internal: the exact sum, rounded once; infinities of different signs have no
      sum. */
  method AddInternal(r: Bf, a: Bf, b: Bf, f: Format, bNeg: bool) returns (st: Status, invalid: bool)
    requires Known(a) && Known(b) && r != a && r != b && f.prec >= 1 && Bounded(f)
    modifies r
    ensures invalid <==> a.kind == Inf && b.kind == Inf && a.neg != (b.neg != bNeg)
    ensures Real(a) && Real(b) ==>
              var e := ExactSum(a, b, bNeg);
              if e == 0 then r.kind == Zero && r.len == 0 && r.neg == ZeroSign(a, b, f, bNeg) && st == Status(false, false, false)
              else Rounds(r, f, e, SumScale(a, b), st)
    ensures !(Real(a) && Real(b)) ==> st == Status(false, false, false) && r.len == 0 && r.kind == (if a.kind == NaN || b.kind == NaN || invalid then NaN else Inf)
    ensures r.kind == Inf && !(Real(a) && Real(b)) ==> r.neg == if a.kind == Inf then a.neg else b.neg != bNeg
  {
    var aSign, bSign := a.neg, b.neg != bNeg;
    var sub := aSign != bSign;
    st, invalid := Status(false, false, false), false;
    var c := Compare(a, b);
    var x, y, sign := a, b, aSign;
    if c < 0 { x, y, sign := b, a, bSign; }
    if a.kind == Finite && b.kind == Finite {
      st := AddFinite(r, a, b, f, bNeg, c);
    } else if c == 0 && sub && Real(x) {
      r.kind, r.neg, r.len := Zero, f.mode.RndD?, 0;
    } else if x.kind == NaN {
      r.kind, r.len := NaN, 0;
    } else if x.kind == Inf {
      invalid := y.kind == Inf && sub;
      r.kind, r.len := if invalid then NaN else Inf, 0;
      if !invalid { r.neg := sign; }
    } else {
      st := AddZero(r, x, sign, f);
    }
  }

  /** The case of finite numbers that are not zero. */
  method AddFinite(r: Bf, a: Bf, b: Bf, f: Format, bNeg: bool, c: int) returns (st: Status)
    requires Operand(a) && Operand(b) && r != a && r != b && f.prec >= 1 && Bounded(f)
    requires var s := Smaller(Scale(a), Scale(b));
             (c < 0 <==> Magnitude(a, s) < Magnitude(b, s)) && (c == 0 <==> Magnitude(a, s) == Magnitude(b, s)) &&
             (c == 0 ==> a.expn == b.expn) && (c > 0 ==> a.expn >= b.expn) && (c < 0 ==> a.expn <= b.expn)
    modifies r
    ensures var e := FiniteSum(a, b, bNeg);
            if e == 0 then r.kind == Zero && r.len == 0 && r.neg == f.mode.RndD? && st == Status(false, false, false)
            else Rounds(r, f, e, Smaller(Scale(a), Scale(b)), st)
  {
    var aSign, bSign := a.neg, b.neg != bNeg;
    var sub := aSign != bSign;
    ghost var e, s := FiniteSum(a, b, bNeg), Smaller(Scale(a), Scale(b));
    LargerSign(a, b, bNeg);
    if c == 0 && sub {
      r.kind, r.neg, r.len := Zero, f.mode.RndD?, 0;
      return Status(false, false, false);
    }
    if c < 0 {
      st := AddMagnitudes(r, b, a, bSign, sub, f, Abs(e), s);
    } else {
      st := AddMagnitudes(r, a, b, aSign, sub, f, Abs(e), s);
    }
    assert FiniteSum(a, b, bNeg) == e;
    RoundingCorrect(f, e < 0, Abs(e), s, false);
  }
}
