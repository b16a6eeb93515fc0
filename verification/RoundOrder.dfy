/** The order of a rounded number and the exact one, out of range included (sections 4.3 and
    7.4 of IEEE 754-2008; libbf.c, 448-475 and 553-571). */
module RoundOrder {
  import opened Arith
  import opened Bits
  import opened RoundSpec
  import opened Float

  /** m1 * 2^s1 <= m2 * 2^s2 */
  ghost predicate AtMost(m1: nat, s1: int, m2: nat, s2: int)
  {
    if s1 >= s2 then m1 * T(s1 - s2) <= m2 else m1 <= m2 * T(s2 - s1)
  }

  lemma OrderScale(m1: nat, s1: int, m2: nat, s2: int, c: int)
    requires c <= s1 && c <= s2
    ensures AtMost(m1, s1, m2, s2) <==> m1 * T(s1 - c) <= m2 * T(s2 - c)
  {
    if s1 >= s2 {
      TAdd(s1 - s2, s2 - c);
      MulAssoc(m1, T(s1 - s2), T(s2 - c));
      CancelOrder(m1 * T(s1 - s2), m2, T(s2 - c));
    } else {
      TAdd(s2 - s1, s1 - c);
      MulAssoc(m2, T(s2 - s1), T(s1 - c));
      CancelOrder(m1, m2 * T(s2 - s1), T(s1 - c));
    }
  }

  lemma CancelOrder(x: int, y: int, t: int)
    requires t >= 1
    ensures x * t <= y * t <==> x <= y
  {
    if x <= y { MulMono(x, y, t); } else { MulStrict(y, x, t); }
  }

  function Least(a: int, b: int): int { if a < b then a else b }

  /** Equal numbers stand alike to a third. */
  lemma SameOrder(m1: nat, s1: int, m2: nat, s2: int, n: nat, e: int)
    requires SameValue(m1, s1, m2, s2)
    ensures AtMost(m1, s1, n, e) <==> AtMost(m2, s2, n, e)
    ensures AtMost(n, e, m1, s1) <==> AtMost(n, e, m2, s2)
  {
    var c := Least(s1, Least(s2, e));
    SameScale(m1, s1, m2, s2, c);
    OrderScale(m1, s1, n, e, c);
    OrderScale(m2, s2, n, e, c);
    OrderScale(n, e, m1, s1, c);
    OrderScale(n, e, m2, s2, c);
  }

  lemma OrderChain(m1: nat, s1: int, m2: nat, s2: int, m3: nat, s3: int)
    requires AtMost(m1, s1, m2, s2) && AtMost(m2, s2, m3, s3)
    ensures AtMost(m1, s1, m3, s3)
  {
    var c := Least(s1, Least(s2, s3));
    OrderScale(m1, s1, m2, s2, c);
    OrderScale(m2, s2, m3, s3, c);
    OrderScale(m1, s1, m3, s3, c);
  }

  // ------------------------------------------------------------- the largest number

  /** The largest number of prec bits with the exponent range is the largest of all numbers
      that have no more bits and no larger exponent, and is one of them. */
  lemma LargestFinite(prec: nat, range: nat, k: nat, s: int)
    requires 1 <= BitLen(k) <= prec
    ensures AtMost(k, s, T(prec) - 1, range - prec) <==> s + BitLen(k) <= range
    ensures BitLen(T(prec) - 1) == prec
  {
    BitsOfLargest(prec);
    BitLenMeaning(0);
    BitLenBounds(k);
    var c := Least(s, range - prec);
    OrderScale(k, s, T(prec) - 1, range - prec, c);
    if s + BitLen(k) <= range {
      FullBits(k, s, prec, range, c);
    } else {
      MoreBits(k, s, prec, range, c);
    }
  }

  lemma BitsOfLargest(prec: nat)
    requires prec >= 1
    ensures BitLen(T(prec) - 1) == prec
  {
    TSucc(prec - 1);
    BitLenUnique(T(prec) - 1, prec);
  }

  /** A number of b bits is at most 2^b - 1, that is at most 2^prec - 1 shifted up. */
  lemma FullBits(k: nat, s: int, prec: nat, range: int, c: int)
    requires 1 <= BitLen(k) <= prec && s + BitLen(k) <= range && c <= s && c <= range - prec
    ensures k * T(s - c) <= (T(prec) - 1) * T(range - prec - c)
  {
    var b := BitLen(k);
    BitLenBounds(k);
    MulMono(k, T(b) - 1, T(s - c));
    Distrib(T(b), 1, T(s - c));
    Distrib(T(prec), 1, T(range - prec - c));
    TAdd(b, s - c);
    TAdd(prec, range - prec - c);
    if s <= range - prec {
      OneLess(b + s - c, s - c, range - c, range - prec - c);
    } else {
      TAdd(b, s - range + prec);
      TAdd(s - range + prec, range - prec - c);
      TMono(range - prec - c, s - c);
      TMono(b + s - c, range - c);
    }
  }

  /** 2^a - 2^b <= 2^c - 2^d when both exponents and the number of ones grow. */
  lemma OneLess(a: nat, b: nat, c: nat, d: nat)
    requires b <= a && d <= c && b <= d && a - b <= c - d
    ensures T(a) - T(b) <= T(c) - T(d)
  {
    TAdd(a - b, b);
    TAdd(c - d, d);
    TMono(a - b, c - d);
    TMono(b, d);
    Distrib(T(a - b), 1, T(b));
    Distrib(T(c - d), 1, T(d));
    MulMono(T(a - b) - 1, T(c - d) - 1, T(b));
    MulMono(T(b), T(d), T(c - d) - 1);
    MulComm(T(c - d) - 1, T(b));
    MulComm(T(c - d) - 1, T(d));
  }

  lemma MoreBits(k: nat, s: int, prec: nat, range: int, c: int)
    requires k > 0 && s + BitLen(k) > range && c <= s && c <= range - prec
    ensures k * T(s - c) > (T(prec) - 1) * T(range - prec - c)
  {
    var b := BitLen(k);
    BitLenBounds(k);
    MulMono(T(b - 1), k, T(s - c));
    TAdd(b - 1, s - c);
    TAdd(prec, range - prec - c);
    TMono(range - c, b - 1 + s - c);
    Distrib(T(prec), 1, T(range - prec - c));
  }

  // --------------------------------------------------------------------- on which side

  /** The magnitude shown is not above, or not below, n * 2^e. */
  ghost predicate NotAbove(num: Number, n: nat, e: int)
  {
    match num
    case NumZero(_) => true
    case NumInf(_) => false
    case NumFinite(_, _, m, s) => AtMost(m, s, n, e)
  }

  ghost predicate NotBelow(num: Number, n: nat, e: int)
  {
    match num
    case NumZero(_) => n == 0
    case NumInf(_) => true
    case NumFinite(_, _, m, s) => AtMost(n, e, m, s)
  }

  predicate TowardsZero(mode: Mode, neg: bool)
  {
    mode.RndZ? || (mode.RndD? && !neg) || (mode.RndU? && neg)
  }

  predicate AwayFromZero(mode: Mode, neg: bool)
  {
    mode.RndA? || (mode.RndD? && neg) || (mode.RndU? && !neg)
  }

  /** The exponent of the rounded number m, and whether any bit was kept. */
  function RoundedExponent(f: Format, n: nat, e: int, m: nat): int
    requires n > 0
  {
    e + RoundedOff(f, n, e) + BitLen(m)
  }

  predicate SomeKept(f: Format, n: nat, e: int)
    requires n > 0
  {
    e + BitLen(n) > LastPlace(f, e + BitLen(n))
  }

  /** The directed modes show a number on their side of the exact one. Towards zero there is
      one exception, an overflow without a largest number; and away from zero one, an
      underflow without subnormal numbers, which shows zero. */
  lemma Sides(f: Format, neg: bool, n: nat, e: int, lossy: bool, o: Outcome, m: nat)
    requires n > 0 && f.range >= 2 && CorrectlyRounded(f, neg, n, e, lossy, o, m)
    ensures TowardsZero(f.mode, neg) ==>
              (NotAbove(o.num, n, e) <==> !(f.prec == PrecInf() && SomeKept(f, n, e) && RoundedExponent(f, n, e, m) > f.range))
    ensures AwayFromZero(f.mode, neg) ==>
              (NotBelow(o.num, n, e) <==> !(!f.subnormal && SomeKept(f, n, e) && RoundedExponent(f, n, e, m) < 3 - f.range))
  {
    var q := RoundedOff(f, n, e);
    RoundedSide(f.mode, neg, n, e, q, m);
    if TowardsZero(f.mode, neg) && SomeKept(f, n, e) { KeptPositive(f.mode, neg, n, q, m); }
    DeliveredSide(f, neg, n, e, m, e + q, e + BitLen(n) - LastPlace(f, e + BitLen(n)), o.num);
  }

  lemma RoundedSide(mode: Mode, neg: bool, n: nat, e: int, q: nat, m: nat)
    requires n > 0 && Rounded(mode, neg, n, q, m)
    ensures TowardsZero(mode, neg) ==> AtMost(m, e + q, n, e)
    ensures AwayFromZero(mode, neg) ==> AtMost(n, e, m, e + q) && m > 0
  {
    OrderScale(m, e + q, n, e, e);
    OrderScale(n, e, m, e + q, e);
    TZero();
    if m == 0 { MulMono(m, 0, T(q)); }
  }

  lemma KeptPositive(mode: Mode, neg: bool, n: nat, q: nat, m: nat)
    requires n > 0 && q < BitLen(n) && Rounded(mode, neg, n, q, m) && TowardsZero(mode, neg)
    ensures m > 0
  {
    BitLenBounds(n);
    TMono(q, BitLen(n) - 1);
  }

  lemma DeliveredSide(f: Format, neg: bool, n: nat, e: int, m: nat, s: int, prec: int, num: Number)
    requires n > 0 && f.range >= 2 && Delivered(f, neg, m, s, prec, num)
    requires TowardsZero(f.mode, neg) ==> AtMost(m, s, n, e) && (prec > 0 ==> m > 0)
    requires AwayFromZero(f.mode, neg) ==> AtMost(n, e, m, s) && m > 0
    ensures TowardsZero(f.mode, neg) ==> (NotAbove(num, n, e) <==> !(f.prec == PrecInf() && prec > 0 && s + BitLen(m) > f.range))
    ensures AwayFromZero(f.mode, neg) ==> (NotBelow(num, n, e) <==> !(!f.subnormal && prec > 0 && s + BitLen(m) < 3 - f.range))
  {
    BitLenMeaning(0);
    if num.NumFinite? {
      if prec > 0 && s + BitLen(m) > f.range {
        LargestBelow(f, n, e, m, s, num);
      } else {
        SameOrder(num.m, num.s, m, s, n, e);
      }
    }
  }

  /** Towards zero, what overflows is above the largest number. */
  lemma LargestBelow(f: Format, n: nat, e: int, m: nat, s: int, num: Number)
    requires n > 0 && m > 0 && num.NumFinite? && SameValue(num.m, num.s, T(f.prec) - 1, f.range - f.prec)
    requires s + BitLen(m) > f.range
    ensures AtMost(m, s, n, e) ==> AtMost(num.m, num.s, n, e)
  {
    var c := Least(s, f.range - f.prec);
    MoreBits(m, s, f.prec, f.range, c);
    OrderScale(T(f.prec) - 1, f.range - f.prec, m, s, c);
    SameOrder(num.m, num.s, T(f.prec) - 1, f.range - f.prec, m, s);
    if AtMost(m, s, n, e) { OrderChain(num.m, num.s, m, s, n, e); }
  }

  /** So the rounded number, signed, is at most the exact one in RndD and at least in RndU,
      for every number whose exponent is within the range. */
  lemma Directed(f: Format, neg: bool, n: nat, e: int)
    requires n > 0 && f.range >= 2 && 3 - f.range <= e + BitLen(n) && (f.prec == PrecInf() ==> e + BitLen(n) < f.range)
    ensures var num := RoundOutcome(f, neg, n, e, false).num;
            (TowardsZero(f.mode, neg) ==> NotAbove(num, n, e)) && (AwayFromZero(f.mode, neg) ==> NotBelow(num, n, e))
  {
    RoundingCorrect(f, neg, n, e, false);
    var o := RoundOutcome(f, neg, n, e, false);
    var m: nat :| CorrectlyRounded(f, neg, n, e, false, o, m);
    if f.mode != RndF {
      Sides(f, neg, n, e, false, o, m);
      if SomeKept(f, n, e) { ExponentStays(f, neg, n, e, m); }
    }
  }

  /** When bits are kept, rounding does not lower the exponent, and raises it by at most one. */
  lemma ExponentStays(f: Format, neg: bool, n: nat, e: int, m: nat)
    requires n > 0 && f.mode != RndF && SomeKept(f, n, e) && Rounded(f.mode, neg, n, RoundedOff(f, n, e), m)
    ensures e + BitLen(n) <= RoundedExponent(f, n, e, m) <= e + BitLen(n) + 1
  {
    var q := RoundedOff(f, n, e);
    if q == 0 {
      NothingToRound(f.mode, neg, n);
      RoundedUnique(f.mode, neg, n, 0, m, n);
    } else {
      RoundToCorrect(f.mode, neg, n, q);
      RoundedUnique(f.mode, neg, n, q, m, RoundTo(f.mode, neg, n, q));
      RoundedBits(f.mode, neg, n, BitLen(n) - q);
    }
  }

  // -------------------------------------------------------------------- the smallest unit

  /** num is a multiple of 2^u. */
  ghost predicate MultipleOf(num: Number, u: int)
    requires num.NumFinite?
  {
    exists k: nat :: SameValue(num.m, num.s, k, u)
  }

  /** All finite numbers shown, subnormal ones and the largest one included, are multiples of
      2^(3 - range - prec); those with a larger exponent of the last place of theirs. */
  lemma SmallestUnit(f: Format, neg: bool, n: nat, e: int, lossy: bool, o: Outcome, m: nat)
    requires n > 0 && f.range >= 2 && f.prec >= 1 && !f.radpnt && CorrectlyRounded(f, neg, n, e, lossy, o, m) && o.num.NumFinite?
    ensures MultipleOf(o.num, 3 - f.range - f.prec)
    ensures RoundedExponent(f, n, e, m) <= f.range ==> MultipleOf(o.num, LastPlace(f, e + BitLen(n)))
  {
    var x, q := e + BitLen(n), RoundedOff(f, n, e);
    var u := LastPlace(f, x);
    if x > u && RoundedExponent(f, n, e, m) > f.range {
      CoarserUnit(o.num, T(f.prec) - 1, f.range - f.prec, 3 - f.range - f.prec);
    } else {
      CoarserUnit(o.num, m, e + q, u);
      if u < 3 - f.range - f.prec { NextPower(f, neg, n, e, m, o.num); } else { CoarserUnit(o.num, m, e + q, 3 - f.range - f.prec); }
    }
  }

  lemma CoarserUnit(num: Number, m: nat, s: int, u: int)
    requires num.NumFinite? && SameValue(num.m, num.s, m, s) && u <= s
    ensures MultipleOf(num, u)
  {
    var k := m * T(s - u);
    var c := Least(num.s, u);
    SameScale(num.m, num.s, m, s, c);
    SameScale(num.m, num.s, k, u, c);
    TAdd(s - u, u - c);
    MulAssoc(m, T(s - u), T(u - c));
  }

  /** Without subnormal numbers, only a number that is rounded up to the smallest one has a
      last place below the smallest unit. */
  lemma NextPower(f: Format, neg: bool, n: nat, e: int, m: nat, num: Number)
    requires n > 0 && f.prec >= 1 && !f.radpnt && !f.subnormal && num.NumFinite? && m > 0
    requires m <= T(if RoundedOff(f, n, e) > 0 then f.prec else BitLen(n)) && (RoundedOff(f, n, e) == 0 ==> m < T(BitLen(n)))
    requires e + BitLen(n) < 3 - f.range <= RoundedExponent(f, n, e, m) && SameValue(num.m, num.s, m, e + RoundedOff(f, n, e))
    ensures MultipleOf(num, 3 - f.range - f.prec)
  {
    var q := RoundedOff(f, n, e);
    BitLenBounds(m);
    if q == 0 {
      if BitLen(m) > BitLen(n) { TMono(BitLen(n), BitLen(m) - 1); }
    } else {
      if m < T(f.prec) && BitLen(m) > f.prec { TMono(f.prec, BitLen(m) - 1); }
      TZero();
      SameScale(T(f.prec), e + q, 1, e + q + f.prec, e + q);
      SameTransfer(num, m, e + q, 1, e + q + f.prec);
      TSucc(f.prec);
      BitLenUnique(T(f.prec), f.prec + 1);
      CoarserUnit(num, 1, e + q + f.prec, 3 - f.range - f.prec);
    }
  }

  lemma SameTransfer(num: Number, m: nat, s: int, m2: nat, s2: int)
    requires num.NumFinite? && SameValue(num.m, num.s, m, s) && SameValue(m, s, m2, s2)
    ensures SameValue(num.m, num.s, m2, s2)
  {
    var c := Least(num.s, Least(s, s2));
    SameScale(num.m, num.s, m, s, c);
    SameScale(m, s, m2, s2, c);
    SameScale(num.m, num.s, m2, s2, c);
  }
}
