/** Finite numbers of the bignum library and their rounding (libbf.c, 448-589). */
module Float {
  import opened Hints
  import opened Arith
  import opened Limbs
  import opened LimbOps
  import opened Bits
  import opened LimbBits
  import opened RoundSpec
  import opened RoundLimbs

  /** The format of a result: the precision, the range of exponents (1 << (exp_bits - 1)),
      whether there are subnormal numbers, whether the precision counts from the radix
      point, and the rounding mode. */
  datatype Format = Format(prec: nat, range: nat, subnormal: bool, radpnt: bool, mode: Mode)

  /** BF_PREC_INF */
  function PrecInf(): int
  {
    B / 4 - 1
  }

  function MinExp(f: Format): int { 3 - f.range }

  function MaxExp(f: Format): int { f.range }

  /** The number of bits that are kept of a number with the given exponent. */
  function Precision(f: Format, expn: int): int
  {
    if f.radpnt then (if f.prec != PrecInf() then expn + f.prec else f.prec)
    else if expn < MinExp(f) && f.subnormal then f.prec - (MinExp(f) - expn)
    else f.prec
  }

  // ---------------------------------------------------------------- what rounding gives

  /** A number with a sign: zero, infinity, or m * 2^s with the exponent expn, which says
      that the magnitude is in [2^(expn - 1), 2^expn). */
  datatype Number = NumZero(neg: bool) | NumInf(neg: bool) | NumFinite(neg: bool, expn: int, m: nat, s: int)

  datatype Status = Status(inexact: bool, underflow: bool, overflow: bool)

  datatype Outcome = Outcome(num: Number, status: Status)

  /** bf_set_overflow */
  ghost function Overflow(f: Format, neg: bool): Outcome
  {
    Outcome(
      if f.prec == PrecInf() || f.mode.RndN? || f.mode.RndNA? || f.mode.RndA? || (f.mode.RndD? && neg) || (f.mode.RndU? && !neg)
      then NumInf(neg)
      else NumFinite(neg, MaxExp(f), T(f.prec) - 1, MaxExp(f) - f.prec),
      Status(true, false, true))
  }

  /** The number n * 2^e, n positive with nb bits, rounded to the format; lossy is whether
      it is known to be inexact already. */
  ghost function RoundNumber(f: Format, neg: bool, n: nat, e: int, nb: nat, lossy: bool): Outcome
  {
    RoundKeeping(f, neg, n, e, nb, Precision(f, e + nb), lossy)
  }

  /** The same when prec bits are kept. */
  ghost function RoundKeeping(f: Format, neg: bool, n: nat, e: int, nb: nat, prec: int, lossy: bool): Outcome
  {
    var q := nb - prec;
    if prec <= 0 then
      DropAll(neg, RoundTo(f.mode, neg, n, q), e + q)
    else if q > 0 then
      var m := RoundTo(f.mode, neg, n, q);
      Finish(f, neg, if m == T(prec) then e + nb + 1 else e + nb, m, e + q, lossy || f.mode.RndF? || Lost(n, q))
    else
      Finish(f, neg, e + nb, n, e, lossy || f.mode.RndF?)
  }

  /** No bit is kept: the result is one unit or nothing. */
  ghost function DropAll(neg: bool, m: nat, s: int): Outcome
  {
    Outcome(if m > 0 then NumFinite(neg, s + 1, 1, s) else NumZero(neg), Status(true, true, false))
  }

  ghost predicate IsOutcome(f: Format, neg: bool, n: nat, e: int, lossy: bool, o: Outcome)
  {
    forall t :: AskFor(Subject.RoundedNumbers, t) ==> o == RoundNumber(f, neg, n, e, BitLen(n), lossy)
  }

  /** RoundNumber under a name that stays folded. */
  ghost function RoundOutcome(f: Format, neg: bool, n: nat, e: int, lossy: bool): (o: Outcome)
    requires n > 0
    ensures IsOutcome(f, neg, n, e, lossy, o)
  {
    assert IsOutcome(f, neg, n, e, lossy, RoundNumber(f, neg, n, e, BitLen(n), lossy));
    var o :| IsOutcome(f, neg, n, e, lossy, o);
    o
  }

  lemma OutcomeMeans(f: Format, neg: bool, n: nat, e: int, lossy: bool)
    requires n > 0
    ensures RoundOutcome(f, neg, n, e, lossy) == RoundNumber(f, neg, n, e, BitLen(n), lossy)
  {
    assert AskFor(Subject.RoundedNumbers, 0);
  }

  ghost predicate IsFinish(f: Format, neg: bool, expn: int, m: nat, s: int, inexact: bool, o: Outcome)
  {
    forall t :: AskFor(Subject.RangeChecks, t) ==> o == CheckRange(f, neg, expn, m, s, inexact)
  }

  /** CheckRange under a name that stays folded. */
  ghost function Finish(f: Format, neg: bool, expn: int, m: nat, s: int, inexact: bool): (o: Outcome)
    ensures IsFinish(f, neg, expn, m, s, inexact, o)
  {
    assert IsFinish(f, neg, expn, m, s, inexact, CheckRange(f, neg, expn, m, s, inexact));
    var o :| IsFinish(f, neg, expn, m, s, inexact, o);
    o
  }

  lemma FinishMeans(f: Format, neg: bool, expn: int, m: nat, s: int, inexact: bool)
    ensures Finish(f, neg, expn, m, s, inexact) == CheckRange(f, neg, expn, m, s, inexact)
  {
    assert AskFor(Subject.RangeChecks, 0);
  }

  /** Underflow and overflow. */
  ghost function CheckRange(f: Format, neg: bool, expn: int, m: nat, s: int, inexact: bool): Outcome
  {
    if expn < MinExp(f) && !f.subnormal then Outcome(NumZero(neg), Status(true, true, false))
    else if expn > MaxExp(f) then Overflow(f, neg)
    else Outcome(NumFinite(neg, expn, m, s), Status(inexact, inexact && expn < MinExp(f), false))
  }

  /** m1 * 2^s1 == m2 * 2^s2 */
  ghost predicate SameValue(m1: nat, s1: int, m2: nat, s2: int)
  {
    if s1 >= s2 then m1 * T(s1 - s2) == m2 else m1 == m2 * T(s2 - s1)
  }

  /** Equal values are equal at every common scale, and conversely. */
  lemma SameScale(m1: nat, s1: int, m2: nat, s2: int, c: int)
    requires c <= s1 && c <= s2
    ensures SameValue(m1, s1, m2, s2) <==> m1 * T(s1 - c) == m2 * T(s2 - c)
  {
    if s1 >= s2 {
      TAdd(s1 - s2, s2 - c);
      MulAssoc(m1, T(s1 - s2), T(s2 - c));
      CancelScale(m1 * T(s1 - s2), m2, T(s2 - c));
    } else {
      TAdd(s2 - s1, s1 - c);
      MulAssoc(m2, T(s2 - s1), T(s1 - c));
      CancelScale(m1, m2 * T(s2 - s1), T(s1 - c));
    }
  }

  lemma CancelScale(x: int, y: int, t: int)
    requires t >= 1
    ensures x * t == y * t <==> x == y
  {
    if x < y { MulStrict(x, y, t); }
    if y < x { MulStrict(y, x, t); }
  }

  // ------------------------------------------------------------- what the outcome means

  /** The outcome is the number n * 2^e. */
  ghost predicate IsNumber(num: Number, neg: bool, n: nat, e: int)
  {
    num.NumFinite? && num.neg == neg && SameValue(num.m, num.s, n, e)
  }

  /** The exponent of the unit in the last place that is kept of a number with the exponent
      expn. No number of a format with subnormal numbers has a smaller unit than
      2^(3 - range - prec). */
  function LastPlace(f: Format, expn: int): int
  {
    if f.radpnt && f.prec != B / 4 - 1 then 0 - f.prec
    else if !f.radpnt && f.subnormal && expn < 3 - f.range then 3 - f.range - f.prec
    else expn - f.prec
  }


  /** The modes in which a number beyond the range becomes infinite (section 7.4 of IEEE
      754-2008): all that do not round towards zero. */
  predicate OverflowsToInfinity(mode: Mode, neg: bool)
  {
    match mode
    case RndN | RndNA | RndA => true
    case RndD => neg
    case RndU => !neg
    case RndZ | RndF => false
  }

  /** What is shown for a number beyond the range: infinity, or the largest number of prec
      bits. */
  ghost predicate Beyond(f: Format, neg: bool, num: Number)
  {
    if f.prec == B / 4 - 1 || OverflowsToInfinity(f.mode, neg) then num == NumInf(neg)
    else IsNumber(num, neg, T(f.prec) - 1, f.range - f.prec) && num.expn == f.range
  }

  /** What becomes of m * 2^s, a number that is rounded to prec bits already: it is out of
      range, or nothing, or it is shown with its exponent. The range does not matter for a
      number of which no bit was kept. */
  ghost predicate Delivered(f: Format, neg: bool, m: nat, s: int, prec: int, num: Number)
  {
    var expn := s + BitLen(m);
    if m == 0 || (prec > 0 && expn < 3 - f.range && !f.subnormal) then num == NumZero(neg)
    else if prec > 0 && expn > f.range then Beyond(f, neg, num)
    else IsNumber(num, neg, m, s) && num.expn == expn
  }

  /** The low bits of n * 2^e that are rounded off. */
  function RoundedOff(f: Format, n: nat, e: int): nat
    requires n > 0
  {
    var u := LastPlace(f, e + BitLen(n));
    if u > e then u - e else 0
  }

  lemma KeptPlaces(f: Format, n: nat, e: int)
    requires n > 0
    ensures var prec := Precision(f, e + BitLen(n));
            prec == e + BitLen(n) - LastPlace(f, e + BitLen(n)) && RoundedOff(f, n, e) == DropCount(BitLen(n), prec)
  {}

  /** o is n * 2^e correctly rounded: there is a multiple of the last place that the mode asks
      for; it has no more bits than the format has, or is the next power of two; and the
      flags say whether the value changed and left the range. A number that is lossy stands
      for another one, and is inexact anyway. */
  ghost predicate CorrectlyRounded(f: Format, neg: bool, n: nat, e: int, lossy: bool, o: Outcome, m: nat)
    requires n > 0
  {
    var prec := e + BitLen(n) - LastPlace(f, e + BitLen(n));
    var q := RoundedOff(f, n, e);
    Rounded(f.mode, neg, n, q, m) && m <= T(if prec > 0 then if q > 0 then prec else BitLen(n) else 0) &&
    Delivered(f, neg, m, e + q, prec, o.num) &&
    (o.status.inexact <==> lossy || f.mode.RndF? || !IsNumber(o.num, neg, n, e)) &&
    (o.status.overflow <==> prec > 0 && e + q + BitLen(m) > f.range && (e + q + BitLen(m) < 3 - f.range ==> f.subnormal)) &&
    (o.status.underflow <==> prec <= 0 || (e + q + BitLen(m) < 3 - f.range && !o.status.overflow && (o.status.inexact || !f.subnormal)))
  }

  /** The exponents of a format reach from 3 - range to range, which is at least 4. */
  ghost predicate IsCorrect(f: Format, neg: bool, n: nat, e: int, lossy: bool, o: Outcome)
    requires n > 0
  {
    forall t :: AskFor(Subject.CorrectRounding, t) ==> f.range >= 2 ==> exists m: nat :: CorrectlyRounded(f, neg, n, e, lossy, o, m)
  }

  /** Rounding is correct: for every format and every number that is not zero. */
  lemma RoundingCorrect(f: Format, neg: bool, n: nat, e: int, lossy: bool)
    requires n > 0
    ensures IsCorrect(f, neg, n, e, lossy, RoundOutcome(f, neg, n, e, lossy))
    ensures f.range >= 2 ==> exists m: nat :: CorrectlyRounded(f, neg, n, e, lossy, RoundOutcome(f, neg, n, e, lossy), m)
  {
    if f.range >= 2 { CorrectOutcome(f, neg, n, e, lossy); }
  }

  lemma CorrectOutcome(f: Format, neg: bool, n: nat, e: int, lossy: bool)
    requires n > 0 && f.range >= 2
    ensures exists m: nat :: CorrectlyRounded(f, neg, n, e, lossy, RoundOutcome(f, neg, n, e, lossy), m)
  {
    var nb := BitLen(n);
    var prec := Precision(f, e + nb);
    OutcomeMeans(f, neg, n, e, lossy);
    if prec <= 0 {
      NoBitKept(f, neg, n, e, prec, lossy);
    } else if nb > prec {
      SomeBitsKept(f, neg, n, e, prec, lossy);
    } else {
      AllBitsKept(f, neg, n, e, prec, lossy);
    }
  }

  /** The rounded mantissa when no bit is kept: zero or one. */
  lemma OneOrNothing(mode: Mode, neg: bool, n: nat, q: nat)
    requires n > 0 && q >= BitLen(n)
    ensures RoundTo(mode, neg, n, q) <= 1
  {
    RoundToMeans(mode, neg, n, q);
    BitLenBounds(n);
    TMono(BitLen(n), q);
    DivModUnique(n, T(q), 0, n);
  }

  lemma BitLenOne()
    ensures BitLen(1) == 1
  {
    TZero();
    TSucc(0);
    BitLenUnique(1, 1);
  }

  lemma NoBitKept(f: Format, neg: bool, n: nat, e: int, prec: int, lossy: bool)
    requires n > 0 && prec == Precision(f, e + BitLen(n)) <= 0
    ensures exists m: nat :: CorrectlyRounded(f, neg, n, e, lossy, RoundNumber(f, neg, n, e, BitLen(n), lossy), m)
  {
    KeptPlaces(f, n, e);
    var q := BitLen(n) - prec;
    var m := RoundTo(f.mode, neg, n, q);
    RoundToCorrect(f.mode, neg, n, q);
    OneOrNothing(f.mode, neg, n, q);
    BitLenOne();
    TZero();
    SameItself(1, e + q);
    BitLenBounds(n);
    TMono(BitLen(n), q);
    assert CorrectlyRounded(f, neg, n, e, lossy, RoundNumber(f, neg, n, e, BitLen(n), lossy), m);
  }

  lemma SameItself(m: nat, s: int)
    ensures SameValue(m, s, m, s)
  {
    TZero();
  }

  /** A number of nb bits rounded to prec of them has prec bits, or is the next power. */
  lemma RoundedBits(mode: Mode, neg: bool, n: nat, prec: nat)
    requires n > 0 && 1 <= prec < BitLen(n)
    ensures var m := RoundTo(mode, neg, n, BitLen(n) - prec);
            T(prec - 1) <= m <= T(prec) && BitLen(m) == if m == T(prec) then prec + 1 else prec
  {
    var nb := BitLen(n);
    var q := nb - prec;
    var m := RoundTo(mode, neg, n, q);
    RoundToMeans(mode, neg, n, q);
    BitLenBounds(n);
    TopBits(n, nb, q);
    TAdd(prec, q);
    TopLess(n, T(q), T(prec), T(nb));
    TSucc(prec);
    TStrict(prec - 1, prec);
    if m == T(prec) { BitLenUnique(m, prec + 1); } else { BitLenUnique(m, prec); }
  }

  lemma SomeBitsKept(f: Format, neg: bool, n: nat, e: int, prec: nat, lossy: bool)
    requires n > 0 && prec == Precision(f, e + BitLen(n)) && 1 <= prec < BitLen(n) && f.range >= 2
    ensures exists m: nat :: CorrectlyRounded(f, neg, n, e, lossy, RoundNumber(f, neg, n, e, BitLen(n), lossy), m)
  {
    var q := BitLen(n) - prec;
    var m := RoundTo(f.mode, neg, n, q);
    RoundedSome(f.mode, neg, n, prec);
    KeptPlaces(f, n, e);
    FinishCorrect(f, neg, n, e, m, q, prec, lossy, lossy || f.mode.RndF? || Lost(n, q));
    assert CorrectlyRounded(f, neg, n, e, lossy, RoundNumber(f, neg, n, e, BitLen(n), lossy), m);
  }

  lemma RoundedSome(mode: Mode, neg: bool, n: nat, prec: nat)
    requires n > 0 && 1 <= prec < BitLen(n)
    ensures var q := BitLen(n) - prec; var m := RoundTo(mode, neg, n, q);
            Rounded(mode, neg, n, q, m) && 0 < m <= T(prec) && BitLen(m) == (if m == T(prec) then prec + 1 else prec) &&
            (Lost(n, q) <==> m * T(q) != n) && (Lost(n, q) <==> n % T(q) != 0)
  {
    var q := BitLen(n) - prec;
    RoundToCorrect(mode, neg, n, q);
    RoundedBits(mode, neg, n, prec);
    Exact(mode, neg, n, q);
    LostMeans(n, q);
  }

  lemma AllBitsKept(f: Format, neg: bool, n: nat, e: int, prec: nat, lossy: bool)
    requires n > 0 && prec == Precision(f, e + BitLen(n)) && BitLen(n) <= prec && f.range >= 2
    ensures exists m: nat :: CorrectlyRounded(f, neg, n, e, lossy, RoundNumber(f, neg, n, e, BitLen(n), lossy), m)
  {
    KeptPlaces(f, n, e);
    NothingToRound(f.mode, neg, n);
    TZero();
    BitLenBounds(n);
    FinishCorrect(f, neg, n, e, n, 0, prec, lossy, lossy || f.mode.RndF?);
    assert CorrectlyRounded(f, neg, n, e, lossy, RoundNumber(f, neg, n, e, BitLen(n), lossy), n);
  }

  /** The checks of the range. */
  lemma FinishCorrect(f: Format, neg: bool, n: nat, e: int, m: nat, q: nat, prec: nat, lossy: bool, inexact: bool)
    requires n > 0 && m > 0 && f.range >= 2 && prec == Precision(f, e + BitLen(n)) && prec >= 1 && q == DropCount(BitLen(n), prec)
    requires inexact <==> lossy || f.mode.RndF? || m * T(q) != n
    requires m * T(q) != n ==> n % T(q) != 0
    ensures var o := Finish(f, neg, e + q + BitLen(m), m, e + q, inexact); var x := e + q + BitLen(m);
            Delivered(f, neg, m, e + q, prec, o.num) && (o.status.inexact <==> lossy || f.mode.RndF? || !IsNumber(o.num, neg, n, e)) &&
            (o.status.overflow <==> x > MaxExp(f) && (x < MinExp(f) ==> f.subnormal)) &&
            (o.status.underflow <==> x < MinExp(f) && !o.status.overflow && (o.status.inexact || !f.subnormal))
  {
    var x := e + q + BitLen(m);
    FinishMeans(f, neg, x, m, e + q, inexact);
    SameItself(m, e + q);
    if x < MinExp(f) && !f.subnormal {
    } else if x > MaxExp(f) {
      LargestNotRounded(f, neg, n, e, m, q, prec);
    } else {
      SameScale(m, e + q, n, e, e);
      TZero();
    }
  }

  /** The largest number does not overflow, so an overflow to it changes the value. */
  lemma LargestNotRounded(f: Format, neg: bool, n: nat, e: int, m: nat, q: nat, prec: nat)
    requires n > 0 && f.range >= 2 && prec == Precision(f, e + BitLen(n)) && prec >= 1 && q == DropCount(BitLen(n), prec)
    requires m > 0 && e + q + BitLen(m) > MaxExp(f) && (m * T(q) != n ==> n % T(q) != 0)
    ensures !IsNumber(Overflow(f, neg).num, neg, n, e)
  {
    var p, num := f.prec, Overflow(f, neg).num;
    if IsNumber(num, neg, n, e) {
      LargestBits(p, MaxExp(f), n, e);
      if q == 0 { TZero(); } else { SameScale(num.m, num.s, n, e, e); }
      if q > 0 {
        var k := BitLen(n) - p;
        TZero();
        TAdd(k - q, q);
        MulAssoc(T(p) - 1, T(k - q), T(q));
        DivModUnique(n, T(q), (T(p) - 1) * T(k - q), 0);
      }
      BitLenShift(m, q);
    }
  }

  /** A positive number has bits. */
  lemma LargestPositive(p: nat, x: int, n: nat, e: int)
    requires n > 0 && SameValue(T(p) - 1, x - p, n, e)
    ensures p > 0
  {
    TZero();
    if x - p < e { MulMono(1, n, T(e - x + p)); }
  }

  /** The largest number of p bits with the exponent x, written as n * 2^e. */
  lemma LargestBits(p: nat, x: int, n: nat, e: int)
    requires n > 0 && SameValue(T(p) - 1, x - p, n, e)
    ensures p > 0 && e + BitLen(n) == x
  {
    LargestPositive(p, x, n, e);
    var c := if x - p < e then x - p else e;
    SameScale(T(p) - 1, x - p, n, e, c);
    TSucc(p - 1);
    BitLenUnique(T(p) - 1, p);
    BitLenShift(T(p) - 1, x - p - c);
    BitLenShift(n, e - c);
  }

  // -------------------------------------------------------------------- the last steps

  /** The limbs from i on move to the start of the buffer. */
  method MoveDown(tab: array<Limb>, i: nat, l: nat)
    requires i <= l <= tab.Length
    modifies tab
    ensures tab[..][..l - i] == old(tab[..])[i..l]
  {
    ghost var s := tab[..];
    var k := 0;
    while k < l - i
      invariant 0 <= k <= l - i
      invariant tab[..][..k] == s[i..i + k]
      invariant forall j :: k + i <= j < l ==> tab[j] == s[j]
    {
      tab[k] := tab[k + i];
      assert tab[..][..k + 1] == tab[..][..k] + [s[i + k]];
      assert s[i..i + (k + 1)] == s[i..i + k] + [s[i + k]];
      k := k + 1;
    }
    assert s[i..i + (l - i)] == s[i..l];
  }

  method FirstNonZero(tab: array<Limb>, pos: nat, l: nat) returns (i: nat)
    requires pos < l <= tab.Length && W(tab[..], pos, l - pos) > 0
    ensures pos <= i < l && tab[i] != 0
    ensures W(tab[..], i, l - i) * P(i - pos) == W(tab[..], pos, l - pos)
  {
    ghost var s := tab[..];
    i := pos;
    while i < l && tab[i] == 0
      invariant pos <= i <= l
      invariant forall j :: pos <= j < i ==> s[j] == 0
    {
      i := i + 1;
    }
    ZerosBelow(s, pos, i, l);
  }

  lemma ZerosBelow(s: seq<Limb>, pos: nat, i: nat, l: nat)
    requires pos <= i <= l <= |s| && forall j :: pos <= j < i ==> s[j] == 0
    ensures W(s, pos, l - pos) == W(s, i, l - i) * P(i - pos) && (i == l ==> W(s, pos, l - pos) == 0)
  {
    ValZeros(s[pos..i]);
    assert s[pos..pos + (i - pos)] == s[pos..i];
    WSplit(s, pos, i - pos, l - i);
    if i == l { WZero(s, l); }
  }

  /** Zero limbs at the low end are dropped. */
  method DropZeros(tab: array<Limb>, pos: nat, l: nat) returns (len: nat)
    requires pos < l <= tab.Length && W(tab[..], pos, l - pos) > 0
    modifies tab
    ensures 1 <= len <= l - pos && tab[0] != 0 && tab[len - 1] == old(tab[l - 1])
    ensures W(tab[..], 0, len) * P(l - pos - len) == W(old(tab[..]), pos, l - pos)
  {
    ghost var s := tab[..];
    var i := FirstNonZero(tab, pos, l);
    MoveDown(tab, i, l);
    len := l - i;
    assert tab[0] == tab[..][..l - i][0];
    assert tab[len - 1] == tab[..][..l - i][l - i - 1];
    assert tab[..][0..0 + len] == s[i..i + len];
  }

  // ------------------------------------------------------------------------ the numbers

  /** A row whose top bit is set. */
  lemma NormalBits(s: seq<Limb>, l: nat)
    requires 1 <= l <= |s|
    ensures s[l - 1] >= B / 2 <==> W(s, 0, l) >= T(l * LB() - 1)
    ensures s[l - 1] >= B / 2 ==> W(s, 0, l) > 0 && BitLen(W(s, 0, l)) == l * LB()
  {
    var w := s[0..0 + l];
    ValTop(w, B / 2);
    HalfBase();
    MulMono(1, l, LB());
    TSucc(l * LB() - 1);
    TLimbs(l);
    PSucc(l - 1);
    HalfTimes(B, P(l - 1), T(l * LB() - 1));
    WBound(s, 0, l);
    if s[l - 1] >= B / 2 { BitLenUnique(W(s, 0, l), l * LB()); }
  }

  lemma HalfTimes(b: nat, p: nat, t: nat)
    requires b / 2 * 2 == b && 2 * t == b * p
    ensures (b / 2) * p == t
  {
    MulAssoc(2, b / 2, p);
  }

  /** From the rounded limbs to the value of the result. */
  lemma FinalValue(v: nat, len: nat, w: nat, k: nat, m: nat, shift: nat, d: nat, expn: int)
    requires len <= k && v * P(k - len) == w && w * T(d) == m * T(shift)
    ensures SameValue(v, expn - len * LB(), m, expn - d - k * LB() + shift)
  {
    var c := expn - d - k * LB();
    Distrib(k, len, LB());
    MulMono(len, k, LB());
    TLimbs(k - len);
    TAdd((k - len) * LB(), d);
    MulAssoc(v, P(k - len), T(d));
    SameScale(v, expn - len * LB(), m, c + shift, c);
  }

  /** The bits kept of a number with l limbs, from limb pos = q / LIMB_BITS on. */
  lemma KeptBits(s: seq<Limb>, l: nat, q: nat)
    requires 1 <= l <= |s| && q < l * LB() && s[l - 1] >= B / 2
    ensures var pos, shift, n := q / LB(), q % LB(), W(s, 0, l);
            pos < l && shift < LB() && Shr(n, q) == W(s, pos, l - pos) / T(shift) && Shr(n, q) >= T(l * LB() - q - 1)
  {
    ShrMeans(W(s, 0, l), q);
    var pos, shift, n := q / LB(), q % LB(), W(s, 0, l);
    LimbInside(q, l);
    BitPosition(q);
    NormalBits(s, l);
    TLimbs(pos);
    WindowShift(s, l, pos);
    DivDiv(n, pos * LB(), shift);
    TopBits(n, l * LB(), q);
  }

  lemma WindowShift(s: seq<Limb>, l: nat, pos: nat)
    requires pos <= l <= |s|
    ensures W(s, 0, l) / P(pos) == W(s, pos, l - pos)
  {
    WSplit(s, 0, pos, l - pos);
    WBound(s, 0, pos);
    DivModUnique(W(s, 0, l), P(pos), W(s, pos, l - pos), W(s, 0, pos));
  }

  lemma TopBits(n: nat, bits: nat, q: nat)
    requires q < bits && n >= T(bits - 1)
    ensures n / T(q) >= T(bits - q - 1)
  {
    TAdd(bits - q - 1, q);
    TopKept(n, T(q), T(bits - q - 1));
  }

  /** The unit that is added, compared with the limbs it is added to. */
  lemma UnitSize(l: nat, q: nat)
    requires q < l * LB() && q / LB() < l
    ensures var pos, shift := q / LB(), q % LB();
            2 * T(shift) <= P(l - pos) && P(l - pos) % (2 * T(shift)) == 0 && T(l * LB() - q) * T(shift) == P(l - pos)
  {
    var pos, shift := q / LB(), q % LB();
    var prec := l * LB() - q;
    BitPosition(q);
    Distrib(l, pos, LB());
    TLimbs(l - pos);
    TAdd(prec, shift);
    TAdd(prec - 1, shift + 1);
    TSucc(shift);
    MulMono(1, T(prec - 1), 2 * T(shift));
    DivModUnique(P(l - pos), 2 * T(shift), T(prec - 1), 0);
  }

  lemma TopKept(n: nat, t: nat, c: nat)
    requires t >= 1 && n >= c * t
    ensures n / t >= c
  {
    DivMod(n, t);
    if n / t < c { MulMono(n / t + 1, c, t); Distrib(n / t, 1, t); }
  }

  // ------------------------------------------------------- the values behind the steps

  /** The number of bits dropped, if any. */
  function DropCount(bits: nat, prec: int): nat
  {
    if bits > prec then bits - prec else 0
  }

  function Dropped(l: nat, prec: int): nat
  {
    DropCount(l * LB(), prec)
  }

  /** The outcome when prec of the bits of n are kept. */
  ghost function KeptOutcome(f: Format, neg: bool, n: nat, expn: int, bits: nat, prec: int, add: bool, inexact: bool): Outcome
    requires prec >= 1
  {
    var m := Shr(n, DropCount(bits, prec)) + (if add then 1 else 0);
    Finish(f, neg, if bits > prec && m == T(prec) then expn + 1 else expn, m, expn - bits + DropCount(bits, prec), inexact)
  }

  /** The rounded mantissa. */
  ghost function Mantissa(s: seq<Limb>, l: nat, prec: int, add: bool): nat
    requires l <= |s|
  {
    Shr(W(s, 0, l), Dropped(l, prec)) + (if add then 1 else 0)
  }

  /** t is what the optional addition of a unit leaves of s. */
  ghost predicate AfterUnit(s: seq<Limb>, t: seq<Limb>, l: nat, prec: int, add: bool, carry: bool)
  {
    1 <= l <= |s| == |t| && s[l - 1] >= B / 2 && prec >= 1 &&
    var q := Dropped(l, prec);
    var pos, shift := q / LB(), q % LB();
    pos < l && (add ==> q > 0) &&
    var x, w := W(s, pos, l - pos), W(t, pos, l - pos);
    if !add then w == x && !carry
    else if carry then x + T(shift) >= P(l - pos) && w == (x + T(shift)) / 2
    else w == x + T(shift)
  }

  lemma DroppedInside(l: nat, prec: int)
    requires l >= 1 && prec >= 1
    ensures Dropped(l, prec) < l * LB() && Dropped(l, prec) / LB() < l
  {
    MulMono(1, l, LB());
    LimbInside(Dropped(l, prec), l);
  }

  /** Only a number of all ones carries out of the top. */
  lemma CarryMeans(s: seq<Limb>, t: seq<Limb>, l: nat, prec: int, add: bool, carry: bool)
    requires AfterUnit(s, t, l, prec, add, carry)
    ensures carry <==> l * LB() > prec && Mantissa(s, l, prec, add) == T(prec)
  {
    var q := Dropped(l, prec);
    var pos, shift := q / LB(), q % LB();
    var x, w := W(s, pos, l - pos), W(t, pos, l - pos);
    DroppedInside(l, prec);
    KeptBits(s, l, q);
    UnitSize(l, q);
    WBound(s, pos, l - pos);
    WBound(t, pos, l - pos);
    if l * LB() > prec {
      if add {
        UnitAdded(x, l - pos, shift, carry, w);
        CancelScale(Mantissa(s, l, prec, add), T(prec), T(shift));
      } else {
        TopLess(x, T(shift), T(prec), P(l - pos));
      }
    }
  }

  lemma TopLess(x: nat, t: nat, c: nat, p: nat)
    requires t >= 1 && c * t == p && x < p
    ensures x / t < c
  {
    DivMod(x, t);
    if x / t >= c { MulMono(c, x / t, t); }
  }

  /** The limbs that are kept, after the low bits are cleared. */
  lemma TrimValue(s: seq<Limb>, t: seq<Limb>, w2: nat, l: nat, prec: int, add: bool, carry: bool)
    requires AfterUnit(s, t, l, prec, add, carry)
    requires var q := Dropped(l, prec); w2 == W(t, q / LB(), l - q / LB()) / T(q % LB()) * T(q % LB())
    ensures var q := Dropped(l, prec);
            w2 * T(if carry then 1 else 0) == Mantissa(s, l, prec, add) * T(q % LB()) && w2 >= T((l - q / LB()) * LB() - 1)
  {
    var q := Dropped(l, prec);
    var pos, shift := q / LB(), q % LB();
    var x, w := W(s, pos, l - pos), W(t, pos, l - pos);
    DroppedInside(l, prec);
    KeptBits(s, l, q);
    UnitSize(l, q);
    WBound(s, pos, l - pos);
    WBound(t, pos, l - pos);
    TZero();
    TSucc(0);
    if add { UnitAdded(x, l - pos, shift, carry, w); }
    TrimTop(l, q, w2, Mantissa(s, l, prec, add), carry);
  }

  lemma TrimTop(l: nat, q: nat, w2: nat, m: nat, carry: bool)
    requires q < l * LB() && q / LB() < l && m >= T(l * LB() - q - 1) && w2 * T(if carry then 1 else 0) == m * T(q % LB())
    requires carry ==> m * T(q % LB()) == P(l - q / LB())
    ensures w2 >= T((l - q / LB()) * LB() - 1)
  {
    var pos, shift := q / LB(), q % LB();
    BitPosition(q);
    Distrib(l, pos, LB());
    MulMono(1, l - pos, LB());
    TLimbs(l - pos);
    TSucc((l - pos) * LB() - 1);
    TZero();
    TSucc(0);
    if !carry {
      TAdd(l * LB() - q - 1, shift);
      MulMono(T(l * LB() - q - 1), m, T(shift));
    }
  }

  /** The value of the result. */
  lemma TrimDone(v: nat, len: nat, w2: nat, l: nat, prec: int, m: nat, carry: bool, expn: int)
    requires l >= 1 && prec >= 1 && len <= l - Dropped(l, prec) / LB() && Dropped(l, prec) / LB() < l
    requires v * P(l - Dropped(l, prec) / LB() - len) == w2
    requires w2 * T(if carry then 1 else 0) == m * T(Dropped(l, prec) % LB())
    ensures SameValue(v, expn - len * LB(), m, expn - (if carry then 1 else 0) - l * LB() + Dropped(l, prec))
  {
    var q := Dropped(l, prec);
    BitPosition(q);
    Distrib(l, q / LB(), LB());
    FinalValue(v, len, w2, l - q / LB(), m, q % LB(), if carry then 1 else 0, expn);
  }

  /** When no bit is kept, the rounded mantissa is 0 or 1. */
  lemma AllDropped(f: Format, neg: bool, n: nat, e: int, nb: nat, lossy: bool, add: bool, inexact: bool)
    requires n > 0 && nb == BitLen(n) && Precision(f, e + nb) <= 0
    requires Decision(f.mode, neg, n, nb - Precision(f, e + nb), add, inexact)
    ensures RoundOutcome(f, neg, n, e, lossy) == DropAll(neg, if add then 1 else 0, e + nb - Precision(f, e + nb))
  {
    NothingLeft(f.mode, neg, n, nb - Precision(f, e + nb), add, inexact);
    OutcomeMeans(f, neg, n, e, lossy);
  }

  lemma NothingLeft(mode: Mode, neg: bool, n: nat, q: nat, add: bool, inexact: bool)
    requires n > 0 && q >= BitLen(n) && Decision(mode, neg, n, q, add, inexact)
    ensures RoundTo(mode, neg, n, q) == if add then 1 else 0
  {
    DecisionRounds(mode, neg, n, q, add, inexact);
    ShrMeans(n, q);
    BitLenBounds(n);
    TMono(BitLen(n), q);
    DivModUnique(n, T(q), 0, n);
  }

  lemma SomeKept(f: Format, neg: bool, n: nat, e: int, bits: nat, prec: int, lossy: bool, add: bool, inexact: bool)
    requires n > 0 && BitLen(n) == bits && prec == Precision(f, e + bits) && prec >= 1
    requires Decision(f.mode, neg, n, bits - prec, add, inexact)
    ensures add ==> prec < bits
    ensures RoundOutcome(f, neg, n, e, lossy) == KeptOutcome(f, neg, n, e + bits, bits, prec, add, inexact || lossy)
  {
    DecisionRounds(f.mode, neg, n, bits - prec, add, inexact);
    OutcomeMeans(f, neg, n, e, lossy);
    ShrNone(n);
  }

  lemma UnitValue(s: seq<Limb>, x: int)
    requires |s| >= 1 && s[0] == B / 2
    ensures SameValue(W(s, 0, 1), x - LB(), 1, x - 1)
  {
    WCons(s, 0, 1);
    WZero(s, 1);
    HalfBase();
    TLimb();
    TSucc(LB() - 1);
    assert x - 1 - (x - LB()) == LB() - 1;
  }

  /** The largest mantissa of prec bits. */
  method AllOnes(l: nat, z: nat) returns (t: array<Limb>)
    requires l >= 1 && z < LB()
    ensures fresh(t) && t.Length == l && t[l - 1] >= B / 2 && t[0] != 0
    ensures W(t[..], 0, l) == P(l) - T(z)
  {
    TLimb();
    TStrict(z, LB());
    HalfBase();
    t := new Limb[l](_ => B - 1);
    t[0] := B - T(z);
    OnesValue(t[..], l, z);
  }

  lemma {:induction false} OnesValue(s: seq<Limb>, n: nat, z: nat)
    requires 1 <= n <= |s| && T(z) < B && s[0] == B - T(z) && forall i :: 1 <= i < n ==> s[i] == B - 1
    ensures W(s, 0, n) == P(n) - T(z)
  {
    if n == 1 {
      WCons(s, 0, 1);
      WZero(s, 1);
      PZero();
      PSucc(0);
    } else {
      OnesValue(s, n - 1, z);
      WSnoc(s, 0, n - 1);
      PSucc(n - 1);
      Distrib(B, 1, P(n - 1));
    }
  }

  lemma CeilLimbs(prec: nat)
    requires prec >= 1
    ensures var l := (prec + LB() - 1) / LB(); l >= 1 && prec <= l * LB() < prec + LB()
  {
    var l := (prec + LB() - 1) / LB();
    DivMod(prec + LB() - 1, LB());
    if l <= 0 { MulMono(l, 0, LB()); }
  }

  lemma LargestValue(w: nat, prec: nat, l: nat, z: nat, x: int)
    requires l * LB() == prec + z && w == P(l) - T(z)
    ensures SameValue(w, x - l * LB(), T(prec) - 1, x - prec)
  {
    TLimbs(l);
    TAdd(prec, z);
    Distrib(T(prec), 1, T(z));
    SameScale(w, x - l * LB(), T(prec) - 1, x - prec, x - l * LB());
    TZero();
  }

  /** The optional addition of a unit. */
  method AddUnitIf(tab: array<Limb>, l: nat, prec: int, add: bool) returns (carry: bool)
    requires 1 <= l <= tab.Length && tab[l - 1] >= B / 2 && prec >= 1 && (add ==> prec < l * LB())
    modifies tab
    ensures AfterUnit(old(tab[..]), tab[..], l, prec, add, carry)
    ensures carry <==> l * LB() > prec && Mantissa(old(tab[..]), l, prec, add) == T(prec)
  {
    ghost var s := tab[..];
    DroppedInside(l, prec);
    carry := false;
    if add {
      var q := Dropped(l, prec);
      carry := AddUnit(tab, q / LB(), l, q % LB());
    }
    CarryMeans(s, tab[..], l, prec, add, carry);
  }

  /** The bits that are not kept are cleared. */
  method ClearDropped(tab: array<Limb>, ghost s: seq<Limb>, l: nat, prec: int, ghost add: bool, ghost carry: bool) returns (pos: nat, ghost w: nat)
    requires l <= tab.Length && AfterUnit(s, tab[..], l, prec, add, carry)
    modifies tab
    ensures pos == Dropped(l, prec) / LB() < l && w == W(tab[..], pos, l - pos) && w > 0 && tab[l - 1] >= B / 2
    ensures w * T(if carry then 1 else 0) == Mantissa(s, l, prec, add) * T(Dropped(l, prec) % LB())
  {
    ghost var t := tab[..];
    DroppedInside(l, prec);
    var q := Dropped(l, prec);
    pos := q / LB();
    ClearLow(tab, pos, l, q % LB());
    w := W(tab[..], pos, l - pos);
    TrimValue(s, t, w, l, prec, add, carry);
    TopOfWindow(tab[..], pos, l);
  }

  lemma TopOfWindow(u: seq<Limb>, pos: nat, l: nat)
    requires pos < l <= |u| && (l - pos) * LB() >= 1 && W(u, pos, l - pos) >= T((l - pos) * LB() - 1)
    ensures u[l - 1] >= B / 2
  {
    assert u[pos..][0..0 + (l - pos)] == u[pos..pos + (l - pos)];
    NormalBits(u[pos..], l - pos);
  }

  datatype Kind = Zero | Inf | NaN | Finite

  class Bf {
    var neg: bool
    var kind: Kind
    var expn: int
    var tab: array<Limb>
    var len: nat

    constructor ()
      ensures kind == Zero && !neg && fresh(tab)
    {
      neg, kind, expn, len := false, Zero, 0, 0;
      tab := new Limb[0];
    }

    /** The top bit of the mantissa is set and its lowest limb is not zero. */
    ghost predicate Normal()
      reads this, tab
    {
      kind == Finite && 1 <= len <= tab.Length && tab[len - 1] >= B / 2 && tab[0] != 0
    }

    /** The object holds the number. */
    ghost predicate Shows(num: Number)
      reads this, tab
    {
      match num
      case NumZero(n) => kind == Zero && neg == n && len == 0
      case NumInf(n) => kind == Inf && neg == n && len == 0
      case NumFinite(n, x, m, s) =>
        Normal() && neg == n && expn == x && SameValue(W(tab[..], 0, len), expn - len * LB(), m, s)
    }

    /** bf_set_overflow: infinity, or the largest number of prec bits. */
    method SetOverflow(f: Format)
      requires f.prec >= 1
      modifies this
      ensures neg == old(neg) && Shows(Overflow(f, neg).num) && (fresh(tab) || tab == old(tab))
      ensures if f.prec == B / 4 - 1 || OverflowsToInfinity(f.mode, neg) then kind == Inf && len == 0
              else Normal() && expn == f.range && SameValue(W(tab[..], 0, len), expn - len * LB(), T(f.prec) - 1, f.range - f.prec)
    {
      if f.prec == PrecInf() || f.mode.RndN? || f.mode.RndNA? || f.mode.RndA? || (f.mode.RndD? && neg) || (f.mode.RndU? && !neg) {
        kind, len := Inf, 0;
      } else {
        var l := (f.prec + LB() - 1) / LB();
        CeilLimbs(f.prec);
        var z := l * LB() - f.prec;
        tab := AllOnes(l, z);
        len, kind, expn := l, Finite, MaxExp(f);
        LargestValue(W(tab[..], 0, l), f.prec, l, z, MaxExp(f));
      }
    }

    /** __bf_round: the first l limbs are the mantissa. */
    method Round(l: nat, f: Format, lossy: bool) returns (st: Status)
      requires kind == Finite && 1 <= l <= tab.Length && tab[l - 1] >= B / 2
      requires f.prec >= 1 || expn < MaxExp(f)
      modifies this, tab
      ensures neg == old(neg) && (fresh(tab) || tab == old(tab))
      ensures var n, e := W(old(tab[..]), 0, l), old(expn) - l * LB();
              n > 0 && var o := RoundOutcome(f, neg, n, e, lossy); Shows(o.num) && st == o.status && IsCorrect(f, neg, n, e, lossy, o)
    {
      NormalBits(tab[..], l);
      ghost var n, e := W(tab[..], 0, l), expn - l * LB();
      RoundingCorrect(f, neg, n, e, lossy);
      var prec := Precision(f, expn);
      var add, inexact := GetRndAdd(tab, l, neg, prec, f.mode);
      if prec <= 0 {
        AllDropped(f, neg, n, e, l * LB(), lossy, add, inexact);
        st := RoundAway(expn - prec, add);
      } else {
        SomeKept(f, neg, n, e, l * LB(), prec, lossy, add, inexact);
        st := RoundKept(l, f, prec, add, inexact || lossy, RoundOutcome(f, neg, n, e, lossy));
      }
    }

    /** No bit is kept. */
    method RoundAway(s: int, add: bool) returns (st: Status)
      requires tab.Length >= 1
      modifies this, tab
      ensures neg == old(neg) && tab == old(tab)
      ensures var o := DropAll(neg, if add then 1 else 0, s); Shows(o.num) && st == o.status
    {
      if add {
        SetUnit(s + 1);
      } else {
        kind, len := Zero, 0;
      }
      st := Status(true, true, false);
    }

    /** The number 2^(x - 1). */
    method SetUnit(x: int)
      requires tab.Length >= 1
      modifies this, tab
      ensures neg == old(neg) && tab == old(tab) && len == 1 && tab[0] == B / 2 && Shows(NumFinite(neg, x, 1, x - 1))
    {
      tab[0] := B / 2;
      len, kind, expn := 1, Finite, x;
      UnitValue(tab[..], x);
    }

    /** The case that at least one bit is kept. */
    method RoundKept(l: nat, f: Format, prec: int, add: bool, inexact: bool, ghost o: Outcome) returns (st: Status)
      requires kind == Finite && 1 <= l <= tab.Length && tab[l - 1] >= B / 2 && prec >= 1
      requires add ==> prec < l * LB()
      requires f.prec >= 1 || expn < MaxExp(f)
      requires o == KeptOutcome(f, neg, W(tab[..], 0, l), expn, l * LB(), prec, add, inexact)
      modifies this, tab
      ensures neg == old(neg) && (fresh(tab) || tab == old(tab)) && Shows(o.num) && st == o.status
    {
      ghost var s := tab[..];
      var carry := AddUnitIf(tab, l, prec, add);
      if carry { expn := expn + 1; }
      st := Conclude(s, l, f, prec, add, carry, inexact, o);
    }

    /** Underflow, overflow, or the rounded number. */
    method Conclude(ghost s: seq<Limb>, l: nat, f: Format, prec: int, ghost add: bool, ghost carry: bool, inexact: bool, ghost o: Outcome) returns (st: Status)
      requires kind == Finite && 1 <= l <= tab.Length && AfterUnit(s, tab[..], l, prec, add, carry)
      requires f.prec >= 1 || expn <= MaxExp(f)
      requires o == Finish(f, neg, expn, Mantissa(s, l, prec, add), expn - (if carry then 1 else 0) - l * LB() + Dropped(l, prec), inexact)
      modifies this, tab
      ensures neg == old(neg) && (fresh(tab) || tab == old(tab)) && Shows(o.num) && st == o.status
    {
      FinishMeans(f, neg, expn, Mantissa(s, l, prec, add), expn - (if carry then 1 else 0) - l * LB() + Dropped(l, prec), inexact);
      if expn < MinExp(f) && !f.subnormal {
        kind, len := Zero, 0;
        return Status(true, true, false);
      }
      if expn > MaxExp(f) {
        SetOverflow(f);
        return Status(true, false, true);
      }
      st := Status(inexact, inexact && expn < MinExp(f), false);
      Trim(s, l, prec, add, carry);
    }

    /** The bits that are not kept are cleared and zero limbs are removed. */
    method Trim(ghost s: seq<Limb>, l: nat, prec: int, ghost add: bool, ghost carry: bool)
      requires kind == Finite && 1 <= l <= tab.Length && AfterUnit(s, tab[..], l, prec, add, carry)
      modifies this`len, tab
      ensures Shows(NumFinite(neg, expn, Mantissa(s, l, prec, add), expn - (if carry then 1 else 0) - l * LB() + Dropped(l, prec)))
    {
      var pos;
      ghost var w;
      pos, w := ClearDropped(tab, s, l, prec, add, carry);
      len := DropZeros(tab, pos, l);
      TrimDone(W(tab[..], 0, len), len, w, l, prec, Mantissa(s, l, prec, add), carry, expn);
    }
  }
}
