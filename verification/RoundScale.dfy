/** Rounding depends on the value only: scaling a mantissa changes nothing, and neither
    does replacing low bits by a sticky bit, if two bits or more are rounded off. */
module RoundScale {
  import opened Hints
  import opened Arith
  import opened Bits
  import opened RoundSpec
  import opened Float

  ghost predicate SameNumber(a: Number, b: Number)
  {
    match a
    case NumZero(n) => b == a
    case NumInf(n) => b == a
    case NumFinite(n, x, m, s) => b.NumFinite? && b.neg == n && b.expn == x && SameValue(m, s, b.m, b.s)
  }

  ghost predicate SameOutcome(a: Outcome, b: Outcome)
  {
    a.status == b.status && SameNumber(a.num, b.num)
  }

  lemma SameRefl(m: nat, s: int)
    ensures SameValue(m, s, m, s)
  {
    TZero();
  }

  lemma SameTrans(m1: nat, s1: int, m2: nat, s2: int, m3: nat, s3: int)
    requires SameValue(m1, s1, m2, s2) && SameValue(m2, s2, m3, s3)
    ensures SameValue(m1, s1, m3, s3)
  {
    var c := if s1 <= s2 && s1 <= s3 then s1 else if s2 <= s3 then s2 else s3;
    SameScale(m1, s1, m2, s2, c);
    SameScale(m2, s2, m3, s3, c);
    SameScale(m1, s1, m3, s3, c);
  }

  // -------------------------------------------------------------------------- scaling

  lemma ScaleDivMod(n: nat, j: nat, k: nat)
    ensures (n * T(k)) / T(j + k) == n / T(j) && (n * T(k)) % T(j + k) == (n % T(j)) * T(k)
  {
    TAdd(j, k);
    var a, b := T(j), T(k);
    DivMod(n, a);
    var q, r := n / a, n % a;
    Distrib(q * a, r, b);
    MulAssoc(q, a, b);
    MulMono(r, a - 1, b);
    Distrib(a, 1, b);
    MulNonNeg(r, b);
    DivModUnique(n * b, a * b, q, r * b);
  }

  lemma RoundToScale(mode: Mode, neg: bool, n: nat, q: nat, k: nat)
    requires q >= 1
    ensures RoundTo(mode, neg, n * T(k), q + k) == RoundTo(mode, neg, n, q)
    ensures Lost(n * T(k), q + k) <==> Lost(n, q)
  {
    RoundToMeans(mode, neg, n, q);
    RoundToMeans(mode, neg, n * T(k), q + k);
    LostMeans(n, q);
    LostMeans(n * T(k), q + k);
    ScaleDivMod(n, q, k);
    ScaleDivMod(n, q - 1, k);
    CancelScale(n % T(q), 0, T(k));
    CancelScale(n % T(q - 1), 0, T(k));
  }

  /** A multiple of 2^q is not changed. */
  lemma RoundToExact(mode: Mode, neg: bool, c: nat, q: nat)
    ensures RoundTo(mode, neg, c * T(q), q) == c && !Lost(c * T(q), q)
  {
    var n := c * T(q);
    DivModUnique(n, T(q), c, 0);
    LostMeans(n, q);
    Exact(mode, neg, n, q);
    CancelScale(RoundTo(mode, neg, n, q), c, T(q));
  }

  /** Rounding n * 2^e with a longer mantissa. */
  lemma RoundScaled(f: Format, neg: bool, n: nat, e: int, k: nat, lossy: bool)
    requires n > 0
    ensures n * T(k) > 0 && SameOutcome(RoundOutcome(f, neg, n * T(k), e - k, lossy), RoundOutcome(f, neg, n, e, lossy))
  {
    MulMono(1, n, T(k));
    BitLenShift(n, k);
    ScaledNumber(f, neg, n, e, BitLen(n), k, lossy);
    BothMean(f, neg, n * T(k), e - k, BitLen(n) + k, n, e, lossy);
  }

  lemma BothMean(f: Format, neg: bool, n1: nat, e1: int, nb1: nat, n2: nat, e2: int, lossy: bool)
    requires n1 > 0 && n2 > 0 && BitLen(n1) == nb1
    requires SameOutcome(RoundNumber(f, neg, n1, e1, nb1, lossy), RoundNumber(f, neg, n2, e2, BitLen(n2), lossy))
    ensures SameOutcome(RoundOutcome(f, neg, n1, e1, lossy), RoundOutcome(f, neg, n2, e2, lossy))
  {
    OutcomeMeans(f, neg, n1, e1, lossy);
    OutcomeMeans(f, neg, n2, e2, lossy);
  }

  lemma ScaledNumber(f: Format, neg: bool, n: nat, e: int, nb: nat, k: nat, lossy: bool)
    requires n > 0 && nb == BitLen(n)
    ensures SameOutcome(RoundNumber(f, neg, n * T(k), e - k, nb + k, lossy), RoundNumber(f, neg, n, e, nb, lossy))
  {
    var prec := Precision(f, e + nb);
    if nb > prec {
      RoundToScale(f.mode, neg, n, nb - prec, k);
      KeepSame(f, neg, n * T(k), n, e - k, nb, k, prec, lossy);
    } else if nb + k <= prec {
      ScaledWhole(f, neg, n, e, nb, k, lossy, prec);
    } else {
      ScaledExact(f, neg, n, e, nb, k, lossy, prec);
    }
  }

  /** The same bits are kept of both numbers. */
  lemma KeepSame(f: Format, neg: bool, n: nat, r: nat, e: int, nb: nat, k: nat, prec: int, lossy: bool)
    requires nb > prec && RoundTo(f.mode, neg, n, nb - prec + k) == RoundTo(f.mode, neg, r, nb - prec)
    requires Lost(n, nb - prec + k) <==> Lost(r, nb - prec)
    ensures SameOutcome(RoundKeeping(f, neg, n, e, nb + k, prec, lossy), RoundKeeping(f, neg, r, e + k, nb, prec, lossy))
  {
    SameItself(RoundKeeping(f, neg, r, e + k, nb, prec, lossy));
  }

  lemma SameItself(o: Outcome)
    ensures SameOutcome(o, o)
  {
    if o.num.NumFinite? { SameRefl(o.num.m, o.num.s); }
  }

  /** All bits of the longer mantissa are kept. */
  lemma ScaledWhole(f: Format, neg: bool, n: nat, e: int, nb: nat, k: nat, lossy: bool, prec: int)
    requires 0 < nb && nb + k <= prec
    ensures SameOutcome(RoundKeeping(f, neg, n * T(k), e - k, nb + k, prec, lossy), RoundKeeping(f, neg, n, e, nb, prec, lossy))
  {
    ScaledValue(n, e, k);
    FinishSame(f, neg, e + nb, n * T(k), e - k, n, e, lossy || f.mode.RndF?);
  }

  /** Only zeros of the longer mantissa are dropped. */
  lemma ScaledExact(f: Format, neg: bool, n: nat, e: int, nb: nat, k: nat, lossy: bool, prec: int)
    requires n > 0 && nb == BitLen(n) && nb <= prec < nb + k
    ensures SameOutcome(RoundKeeping(f, neg, n * T(k), e - k, nb + k, prec, lossy), RoundKeeping(f, neg, n, e, nb, prec, lossy))
  {
    var j := prec - nb;
    ZerosDropped(f.mode, neg, n, nb, j, k - j);
    ScaledValue(n, e, j);
    FinishSame(f, neg, e + nb, n * T(j), e - j, n, e, lossy || f.mode.RndF?);
  }

  lemma ZerosDropped(mode: Mode, neg: bool, n: nat, nb: nat, j: nat, q: nat)
    requires n > 0 && nb == BitLen(n)
    ensures RoundTo(mode, neg, n * T(j + q), q) == n * T(j) && !Lost(n * T(j + q), q) && n * T(j) < T(nb + j)
  {
    TAdd(j, q);
    MulAssoc(n, T(j), T(q));
    RoundToExact(mode, neg, n * T(j), q);
    BitLenBounds(n);
    TAdd(nb, j);
    MulStrict(n, T(nb), T(j));
  }

  lemma ScaledValue(n: nat, e: int, k: nat)
    ensures SameValue(n * T(k), e - k, n, e)
  {
    TZero();
  }

  lemma FinishSame(f: Format, neg: bool, expn: int, m1: nat, s1: int, m2: nat, s2: int, inexact: bool)
    requires SameValue(m1, s1, m2, s2)
    ensures SameOutcome(Finish(f, neg, expn, m1, s1, inexact), Finish(f, neg, expn, m2, s2, inexact))
  {
    FinishMeans(f, neg, expn, m1, s1, inexact);
    FinishMeans(f, neg, expn, m2, s2, inexact);
    SameItself(Overflow(f, neg));
  }

  // -------------------------------------------------------------------------- sticky bits

  /** The rule of the code treats the faithful mode as to nearest away. */
  lemma FaithfulNearest(neg: bool, n: nat, q: nat)
    ensures RoundTo(RndF, neg, n, q) == RoundTo(RndNA, neg, n, q)
  {
    RoundToMeans(RndF, neg, n, q);
    RoundToMeans(RndNA, neg, n, q);
  }

  lemma RoundToSticky(mode: Mode, neg: bool, hi: nat, lo: nat, k: nat, q: nat)
    requires lo < T(k) && q >= 2
    ensures RoundTo(mode, neg, WithSticky(hi, lo != 0), q) == RoundTo(mode, neg, hi * T(k) + lo, q + k)
  {
    var r, n := WithSticky(hi, lo != 0), hi * T(k) + lo;
    FaithfulNearest(neg, r, q);
    FaithfulNearest(neg, n, q + k);
    var mode1 := if mode == RndF then RndNA else mode;
    var m := RoundTo(mode1, neg, r, q);
    RoundToCorrect(mode1, neg, r, q);
    StickyRounded(mode1, neg, hi, lo, k, q, m);
    OnlyRounded(mode1, neg, n, q + k, m);
  }

  lemma OnlyRounded(mode: Mode, neg: bool, n: nat, q: nat, m: nat)
    requires mode != RndF && Rounded(mode, neg, n, q, m)
    ensures m == RoundTo(mode, neg, n, q)
  {
    RoundToCorrect(mode, neg, n, q);
    RoundedUnique(mode, neg, n, q, m, RoundTo(mode, neg, n, q));
  }

  lemma LostSticky(hi: nat, lo: nat, k: nat, q: nat)
    requires lo < T(k) && q >= 2
    ensures Lost(WithSticky(hi, lo != 0), q) <==> Lost(hi * T(k) + lo, q + k)
  {
    var r, n := WithSticky(hi, lo != 0), hi * T(k) + lo;
    LostMeans(r, q);
    LostMeans(n, q + k);
    var m := RoundTo(RndZ, false, r, q);
    RoundToSticky(RndZ, false, hi, lo, k, q);
    RoundToMeans(RndZ, false, r, q);
    RoundToMeans(RndZ, false, n, q + k);
    DivMod(r, T(q));
    DivMod(n, T(q + k));
    Grid(hi, lo, k, q, m);
  }

  lemma BitLenSticky(hi: nat, lo: nat, k: nat)
    requires hi > 0 && lo < T(k)
    ensures var r := WithSticky(hi, lo != 0); BitLen(hi * T(k) + lo) == BitLen(r) + k && BitLen(r) == BitLen(hi)
  {
    var r, n, nb := WithSticky(hi, lo != 0), hi * T(k) + lo, BitLen(hi);
    BitLenBounds(hi);
    if nb == 1 {
      TZero();
      TSucc(0);
    } else {
      TSucc(nb - 1);
    }
    BitLenUnique(r, nb);
    TAdd(nb - 1, k);
    TAdd(nb, k);
    MulMono(T(nb - 1), hi, T(k));
    MulMono(hi + 1, T(nb), T(k));
    Distrib(hi, 1, T(k));
    BitLenUnique(n, nb + k);
  }

  lemma StickyNumber(f: Format, neg: bool, n: nat, r: nat, k: nat, e: int, lossy: bool, prec: int)
    requires n > 0 && r > 0 && BitLen(n) == BitLen(r) + k && prec == Precision(f, e + k + BitLen(r)) && BitLen(r) > prec
    requires var q := BitLen(r) - prec; RoundTo(f.mode, neg, n, q + k) == RoundTo(f.mode, neg, r, q) && (Lost(n, q + k) <==> Lost(r, q))
    ensures SameOutcome(RoundOutcome(f, neg, n, e, lossy), RoundOutcome(f, neg, r, e + k, lossy))
  {
    KeepSame(f, neg, n, r, e, BitLen(r), k, prec, lossy);
    BothMean(f, neg, n, e, BitLen(r) + k, r, e + k, lossy);
  }

  /** Rounding a number whose low part is kept as a sticky bit only. */
  lemma RoundSticky(f: Format, neg: bool, hi: nat, lo: nat, k: nat, e: int, lossy: bool)
    requires hi > 0 && lo < T(k)
    requires lo != 0 ==> BitLen(hi) - Precision(f, e + k + BitLen(hi)) >= 2
    ensures var n, r := hi * T(k) + lo, WithSticky(hi, lo != 0);
            n > 0 && r > 0 && SameOutcome(RoundOutcome(f, neg, n, e, lossy), RoundOutcome(f, neg, r, e + k, lossy))
  {
    var n, r := hi * T(k) + lo, WithSticky(hi, lo != 0);
    MulMono(1, hi, T(k));
    if lo == 0 {
      RoundScaled(f, neg, hi, e + k, k, lossy);
    } else {
      BitLenSticky(hi, lo, k);
      var prec := Precision(f, e + k + BitLen(hi));
      var q := BitLen(hi) - prec;
      RoundToSticky(f.mode, neg, hi, lo, k, q);
      LostSticky(hi, lo, k, q);
      StickyNumber(f, neg, n, r, k, e, lossy, prec);
    }
  }
}
