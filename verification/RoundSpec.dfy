/** Correct rounding (section 4.3 of IEEE 754-2008, and the modes away and faithful):
    what it is, and that the rule of bf_get_rnd_add (libbf.c, 391-446) achieves it. */
module RoundSpec {
  import opened Hints
  import opened Arith
  import opened Bits

  /** To nearest even, to zero, down, up, to nearest away, away, faithful. */
  datatype Mode = RndN | RndZ | RndD | RndU | RndNA | RndA | RndF

  // ------------------------------------------------------------------ what it means

  /** m is n / 2^q rounded towards zero. */
  ghost predicate Below(n: nat, q: nat, m: nat)
  {
    m * T(q) <= n < (m + 1) * T(q)
  }

  /** m is n / 2^q rounded away from zero. */
  ghost predicate Above(n: nat, q: nat, m: nat)
  {
    (m - 1) * T(q) < n <= m * T(q)
  }

  /** No multiple of 2^q is nearer to n than m * 2^q. */
  ghost predicate Nearest(n: nat, q: nat, m: nat)
  {
    (2 * m - 1) * T(q) <= 2 * n <= (2 * m + 1) * T(q)
  }

  ghost predicate TieAbove(n: nat, q: nat, m: nat)
  {
    2 * n == (2 * m + 1) * T(q)
  }

  ghost predicate TieBelow(n: nat, q: nat, m: nat)
  {
    2 * n == (2 * m - 1) * T(q)
  }

  /** m is the correct result of rounding n / 2^q, the magnitude of a number with the
      given sign, to an integer. */
  ghost predicate Rounded(mode: Mode, neg: bool, n: nat, q: nat, m: nat)
  {
    match mode
    case RndZ => Below(n, q, m)
    case RndA => Above(n, q, m)
    case RndD => if neg then Above(n, q, m) else Below(n, q, m)
    case RndU => if neg then Below(n, q, m) else Above(n, q, m)
    case RndN => Nearest(n, q, m) && (TieAbove(n, q, m) || TieBelow(n, q, m) ==> m % 2 == 0)
    case RndNA => Nearest(n, q, m) && !TieAbove(n, q, m)
    case RndF => Below(n, q, m) || Above(n, q, m)
  }

  /** In every mode but the faithful one there is only one correct result. */
  lemma RoundedUnique(mode: Mode, neg: bool, n: nat, q: nat, m1: nat, m2: nat)
    requires mode != RndF && Rounded(mode, neg, n, q, m1) && Rounded(mode, neg, n, q, m2)
    ensures m1 == m2
  {
    if m1 < m2 {
      OnlyOne(mode, neg, n, q, m1, m2);
    } else if m2 < m1 {
      OnlyOne(mode, neg, n, q, m2, m1);
    }
  }

  lemma OnlyOne(mode: Mode, neg: bool, n: nat, q: nat, m1: nat, m2: nat)
    requires mode != RndF && Rounded(mode, neg, n, q, m1) && Rounded(mode, neg, n, q, m2)
    ensures m2 <= m1
  {
    var t := T(q);
    MulSteps(m1, m2, t);
  }

  /** Between different multiples there is at least one unit. */
  lemma MulSteps(m1: int, m2: int, t: int)
    requires t >= 1
    ensures m1 < m2 ==> (m1 + 1) * t <= m2 * t && m1 * t <= (m2 - 1) * t && (2 * m1 + 1) * t <= (2 * m2 - 1) * t
    ensures m1 + 1 < m2 ==> (2 * m1 + 1) * t < (2 * m2 - 1) * t
  {
    if m1 < m2 {
      MulMono(m1 + 1, m2, t);
      MulMono(m1, m2 - 1, t);
      MulMono(2 * m1 + 1, 2 * m2 - 1, t);
    }
    if m1 + 1 < m2 { MulStrict(2 * m1 + 1, 2 * m2 - 1, t); }
  }

  // ---------------------------------------------------------------- the rule of the code

  /** The bit behind the last one that is kept. */
  function RoundBit(n: nat, q: nat): bool
  {
    q >= 1 && (n / T(q - 1)) % 2 == 1
  }

  /** Whether any bit behind that one is set. */
  function Sticky(n: nat, q: nat): bool
  {
    q >= 1 && n % T(q - 1) != 0
  }

  /** bf_get_rnd_add: whether to add one to the bits that are kept. */
  function AddOne(mode: Mode, neg: bool, odd: bool, bit1: bool, bit0: bool): bool
  {
    match mode
    case RndZ => false
    case RndN => bit1 && (bit0 || odd)
    case RndD => neg && (bit1 || bit0)
    case RndU => !neg && (bit1 || bit0)
    case RndA => bit1 || bit0
    case RndNA => bit1
    case RndF => bit1
  }

  /** What bf_get_rnd_add finds out when q bits of n are dropped: whether to add one, and
      whether the result is inexact. */
  ghost predicate Decision(mode: Mode, neg: bool, n: nat, q: int, add: bool, inexact: bool)
  {
    forall t :: AskFor(Subject.RoundingRules, t) ==>
      (q <= 0 ==> !add) &&
      (q > 0 ==> add == AddOne(mode, neg, (n / T(q)) % 2 == 1, RoundBit(n, q), Sticky(n, q))) &&
      inexact == (mode == RndF || (q > 0 && n % T(q) != 0))
  }

  /** n / 2^q rounded by that rule. */
  function RoundBits(mode: Mode, neg: bool, n: nat, q: nat): nat
  {
    var h := n / T(q);
    if AddOne(mode, neg, h % 2 == 1, RoundBit(n, q), Sticky(n, q)) then h + 1 else h
  }

  ghost predicate IsRoundTo(mode: Mode, neg: bool, n: nat, q: nat, m: nat)
  {
    forall t :: AskFor(Subject.RoundedMantissas, t) ==> m == RoundBits(mode, neg, n, q)
  }

  /** RoundBits under a name that stays folded. */
  ghost function RoundTo(mode: Mode, neg: bool, n: nat, q: nat): (m: nat)
    ensures IsRoundTo(mode, neg, n, q, m)
  {
    assert IsRoundTo(mode, neg, n, q, RoundBits(mode, neg, n, q));
    var m :| IsRoundTo(mode, neg, n, q, m);
    m
  }

  lemma RoundToMeans(mode: Mode, neg: bool, n: nat, q: nat)
    ensures RoundTo(mode, neg, n, q) == RoundBits(mode, neg, n, q)
  {
    assert AskFor(Subject.RoundedMantissas, 0);
  }

  /** Whether dropping q bits changes n. */
  ghost predicate Lost(n: nat, q: nat)
  {
    exists r: nat :: r != 0 && IsRest(n, q, r)
  }

  ghost predicate IsRest(n: nat, q: nat, r: nat)
  {
    forall t :: AskFor(Subject.RoundedMantissas, t) ==> r == n % T(q)
  }

  lemma LostMeans(n: nat, q: nat)
    ensures Lost(n, q) <==> n % T(q) != 0
  {
    assert AskFor(Subject.RoundedMantissas, 0);
    assert IsRest(n, q, n % T(q));
  }

  /** The decision leads to the rounded number. */
  lemma DecisionRounds(mode: Mode, neg: bool, n: nat, q: int, add: bool, inexact: bool)
    requires Decision(mode, neg, n, q, add, inexact)
    ensures q <= 0 ==> !add && inexact == mode.RndF?
    ensures q > 0 ==> RoundTo(mode, neg, n, q) == Shr(n, q) + (if add then 1 else 0) && inexact == (mode.RndF? || Lost(n, q))
  {
    assert AskFor(Subject.RoundingRules, 0);
    if q > 0 {
      RoundToMeans(mode, neg, n, q);
      LostMeans(n, q);
      ShrMeans(n, q);
    }
  }

  /** The number is the kept bits, the round bit and the rest. */
  lemma BitsOf(n: nat, q: nat)
    requires q >= 1
    ensures var h, low := n / T(q), n % T(q - 1);
            n == h * T(q) + (if RoundBit(n, q) then T(q - 1) else 0) + low && T(q) == 2 * T(q - 1)
  {
    TSucc(q - 1);
    var t := T(q - 1);
    DivMod(n, t);
    var u := n / t;
    DivDiv(n, q - 1, 1);
    TZero();
    TSucc(0);
    assert n / T(q) == u / 2;
    assert u == 2 * (u / 2) + u % 2;
    Distrib(2 * (u / 2), u % 2, t);
    MulAssoc(u / 2, 2, t);
  }

  /** The rule rounds correctly, in every mode. */
  lemma RoundToCorrect(mode: Mode, neg: bool, n: nat, q: nat)
    ensures Rounded(mode, neg, n, q, RoundTo(mode, neg, n, q))
  {
    var h := n / T(q);
    RoundToMeans(mode, neg, n, q);
    if q == 0 {
      NothingToRound(mode, neg, n);
    } else if AddOne(mode, neg, h % 2 == 1, RoundBit(n, q), Sticky(n, q)) {
      CarryCorrect(mode, neg, n, q, h);
    } else {
      KeepCorrect(mode, neg, n, q, h);
    }
  }

  lemma NothingToRound(mode: Mode, neg: bool, n: nat)
    ensures RoundTo(mode, neg, n, 0) == n && Rounded(mode, neg, n, 0, n)
  {
    RoundToMeans(mode, neg, n, 0);
    TZero();
  }

  lemma KeepCorrect(mode: Mode, neg: bool, n: nat, q: nat, h: nat)
    requires q >= 1 && h == n / T(q) && !AddOne(mode, neg, h % 2 == 1, RoundBit(n, q), Sticky(n, q))
    ensures Rounded(mode, neg, n, q, h)
  {
    BitsOf(n, q);
    Expand(h, T(q));
  }

  lemma CarryCorrect(mode: Mode, neg: bool, n: nat, q: nat, h: nat)
    requires q >= 1 && h == n / T(q) && AddOne(mode, neg, h % 2 == 1, RoundBit(n, q), Sticky(n, q))
    ensures Rounded(mode, neg, n, q, h + 1)
  {
    BitsOf(n, q);
    Expand(h + 1, T(q));
  }

  lemma Expand(m: int, t: int)
    ensures (m + 1) * t == m * t + t && (m - 1) * t == m * t - t
    ensures (2 * m + 1) * t == 2 * (m * t) + t && (2 * m - 1) * t == 2 * (m * t) - t
  {}

  /** The result differs from the number exactly when some bit is lost, that is when the
      round bit or the sticky bit is set. */
  lemma Exact(mode: Mode, neg: bool, n: nat, q: nat)
    ensures Lost(n, q) <==> RoundTo(mode, neg, n, q) * T(q) != n
    ensures Lost(n, q) <==> RoundBit(n, q) || Sticky(n, q)
  {
    var m := RoundTo(mode, neg, n, q);
    RoundToMeans(mode, neg, n, q);
    LostMeans(n, q);
    DivMod(n, T(q));
    if m * T(q) == n { DivModUnique(n, T(q), m, 0); }
    if q == 0 {
      TZero();
    } else {
      BitsOf(n, q);
    }
  }

  lemma DroppedBits(n: nat, q: nat)
    ensures n % T(q) != 0 <==> RoundBit(n, q) || Sticky(n, q)
  {
    Exact(RndZ, false, n, q);
    LostMeans(n, q);
  }

  // ------------------------------------------------------------------------ sticky bits

  /** The upper part of a number, with its lowest bit set if the lower part is not zero. */
  function WithSticky(hi: nat, lost: bool): nat
  {
    if lost && hi % 2 == 0 then hi + 1 else hi
  }

  /** Compared with an even number, the shortened number stands where the whole does. */
  lemma StickyCompare(hi: nat, lo: nat, k: nat, c: int)
    requires lo < T(k) && c % 2 == 0
    ensures var r, n := WithSticky(hi, lo != 0), hi * T(k) + lo;
            (r < c <==> n < c * T(k)) && (r > c <==> n > c * T(k))
  {
    var r, n, t := WithSticky(hi, lo != 0), hi * T(k) + lo, T(k);
    Distrib(hi, 1, t);
    if hi < c {
      MulMono(hi + 1, c, t);
    } else if hi == c {
    } else {
      MulMono(c + 1, hi, t);
      Distrib(c, 1, t);
    }
  }

  /** Rounding the shortened number is rounding the whole: nothing that was dropped below
      the sticky bit matters when at least two bits are rounded off. */
  lemma StickyRounded(mode: Mode, neg: bool, hi: nat, lo: nat, k: nat, q: nat, m: nat)
    requires lo < T(k) && q >= 2
    ensures Rounded(mode, neg, WithSticky(hi, lo != 0), q, m) <==> Rounded(mode, neg, hi * T(k) + lo, q + k, m)
  {
    var r, n := WithSticky(hi, lo != 0), hi * T(k) + lo;
    var t := T(q - 1);
    TSucc(q - 1);
    TSucc(q - 2);
    TAdd(q, k);
    Grid(hi, lo, k, q, m);
    Grid(hi, lo, k, q, m + 1);
    Grid(hi, lo, k, q, m - 1);
    HalfGrid(hi, lo, k, q, 2 * m + 1);
    HalfGrid(hi, lo, k, q, 2 * m - 1);
  }

  /** Comparison with m * 2^q. */
  lemma Grid(hi: nat, lo: nat, k: nat, q: nat, m: int)
    requires lo < T(k) && q >= 1
    ensures var r, n := WithSticky(hi, lo != 0), hi * T(k) + lo;
            (r < m * T(q) <==> n < m * T(q + k)) && (r > m * T(q) <==> n > m * T(q + k))
  {
    TSucc(q - 1);
    TAdd(q, k);
    MulAssoc(m, T(q), T(k));
    EvenProduct(m, T(q - 1));
    StickyCompare(hi, lo, k, m * T(q));
  }

  /** Comparison with half of c * 2^q. */
  lemma HalfGrid(hi: nat, lo: nat, k: nat, q: nat, c: int)
    requires lo < T(k) && q >= 2
    ensures var r, n := WithSticky(hi, lo != 0), hi * T(k) + lo;
            (2 * r < c * T(q) <==> 2 * n < c * T(q + k)) && (2 * r > c * T(q) <==> 2 * n > c * T(q + k))
  {
    Grid(hi, lo, k, q - 1, c);
    TSucc(q - 1);
    TSucc(q - 1 + k);
    Twice(c, T(q - 1));
    Twice(c, T(q - 1 + k));
  }

  lemma Twice(c: int, t: int)
    ensures c * (2 * t) == 2 * (c * t)
  {}

  lemma EvenProduct(m: int, t: int)
    ensures (m * (2 * t)) % 2 == 0
  {
    Twice(m, t);
  }
}
