/** Numbers digit by digit in base 2^LIMB_BITS, whatever their length, and reading a limb
    at any bit position (libbf.c, 309-339). */
module Digits {
  import opened Hints
  import opened Arith
  import opened Limbs
  import opened LimbOps
  import opened Bits
  import opened LimbBits

  ghost predicate IsDigit(n: nat, i: nat, d: Limb)
  {
    forall t :: AskFor(Subject.LimbDigits, t) ==> d == (n / P(i)) % B
  }

  /** Digit i of n, under a name that stays folded. */
  ghost function Digit(n: nat, i: nat): (d: Limb)
    ensures IsDigit(n, i, d)
  {
    assert IsDigit(n, i, (n / P(i)) % B);
    var d :| IsDigit(n, i, d);
    d
  }

  ghost predicate IsLow(n: nat, i: nat, r: nat)
  {
    forall t :: AskFor(Subject.LimbDigits, t) ==> r == n % P(i)
  }

  /** The part of n below digit i. */
  ghost function Low(n: nat, i: nat): (r: nat)
    ensures IsLow(n, i, r)
  {
    assert IsLow(n, i, n % P(i));
    var r :| IsLow(n, i, r);
    r
  }

  lemma DigitMeans(n: nat, i: nat)
    ensures Digit(n, i) == (n / P(i)) % B && Low(n, i) == n % P(i)
  {
    assert AskFor(Subject.LimbDigits, 0);
  }

  lemma LowZero(n: nat)
    ensures Low(n, 0) == 0
  {
    DigitMeans(n, 0);
    PZero();
  }

  /** Small numbers have no high digits. */
  lemma LowAll(n: nat, i: nat)
    requires n < P(i)
    ensures Low(n, i) == n && Digit(n, i) == 0
  {
    DigitMeans(n, i);
    DivModUnique(n, P(i), 0, n);
  }

  lemma LowStep(n: nat, i: nat)
    ensures Low(n, i + 1) == Low(n, i) + Digit(n, i) * P(i)
  {
    DigitMeans(n, i);
    DigitMeans(n, i + 1);
    PSucc(i);
    var p := P(i);
    DivMod(n, p);
    var h := n / p;
    DivMod(h, B);
    var r := n % p + (h % B) * p;
    Distrib((h / B) * B, h % B, p);
    MulAssoc(h / B, B, p);
    MulMono(h % B, B - 1, p);
    Distrib(B, 1, p);
    MulNonNeg(h % B, p);
    DivModUnique(n, B * p, h / B, r);
  }

  /** Digits of a row of limbs. */
  lemma DigitInRow(s: seq<Limb>, len: nat, i: nat)
    requires i < len <= |s|
    ensures Digit(W(s, 0, len), i) == s[i]
  {
    var w, h := W(s, 0, len), W(s, i, len - i);
    DigitMeans(w, i);
    WSplit(s, 0, i, len - i);
    WBound(s, 0, i);
    DivModUnique(w, P(i), h, W(s, 0, i));
    WCons(s, i, len - i);
    LowestLimb(s[i], W(s, i + 1, len - i - 1));
  }

  lemma LowestLimb(x: Limb, rest: nat)
    ensures (x + rest * B) % B == x
  {
    DivModUnique(x + rest * B, B, rest, x);
  }

  lemma DigitOfRow(s: seq<Limb>, len: nat, i: nat)
    requires len <= |s|
    ensures Digit(W(s, 0, len), i) == if i < len then s[i] else 0
  {
    if i < len {
      DigitInRow(s, len, i);
    } else {
      WBound(s, 0, len);
      PMono(len, i);
      LowAll(W(s, 0, len), i);
    }
  }

  // ------------------------------------------------------------------------ get_bits

  /** The limb at bit position pos, which may be negative. */
  ghost predicate IsBits(n: nat, pos: int, v: int)
  {
    if pos >= 0 then v == (n / T(pos)) % B else v == (n * T(-pos)) % B
  }

  /** Of a number times a power of two, modulo the base. */
  lemma ModScaled(y: nat, x: nat, rest: nat, p: nat)
    requires p <= LB() && y == x + rest * B
    ensures (y * T(LB() - p)) % B == (x % T(p)) * T(LB() - p) && 0 <= (x % T(p)) * T(LB() - p) < B
  {
    var t, u := T(p), T(LB() - p);
    TLimb();
    TAdd(p, LB() - p);
    DivMod(x, t);
    var q, r := x / t, x % t;
    assert y * u == (q + rest * u) * B + r * u by { ModAlgebra(q, t, r, rest, u); }
    MulMono(r, t - 1, u);
    Distrib(t, 1, u);
    MulNonNeg(r, u);
    DivModUnique(y * u, B, q + rest * u, r * u);
  }

  lemma ModAlgebra(q: int, t: int, r: int, rest: int, u: int)
    ensures (q * t + r + rest * (t * u)) * u == (q + rest * u) * (t * u) + r * u
  {
    Distrib(q * t + r, rest * (t * u), u);
    Distrib(q * t, r, u);
    MulAssoc(q, t, u);
    Distrib(q, rest * u, t * u);
    MulAssoc(rest, t * u, u);
    MulComm(t * u, u);
    MulAssoc(rest, u, t * u);
  }

  /** The limb that straddles two limbs of a row. */
  lemma Straddle(s: seq<Limb>, len: nat, i: nat, p: nat)
    requires i < len <= |s| && p < LB()
    ensures var a1 := if i + 1 < len then s[i + 1] as nat else 0;
            (W(s, 0, len) / (P(i) * T(p))) % B == s[i] / T(p) + (a1 % T(p)) * T(LB() - p) &&
            0 <= s[i] / T(p) + (a1 % T(p)) * T(LB() - p) < B
  {
    var a1 := if i + 1 < len then s[i + 1] as nat else 0;
    var y := W(s, i + 1, len - i - 1);
    CutAt(s, len, i, p);
    var rest := 0;
    if i + 1 < len {
      WCons(s, i + 1, len - i - 1);
      rest := W(s, i + 2, len - i - 2);
    } else {
      WZero(s, i + 1);
    }
    ModScaled(y, a1, rest, p);
    StraddleSum(s[i], p, y, a1 % T(p));
  }

  lemma StraddleSum(x: Limb, p: nat, y: nat, c: nat)
    requires p < LB() && c < T(p) && (y * T(LB() - p)) % B == c * T(LB() - p)
    ensures (x / T(p) + y * T(LB() - p)) % B == x / T(p) + c * T(LB() - p) && 0 <= x / T(p) + c * T(LB() - p) < B
  {
    var t, u := T(p), T(LB() - p);
    TLimb();
    TAdd(p, LB() - p);
    HighPart(x, t, u);
    SumBelow(x / t, c, t, u);
    DivMod(y * u, B);
    DivModUnique(x / t + y * u, B, (y * u) / B, x / t + c * u);
  }

  lemma HighPart(x: nat, t: nat, u: nat)
    requires t >= 1 && x < t * u
    ensures 0 <= x / t < u
  {
    DivMod(x, t);
    if x / t >= u { MulMono(u, x / t, t); MulComm(u, t); }
  }

  lemma SumBelow(h: nat, c: nat, t: nat, u: nat)
    requires h < u && c < t
    ensures 0 <= h + c * u < t * u
  {
    MulMono(c, t - 1, u);
    Distrib(t, 1, u);
    MulNonNeg(c, u);
  }

  /** get_bits */
  method GetBits(tab: array<Limb>, len: nat, pos: int) returns (v: Limb)
    requires len <= tab.Length
    ensures IsBits(W(tab[..], 0, len), pos, v)
  {
    ghost var n := W(tab[..], 0, len);
    var i, p := pos / LB(), pos % LB();
    DivMod(pos, LB());
    var a0: Limb := if 0 <= i < len then tab[i] else 0;
    var a1: Limb := if 0 <= i + 1 < len then tab[i + 1] else 0;
    TZero();
    TLimb();
    BitsAt(tab[..], len, pos, i, p, a0, a1);
    v := if p == 0 then a0 else a0 / T(p) + (a1 % T(p)) * T(LB() - p);
  }

  lemma BitsAt(s: seq<Limb>, len: nat, pos: int, i: int, p: nat, a0: Limb, a1: Limb)
    requires len <= |s| && pos == i * LB() + p && p < LB()
    requires a0 == (if 0 <= i < len then s[i] else 0) && a1 == (if 0 <= i + 1 < len then s[i + 1] else 0)
    ensures var v := a0 / T(p) + (a1 % T(p)) * T(LB() - p); 0 <= v < B && IsBits(W(s, 0, len), pos, v) && (p == 0 ==> v == a0)
  {
    WholeLimb(a0, a1, p);
    if i >= 0 {
      BitsInside(s, len, pos, i, p, a0, a1);
    } else {
      ZeroLimb(p);
      if i == -1 {
        BitsEdge(s, len, p, a1);
      } else {
        BitsBelow(W(s, 0, len), pos, i, p);
      }
    }
  }

  lemma WholeLimb(a0: nat, a1: nat, p: nat)
    ensures p == 0 ==> a0 / T(p) == a0 && a1 % T(p) == 0
  {
    TZero();
  }

  lemma ZeroLimb(p: nat)
    ensures 0 / T(p) == 0 && 0 % T(p) == 0
  {}

  lemma BitsInside(s: seq<Limb>, len: nat, pos: nat, i: nat, p: nat, a0: Limb, a1: Limb)
    requires len <= |s| && pos == i * LB() + p && p < LB()
    requires a0 == (if i < len then s[i] else 0) && a1 == (if i + 1 < len then s[i + 1] else 0)
    ensures var v := a0 / T(p) + (a1 % T(p)) * T(LB() - p); 0 <= v < B && v == (W(s, 0, len) / T(pos)) % B
  {
    TAdd(i * LB(), p);
    TLimbs(i);
    if i < len {
      Straddle(s, len, i, p);
    } else {
      BitsAbove(s, len, pos, i, p);
    }
  }

  lemma BitsAbove(s: seq<Limb>, len: nat, pos: nat, i: nat, p: nat)
    requires len <= |s| && len <= i && p < LB() && pos == i * LB() + p && T(pos) == P(i) * T(p)
    ensures 0 / T(p) + (0 % T(p)) * T(LB() - p) == 0 && (W(s, 0, len) / T(pos)) % B == 0
  {
    ZeroLimb(p);
    WBound(s, 0, len);
    PMono(len, i);
    MulMono(1, T(p), P(i));
    DivModUnique(W(s, 0, len), T(pos), 0, W(s, 0, len));
  }

  lemma BitsEdge(s: seq<Limb>, len: nat, p: nat, a1: Limb)
    requires len <= |s| && p < LB() && a1 == (if 0 < len then s[0] else 0)
    ensures (W(s, 0, len) * T(LB() - p)) % B == (a1 % T(p)) * T(LB() - p) && 0 <= (a1 % T(p)) * T(LB() - p) < B
  {
    var rest := 0;
    if len > 0 {
      WCons(s, 0, len);
      rest := W(s, 1, len - 1);
    } else {
      WZero(s, 0);
    }
    ModScaled(W(s, 0, len), a1, rest, p);
  }

  lemma BitsBelow(n: nat, pos: int, i: int, p: nat)
    requires pos == i * LB() + p && p < LB() && i <= -2
    ensures pos < 0 && (n * T(-pos)) % B == 0
  {
    MulMono(i, -2, LB());
    TAdd(-pos - LB(), LB());
    TLimb();
    MulAssoc(n, T(-pos - LB()), B);
    DivModUnique(n * T(-pos), B, n * T(-pos - LB()), 0);
  }

  /** A limb at a bit position is a digit of the shifted number. */
  lemma BitsAreDigit(n: nat, sh: nat, i: nat, v: Limb)
    requires IsBits(n, i * LB() - sh, v)
    ensures v == Digit(n * T(sh), i)
  {
    DigitMeans(n * T(sh), i);
    TLimbs(i);
    if i * LB() >= sh {
      var j := i * LB() - sh;
      TAdd(j, sh);
      ShiftDiv(n, T(j), T(sh));
    } else {
      var j := sh - i * LB();
      TAdd(j, i * LB());
      MulAssoc(n, T(j), P(i));
      DivModUnique(n * T(sh), P(i), n * T(j), 0);
    }
  }

  lemma ShiftDiv(n: nat, a: nat, b: nat)
    requires a >= 1 && b >= 1
    ensures (n * b) / (a * b) == n / a
  {
    DivMod(n, a);
    var q, r := n / a, n % a;
    Distrib(q * a, r, b);
    MulAssoc(q, a, b);
    MulMono(r, a - 1, b);
    Distrib(a, 1, b);
    MulNonNeg(r, b);
    DivModUnique(n * b, a * b, q, r * b);
  }
}
