/** Conversion between bases by divide and conquer (libbf.c, 2693-2753, 3373-3456), on the
    integers that the numbers stand for; only the quotient estimates are rounded. */
module Radix {
  import opened Arith
  import opened Bits
  import opened RadixEstimate

  /** The value of digits, least significant first. */
  ghost function Positional(s: seq<nat>, radix: nat): nat
  {
    if |s| == 0 then 0 else s[0] + radix * Positional(s[1..], radix)
  }

  lemma {:induction false} PositionalConcat(s: seq<nat>, t: seq<nat>, radix: nat)
    ensures Positional(s + t, radix) == Positional(s, radix) + Pow(radix, |s|) * Positional(t, radix)
  {
    if |s| == 0 {
      assert s + t == t;
    } else {
      assert (s + t)[1..] == s[1..] + t;
      PositionalConcat(s[1..], t, radix);
      ShiftSum(s[0], Positional(s[1..], radix), Pow(radix, |s| - 1), Positional(t, radix), radix);
    }
  }

  lemma ShiftSum(d: int, x: int, p: int, v: int, radix: int)
    ensures d + radix * (x + p * v) == (d + radix * x) + (radix * p) * v
  {
    Distrib(x, p * v, radix);
    MulAssoc(radix, p, v);
  }

  // -------------------------------------------------------------- how lengths are halved

  /** The length of the lower half at a level. */
  function LowerHalf(n0: nat, level: nat): nat
  {
    ((n0 * 2) / T(level + 1) + 1) / 2
  }

  /** n is n0 / 2^level, rounded down or up. */
  ghost predicate LevelLength(n0: nat, level: nat, n: nat)
  {
    n == n0 / T(level) || (n == n0 / T(level) + 1 && n0 % T(level) != 0)
  }

  lemma LevelStart(n0: nat)
    ensures LevelLength(n0, 0, n0)
  {
    TZero();
  }

  /** Both halves of a length are again lengths of the next level, and not empty. So the
      power for the lower half depends on the level only. */
  lemma Halves(n0: nat, level: nat, n: nat)
    requires LevelLength(n0, level, n) && n >= 2
    ensures var n2 := LowerHalf(n0, level);
            1 <= n2 < n && LevelLength(n0, level + 1, n2) && LevelLength(n0, level + 1, n - n2)
  {
    var t := T(level);
    TSucc(level);
    DivMod(n0, t);
    var f, r := n0 / t, n0 % t;
    assert (n0 * 2) / (2 * t) == f by {
      Distrib(f * t, r, 2);
      assert n0 * 2 == f * (2 * t) + 2 * r;
      DivModUnique(n0 * 2, 2 * t, f, 2 * r);
    }
    NextLevel(n0, t, f, r);
  }

  lemma NextLevel(n0: nat, t: nat, f: nat, r: nat)
    requires t >= 1 && n0 == f * t + r && r < t
    ensures n0 / (2 * t) == f / 2 && (n0 % (2 * t) != 0 <==> f % 2 != 0 || r != 0)
  {
    var h, b := f / 2, f % 2;
    Distrib(2 * h, b, t);
    MulAssoc(h, 2, t);
    MulComm(2, h);
    MulMono(b, 1, t);
    if b == 1 { assert b * t == t; }
    DivModUnique(n0, 2 * t, h, b * t + r);
  }

  /** A level with anything to split exists in the table of powers. */
  lemma LevelBound(n0: nat, level: nat, n: nat, len: nat)
    requires LevelLength(n0, level, n) && n >= 2 && n0 <= T(len)
    ensures level < len
  {
    if level >= len {
      TMono(len, level);
      DivMod(n0, T(level));
      if n0 / T(level) >= 1 { MulMono(1, n0 / T(level), T(level)); }
      if n0 / T(level) >= 2 { MulMono(2, n0 / T(level), T(level)); }
    }
  }

  // ------------------------------------------------------------ bf_integer_from_radix_rec

  /** An entry of the table is empty or the power of its level. */
  ghost predicate PowersOk(pow: seq<nat>, n0: nat, radix: nat)
  {
    forall l :: 0 <= l < |pow| ==> pow[l] == 0 || pow[l] == Pow(radix, LowerHalf(n0, l))
  }

  /** radix^n by repeated multiplication. */
  method PowUi(radix: nat, n: nat) returns (r: nat)
    ensures r == Pow(radix, n)
  {
    r := 1;
    var i := 0;
    while i < n
      invariant 0 <= i <= n && r == Pow(radix, i)
    {
      r := radix * r;
      i := i + 1;
    }
  }

  method PowerOf(pow: array<nat>, level: nat, n0: nat, radix: nat) returns (b: nat)
    requires level < pow.Length && PowersOk(pow[..], n0, radix) && radix >= 2
    modifies pow
    ensures PowersOk(pow[..], n0, radix) && b == Pow(radix, LowerHalf(n0, level)) && b >= 1
  {
    if pow[level] == 0 {
      b := PowUi(radix, LowerHalf(n0, level));
      pow[level] := b;
    } else {
      b := pow[level];
    }
  }

  method FromRadixRec(tab: seq<nat>, level: nat, n0: nat, radix: nat, pow: array<nat>) returns (r: nat)
    requires |tab| >= 1 && LevelLength(n0, level, |tab|) && n0 <= T(pow.Length) && radix >= 2
    requires PowersOk(pow[..], n0, radix)
    modifies pow
    ensures PowersOk(pow[..], n0, radix) && r == Positional(tab, radix)
    decreases |tab|
  {
    if |tab| == 1 {
      assert tab[1..] == [];
      r := tab[0];
    } else {
      Halves(n0, level, |tab|);
      LevelBound(n0, level, |tab|, pow.Length);
      var n2 := LowerHalf(n0, level);
      var b := PowerOf(pow, level, n0, radix);
      var hi := FromRadixRec(tab[n2..], level + 1, n0, radix, pow);
      var lo := FromRadixRec(tab[..n2], level + 1, n0, radix, pow);
      assert tab == tab[..n2] + tab[n2..];
      PositionalConcat(tab[..n2], tab[n2..], radix);
      r := hi * b + lo;
      MulComm(hi, b);
    }
  }

  /** The number of levels: ceil(log2(n)) + 2. */
  function CeilLog2(n: nat): (k: nat)
  {
    if n <= 1 then 0 else BitLen(n - 1)
  }

  lemma CeilLog2Enough(n: nat)
    ensures n <= T(CeilLog2(n))
  {
    TZero();
    if n >= 2 { BitLenBounds(n - 1); }
  }

  /** bf_integer_from_radix: the positional value of the digits. */
  method FromRadix(tab: seq<nat>, radix: nat) returns (r: nat)
    requires |tab| >= 1 && radix >= 2
    ensures r == Positional(tab, radix)
  {
    var len := CeilLog2(|tab|) + 2;
    var pow := new nat[len](_ => 0);
    CeilLog2Enough(|tab|);
    TMono(CeilLog2(|tab|), len);
    LevelStart(|tab|);
    r := FromRadixRec(tab, 0, |tab|, radix, pow);
  }

  // -------------------------------------------------------------- bf_integer_to_radix_rec

  ghost predicate Digits(s: seq<nat>, radix: nat)
  {
    forall i :: 0 <= i < |s| ==> s[i] < radix
  }

  /** The corrections make any estimate the quotient; add counts them. */
  method Correct(a: nat, b: nat, q0: int) returns (q: int, r: int, add: int)
    requires b >= 1
    ensures 0 <= r < b && a == q * b + r && q == q0 + add
  {
    q, add := q0, 0;
    r := a - q * b;
    while r < 0
      invariant a == q * b + r && q == q0 + add
      decreases 0 - r
    {
      r := r + b;
      q, add := q - 1, add - 1;
      Distrib(q, 1, b);
    }
    while r >= b
      invariant r >= 0 && a == q * b + r && q == q0 + add
      decreases r
    {
      r := r - b;
      q, add := q + 1, add + 1;
      Distrib(q - 1, 1, b);
    }
  }

  /** The bits of the reciprocal of a level: enough for the largest possible upper half. */
  function ReciprocalBits(n0: nat, level: nat, bits: nat): nat
  {
    (LowerHalf(n0, level) + 1) * bits + 2
  }

  /** Every power of the table has its reciprocal. */
  ghost predicate ReciprocalsOk(pow: seq<nat>, inv: seq<nat>, n0: nat, bits: nat)
  {
    |inv| == |pow| && forall l :: 0 <= l < |pow| && pow[l] != 0 ==> inv[l] == Reciprocal(pow[l], ReciprocalBits(n0, l, bits))
  }

  /** The power and the reciprocal of a level, computed when they are first needed. */
  method EntryOf(pow: array<nat>, inv: array<nat>, level: nat, n0: nat, radix: nat, bits: nat) returns (b: nat, i: nat)
    requires level < pow.Length && PowersOk(pow[..], n0, radix) && ReciprocalsOk(pow[..], inv[..], n0, bits) && radix >= 2 && pow != inv
    modifies pow, inv
    ensures PowersOk(pow[..], n0, radix) && ReciprocalsOk(pow[..], inv[..], n0, bits)
    ensures b == Pow(radix, LowerHalf(n0, level)) && b >= 1 && i == Reciprocal(b, ReciprocalBits(n0, level, bits))
  {
    if pow[level] == 0 {
      b := PowUi(radix, LowerHalf(n0, level));
      i := Reciprocal(b, ReciprocalBits(n0, level, bits));
      pow[level] := b;
      inv[level] := i;
    } else {
      b, i := pow[level], inv[level];
    }
  }

  lemma {:induction false} PowerBits(radix: nat, n: nat, bits: nat)
    requires radix <= T(bits)
    ensures Pow(radix, n) <= T(n * bits)
  {
    TZero();
    if n > 0 {
      PowerBits(radix, n - 1, bits);
      Distrib(n - 1, 1, bits);
      TAdd(bits, (n - 1) * bits);
      MulMono(radix, T(bits), Pow(radix, n - 1));
      MulMono(Pow(radix, n - 1), T((n - 1) * bits), T(bits));
    }
  }

  /** The quotient of a level: at most two corrections are needed. */
  method DivideByPower(a: nat, b: nat, i: nat, radix: nat, n1: nat, n0: nat, level: nat, bits: nat) returns (q: int, r: int, add: int)
    requires b == Pow(radix, LowerHalf(n0, level)) && b >= 1 && i == Reciprocal(b, ReciprocalBits(n0, level, bits))
    requires a < Pow(radix, n1 + LowerHalf(n0, level)) && n1 <= LowerHalf(n0, level) + 1 && radix <= T(bits)
    ensures 0 <= r < b && a == q * b + r && -2 <= add <= 2
  {
    var p, prec := ReciprocalBits(n0, level, bits), n1 * bits;
    var q0 := Estimate(a, b, i, p, prec);
    q, r, add := Correct(a, b, q0);
    PowAdd(radix, n1, LowerHalf(n0, level));
    PowerBits(radix, n1, bits);
    MulMono(Pow(radix, n1), T(prec), b);
    MulMono(n1, LowerHalf(n0, level) + 1, bits);
    EstimateNear(a, b, p, prec, q, r);
  }

  /** Only the window [lo, lo + n) differs. */
  ghost predicate SameElsewhere(s: seq<nat>, t: seq<nat>, lo: nat, n: nat)
  {
    |s| == |t| && forall i :: 0 <= i < |s| && !(lo <= i < lo + n) ==> s[i] == t[i]
  }

  /** The window holds the n digits of a. */
  ghost predicate Holds(s: seq<nat>, lo: nat, n: nat, a: nat, radix: nat)
  {
    lo + n <= |s| && Digits(s[lo..lo + n], radix) && Positional(s[lo..lo + n], radix) == a
  }

  /** The digits of a, n of them, are written at lo. */
  method ToRadixRec(out: array<nat>, lo: nat, a: nat, n: nat, level: nat, n0: nat, radix: nat, pow: array<nat>, inv: array<nat>, bits: nat)
    requires n >= 1 && LevelLength(n0, level, n) && n0 <= T(pow.Length) && 2 <= radix <= T(bits) && a < Pow(radix, n)
    requires PowersOk(pow[..], n0, radix) && ReciprocalsOk(pow[..], inv[..], n0, bits) && out != pow && out != inv && pow != inv && lo + n <= out.Length
    modifies pow, inv, out
    ensures PowersOk(pow[..], n0, radix) && ReciprocalsOk(pow[..], inv[..], n0, bits)
    ensures Holds(out[..], lo, n, a, radix) && SameElsewhere(old(out[..]), out[..], lo, n)
    decreases n
  {
    if n == 1 {
      OneDigit(a, radix);
      out[lo] := a;
      assert out[..][lo..lo + 1] == [a];
    } else if n == 2 {
      TwoDigits(a, radix);
      out[lo] := a % radix;
      out[lo + 1] := a / radix;
      assert out[..][lo..lo + 2] == [a % radix, a / radix];
    } else {
      var q, r, n2 := SplitNumber(a, n, level, n0, radix, pow, inv, bits);
      ToRadixRec(out, lo + n2, q, n - n2, level + 1, n0, radix, pow, inv, bits);
      ghost var s := out[..];
      ToRadixRec(out, lo, r, n2, level + 1, n0, radix, pow, inv, bits);
      JoinDigits(s, out[..], lo, n2, n, r, q, Pow(radix, n2), a, radix);
    }
  }

  /** A number of n digits is divided by the power of its level. */
  method SplitNumber(a: nat, n: nat, level: nat, n0: nat, radix: nat, pow: array<nat>, inv: array<nat>, bits: nat) returns (q: nat, r: nat, n2: nat)
    requires n >= 2 && LevelLength(n0, level, n) && n0 <= T(pow.Length) && 2 <= radix <= T(bits) && a < Pow(radix, n)
    requires PowersOk(pow[..], n0, radix) && ReciprocalsOk(pow[..], inv[..], n0, bits) && pow != inv
    modifies pow, inv
    ensures PowersOk(pow[..], n0, radix) && ReciprocalsOk(pow[..], inv[..], n0, bits)
    ensures 1 <= n2 < n && LevelLength(n0, level + 1, n2) && LevelLength(n0, level + 1, n - n2)
    ensures a == q * Pow(radix, n2) + r && r < Pow(radix, n2) && q < Pow(radix, n - n2)
  {
    Halves(n0, level, n);
    LevelBound(n0, level, n, pow.Length);
    n2 := LowerHalf(n0, level);
    var b, i := EntryOf(pow, inv, level, n0, radix, bits);
    var q1, r1, add := DivideByPower(a, b, i, radix, n - n2, n0, level, bits);
    QuotientBound(a, b, q1, r1, radix, n - n2, n2);
    q, r := q1, r1;
  }

  lemma JoinDigits(s: seq<nat>, t: seq<nat>, lo: nat, n2: nat, n: nat, r: nat, q: nat, b: nat, a: nat, radix: nat)
    requires n2 <= n && Holds(s, lo + n2, n - n2, q, radix) && Holds(t, lo, n2, r, radix) && SameElsewhere(s, t, lo, n2)
    requires b == Pow(radix, n2) && a == q * b + r
    ensures Holds(t, lo, n, a, radix)
  {
    var x, y := t[lo..lo + n2], t[lo + n2..lo + n];
    assert y == s[lo + n2..lo + n2 + (n - n2)];
    assert t[lo..lo + n] == x + y;
    PositionalConcat(x, y, radix);
    MulComm(q, b);
  }

  lemma OneDigit(a: nat, radix: nat)
    requires a < Pow(radix, 1)
    ensures Digits([a], radix) && Positional([a], radix) == a
  {
    assert Pow(radix, 1) == radix * Pow(radix, 0) == radix;
    assert [a][1..] == [];
    assert Positional([], radix) == 0;
  }

  lemma TwoDigits(a: nat, radix: nat)
    requires radix >= 2 && a < Pow(radix, 2)
    ensures Digits([a % radix, a / radix], radix) && Positional([a % radix, a / radix], radix) == a
  {
    DivMod(a, radix);
    assert Pow(radix, 2) == radix * Pow(radix, 1) && Pow(radix, 1) == radix * Pow(radix, 0) == radix;
    if a / radix >= radix { MulMono(radix, a / radix, radix); }
    var out := [a % radix, a / radix];
    assert out[1..] == [a / radix] && out[1..][1..] == [];
    assert Positional(out[1..], radix) == a / radix + radix * Positional([], radix);
    MulComm(radix, a / radix);
  }

  lemma QuotientBound(a: nat, b: nat, q: int, r: int, radix: nat, n1: nat, n2: nat)
    requires b == Pow(radix, n2) && b >= 1 && a == q * b + r && 0 <= r < b && a < Pow(radix, n1 + n2)
    ensures 0 <= q < Pow(radix, n1)
  {
    PowAdd(radix, n1, n2);
    MulCancelLess(q, Pow(radix, n1), b);
    if q < 0 { MulMono(q, -1, b); }
  }

  /** bf_integer_to_radix on n digits. */
  method ToRadix(a: nat, n: nat, radix: nat) returns (out: array<nat>)
    requires n >= 1 && radix >= 2 && a < Pow(radix, n)
    ensures fresh(out) && out.Length == n && Digits(out[..], radix) && Positional(out[..], radix) == a
  {
    var len := CeilLog2(n) + 2;
    var pow := new nat[len](_ => 0);
    var inv := new nat[len](_ => 0);
    out := new nat[n](_ => 0);
    CeilLog2Enough(n);
    CeilLog2Enough(radix);
    TMono(CeilLog2(n), len);
    LevelStart(n);
    ToRadixRec(out, 0, a, n, 0, n, radix, pow, inv, CeilLog2(radix));
    assert out[..][0..0 + n] == out[..];
  }

  /** Digits are determined by their value: conversion back and forth changes nothing. */
  lemma {:induction false} DigitsUnique(s: seq<nat>, t: seq<nat>, radix: nat)
    requires |s| == |t| && Digits(s, radix) && Digits(t, radix) && Positional(s, radix) == Positional(t, radix)
    ensures s == t
  {
    if |s| > 0 {
      MulComm(radix, Positional(s[1..], radix));
      MulComm(radix, Positional(t[1..], radix));
      DivModUnique(Positional(s, radix), radix, Positional(s[1..], radix), s[0]);
      DivModUnique(Positional(t, radix), radix, Positional(t[1..], radix), t[0]);
      DigitsUnique(s[1..], t[1..], radix);
      assert s == [s[0]] + s[1..] && t == [t[0]] + t[1..];
    }
  }

  /** From digits to a number and back. */
  method RoundTrip(tab: seq<nat>, radix: nat) returns (out: seq<nat>)
    requires |tab| >= 1 && radix >= 2 && Digits(tab, radix)
    ensures out == tab
  {
    var r := FromRadix(tab, radix);
    PositionalBound(tab, radix);
    var digits := ToRadix(r, |tab|, radix);
    out := digits[..];
    DigitsUnique(out, tab, radix);
  }

  lemma {:induction false} PositionalBound(s: seq<nat>, radix: nat)
    requires Digits(s, radix) && radix >= 1
    ensures Positional(s, radix) < Pow(radix, |s|)
  {
    if |s| > 0 {
      PositionalBound(s[1..], radix);
      MulMono(Positional(s[1..], radix) + 1, Pow(radix, |s| - 1), radix);
      Distrib(Positional(s[1..], radix), 1, radix);
    }
  }
}
