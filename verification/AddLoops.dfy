/** The two loops of bf_add_internal (libbf.c, 935-1001): the digits below the result, of
    which only a carry and a sticky bit remain, and the digits of the result. */
module AddLoops {
  import opened Hints
  import opened Arith
  import opened Limbs
  import opened LimbOps
  import opened Bits
  import opened Digits

  /** The second operand below digit t, complemented when subtracting. */
  ghost function Second(n: nat, sub: bool, t: nat): int
  {
    if sub then P(t) - 1 - Low(n, t) else Low(n, t)
  }

  /** The sum of the operands below digit t; one is added when subtracting. */
  ghost function Total(a: nat, n: nat, sub: bool, t: nat): int
  {
    Low(a, t) + Second(n, sub, t) + (if sub then 1 else 0)
  }

  ghost function Carried(carry: Limb, t: nat): int
  {
    if carry == 0 then 0 else P(t)
  }

  /** Below digit t the sum is z and a carry; nz says whether z is not zero. */
  ghost predicate LowDone(a: nat, n: nat, sub: bool, t: nat, carry: Limb, nz: bool)
  {
    carry <= 1 && forall u :: AskFor(Subject.AddingLoops, u) ==>
      var z := Total(a, n, sub, t) - Carried(carry, t);
      0 <= z < P(t) && (nz <==> z != 0)
  }

  function SecondDigit(d: Limb, sub: bool): Limb
  {
    if sub then B - 1 - d else d
  }

  lemma LowStart(a: nat, n: nat, sub: bool)
    ensures LowDone(a, n, sub, 0, if sub then 1 else 0, false)
  {
    LowZero(a);
    LowZero(n);
    PZero();
  }

  lemma SecondStep(n: nat, sub: bool, t: nat)
    ensures Second(n, sub, t + 1) == Second(n, sub, t) + SecondDigit(Digit(n, t), sub) * P(t)
  {
    LowStep(n, t);
    PSucc(t);
    Distrib(B, 1, P(t));
    Distrib(B - 1, Digit(n, t), P(t));
  }

  lemma TotalStep(a: nat, n: nat, sub: bool, t: nat, carry: Limb, u: Limb, carry1: Limb)
    requires carry <= 1 && carry1 <= 1 && u + (if carry1 == 0 then 0 else B) == Digit(a, t) + SecondDigit(Digit(n, t), sub) + carry
    ensures Total(a, n, sub, t + 1) - Carried(carry1, t + 1) == Total(a, n, sub, t) - Carried(carry, t) + u * P(t)
  {
    LowStep(a, t);
    SecondStep(n, sub, t);
    PSucc(t);
    var p, d, e := P(t), Digit(a, t) as int, SecondDigit(Digit(n, t), sub) as int;
    Distrib(d, e, p);
    Distrib(d + e, carry, p);
    Distrib(u, if carry1 == 0 then 0 else B, p);
  }

  /** One digit more. */
  lemma LowAdvance(a: nat, n: nat, sub: bool, t: nat, carry: Limb, nz: bool, u: Limb, carry1: Limb)
    requires LowDone(a, n, sub, t, carry, nz) && carry1 <= 1
    requires u + (if carry1 == 0 then 0 else B) == Digit(a, t) + SecondDigit(Digit(n, t), sub) + carry
    ensures LowDone(a, n, sub, t + 1, carry1, nz || u != 0)
  {
    assert AskFor(Subject.AddingLoops, 0);
    TotalStep(a, n, sub, t, carry, u, carry1);
    PSucc(t);
    DigitAdds(Total(a, n, sub, t) - Carried(carry, t), u, P(t));
  }

  lemma DigitAdds(z: int, u: Limb, p: nat)
    requires 0 <= z < p
    ensures 0 <= z + u * p < B * p && (z + u * p != 0 <==> z != 0 || u != 0)
  {
    MulMono(u, B - 1, p);
    Distrib(B, 1, p);
    if u > 0 { MulMono(1, u, p); }
  }

  /** Many digits at once, where both operands have no bits. */
  lemma LowSkip(a: nat, n: nat, sub: bool, t: nat, t1: nat, carry: Limb, nz: bool, u: Limb, carry1: Limb)
    requires LowDone(a, n, sub, t, carry, nz) && carry1 <= 1 && t < t1
    requires Low(a, t1) == Low(a, t) && Low(n, t1) == Low(n, t)
    requires u + (if carry1 == 0 then 0 else B) == SecondDigit(0, sub) + carry
    ensures LowDone(a, n, sub, t1, carry1, nz || u != 0)
  {
    assert AskFor(Subject.AddingLoops, 0);
    PSucc(t);
    PMono(t + 1, t1);
    MulMono(2, B, P(t));
  }

  // -------------------------------------------------------------------- the two operands

  /** How a pair of mantissas is aligned in tot limbs: the second one d bits lower. */
  ghost predicate Aligned(alen: nat, blen: nat, d: nat, tot: nat)
  {
    1 <= alen <= tot && 1 <= blen && blen * LB() + d <= tot * LB() &&
    (tot == alen || tot * LB() < blen * LB() + d + LB())
  }

  ghost function First(na: nat, alen: nat, tot: nat): nat
    requires alen <= tot
  {
    na * P(tot - alen)
  }

  ghost function Other(nb: nat, blen: nat, d: nat, tot: nat): nat
    requires blen * LB() + d <= tot * LB()
  {
    nb * T((tot - blen) * LB() - d)
  }

  lemma ShiftIsNat(blen: nat, d: nat, tot: nat)
    requires blen * LB() + d <= tot * LB()
    ensures (tot - blen) * LB() - d >= 0
  {
    Distrib(tot, blen, LB());
  }

  lemma DigitShift(n: nat, j: nat, t: nat)
    ensures Digit(n * P(j), t) == (if t < j then 0 else Digit(n, t - j)) && (t <= j ==> Low(n * P(j), t) == 0)
  {
    DigitMeans(n * P(j), t);
    if t < j {
      PAdd(t + 1, j - t - 1);
      PSucc(t);
      MulComm(P(t + 1), P(j - t - 1));
      MulAssoc(n, P(j - t - 1), B * P(t));
      MulAssoc(n * P(j - t - 1), B, P(t));
      var c := n * P(j - t - 1);
      DivModUnique(n * P(j), P(t), c * B, 0);
      DivModUnique(c * B, B, c, 0);
    } else {
      DigitMeans(n, t - j);
      PAdd(t - j, j);
      ShiftDiv(n, P(t - j), P(j));
      if t == j { DivModUnique(n * P(j), P(t), n, 0); }
    }
  }

  /** A digit of the first operand. */
  method ReadFirst(tab: array<Limb>, len: nat, tot: nat, t: nat) returns (v: Limb)
    requires len <= tab.Length && len <= tot && t < tot
    ensures v == Digit(First(W(tab[..], 0, len), len, tot), t)
  {
    var i := t - (tot - len);
    DigitShift(W(tab[..], 0, len), tot - len, t);
    if i >= 0 { DigitOfRow(tab[..], len, i); }
    v := if 0 <= i < len then tab[i] else 0;
  }

  /** A digit of the second operand. */
  method ReadOther(tab: array<Limb>, len: nat, d: nat, tot: nat, t: nat) returns (v: Limb)
    requires len <= tab.Length && len * LB() + d <= tot * LB()
    ensures v == Digit(Other(W(tab[..], 0, len), len, d, tot), t)
  {
    ShiftIsNat(len, d, tot);
    v := GetBits(tab, len, t * LB() - ((tot - len) * LB() - d));
    BitsAreDigit(W(tab[..], 0, len), (tot - len) * LB() - d, t, v);
  }

  /** Above its bits the second operand has no digits. */
  lemma OtherEnds(n: nat, len: nat, d: nat, tot: nat, t: nat)
    requires n < P(len) && len * LB() + d <= tot * LB() && t * LB() - ((tot - len) * LB() - d) >= len * LB()
    ensures Other(n, len, d, tot) < P(t)
  {
    var sh := (tot - len) * LB() - d;
    ShiftIsNat(len, d, tot);
    TLimbs(len);
    TLimbs(t);
    TAdd(len * LB(), sh);
    TMono(len * LB() + sh, t * LB());
    MulStrict(n, P(len), T(sh));
  }

  /** The second operand reaches down to the lowest digit unless the first one does. */
  lemma OtherStarts(alen: nat, blen: nat, d: nat, tot: nat, t: nat)
    requires Aligned(alen, blen, d, tot) && alen < tot
    ensures t * LB() - ((tot - blen) * LB() - d) + LB() > 0
  {
    Distrib(tot, blen, LB());
    MulNonNeg(t, LB());
  }

  /** The digits below the result: what remains is a carry and whether any digit of the
      sum is not zero. A gap between the operands takes a single step. */
  method LowLoop(taba: array<Limb>, alen: nat, tabb: array<Limb>, blen: nat, d: nat, tot: nat, k: nat, sub: bool) returns (carry: Limb, nz: bool)
    requires alen <= taba.Length && blen <= tabb.Length && Aligned(alen, blen, d, tot) && k <= tot
    ensures LowDone(First(W(taba[..], 0, alen), alen, tot), Other(W(tabb[..], 0, blen), blen, d, tot), sub, k, carry, nz)
  {
    ghost var a, n := First(W(taba[..], 0, alen), alen, tot), Other(W(tabb[..], 0, blen), blen, d, tot);
    carry, nz := if sub then 1 else 0, false;
    LowStart(a, n, sub);
    var t := 0;
    while t < k
      invariant 0 <= t <= k && LowDone(a, n, sub, t, carry, nz)
      decreases k - t
    {
      var ap, bp := t - (tot - alen), t * LB() - ((tot - blen) * LB() - d);
      var inB := bp + LB() > 0 && bp < blen * LB();
      var v1 := ReadFirst(taba, alen, tot, t);
      var v2 := 0;
      if inB { v2 := ReadOther(tabb, blen, d, tot, t); }
      ghost var carry0, nz0 := carry, nz;
      var u, c := AddLimbs(v1, SecondDigit(v2, sub), carry);
      carry, nz := c, nz || u != 0;
      var next := t + 1;
      if !(0 <= ap < alen) && !inB {
        next := NextDigit(k, tot - alen, ap, bp, (blen - (tot - k)) * LB() + d);
        Gap(taba[..], alen, tabb[..], blen, d, tot, k, t, next);
        LowSkip(a, n, sub, t, next, carry0, nz0, u, carry);
      } else {
        OtherDigit(tabb[..], blen, d, tot, t, v2, inB);
        LowAdvance(a, n, sub, t, carry0, nz0, u, carry);
      }
      t := next;
    }
  }

  /** Where the next digit is, when digit t is outside of both operands. */
  function NextDigit(k: nat, first: int, ap: int, bp: int, offset: int): int
  {
    var x := if ap < 0 && first < k then first else k;
    if bp + LB() <= 0 && k + (-offset) / LB() < x then k + (-offset) / LB() else x
  }

  lemma Gap(s: seq<Limb>, alen: nat, r: seq<Limb>, blen: nat, d: nat, tot: nat, k: nat, t: nat, next: int)
    requires alen <= |s| && blen <= |r| && Aligned(alen, blen, d, tot) && t < k <= tot
    requires var ap, bp := t - (tot - alen), t * LB() - ((tot - blen) * LB() - d);
             !(0 <= ap < alen) && !(bp + LB() > 0 && bp < blen * LB()) &&
             next == NextDigit(k, tot - alen, ap, bp, (blen - (tot - k)) * LB() + d)
    ensures t < next <= k
    ensures var a, n := First(W(s, 0, alen), alen, tot), Other(W(r, 0, blen), blen, d, tot);
            Low(a, next) == Low(a, t) && Low(n, next) == Low(n, t) && Digit(a, t) == 0 && Digit(n, t) == 0
  {
    OtherStarts(alen, blen, d, tot, t);
    WBound(r, 0, blen);
    OtherEnds(W(r, 0, blen), blen, d, tot, t);
    var a, n := First(W(s, 0, alen), alen, tot), Other(W(r, 0, blen), blen, d, tot);
    DigitShift(W(s, 0, alen), tot - alen, t);
    DigitShift(W(s, 0, alen), tot - alen, next);
    PMono(t, next);
    LowAll(n, t);
    LowAll(n, next);
  }

  /** Outside of its bits the second operand has zero digits. */
  lemma OtherDigit(r: seq<Limb>, blen: nat, d: nat, tot: nat, t: nat, v: Limb, inB: bool)
    requires blen <= |r| && blen * LB() + d <= tot * LB()
    requires var bp := t * LB() - ((tot - blen) * LB() - d); inB == (bp + LB() > 0 && bp < blen * LB())
    requires if inB then v == Digit(Other(W(r, 0, blen), blen, d, tot), t) else v == 0
    ensures v == Digit(Other(W(r, 0, blen), blen, d, tot), t)
  {
    var bp, n := t * LB() - ((tot - blen) * LB() - d), Other(W(r, 0, blen), blen, d, tot);
    WBound(r, 0, blen);
    if bp >= blen * LB() {
      OtherEnds(W(r, 0, blen), blen, d, tot, t);
      LowAll(n, t);
    } else if bp + LB() <= 0 {
      ShiftIsNat(blen, d, tot);
      OtherBelow(W(r, 0, blen), (tot - blen) * LB() - d, t);
    }
  }

  lemma OtherBelow(n: nat, sh: nat, t: nat)
    requires t * LB() + LB() <= sh
    ensures Digit(n * T(sh), t) == 0
  {
    var j := sh - t * LB() - LB();
    TAdd(j, LB());
    TLimb();
    TAdd(j + LB(), t * LB());
    TLimbs(t);
    DigitMeans(n * T(sh), t);
    MulAssoc(n, T(j + LB()), P(t));
    MulAssoc(n, T(j), B);
    DivModUnique(n * T(sh), P(t), n * T(j + LB()), 0);
    DivModUnique(n * T(j + LB()), B, n * T(j), 0);
  }

  // ------------------------------------------------------------------ the result digits

  /** The sum below digit k + i: the part z below digit k, i result digits and a carry. */
  ghost predicate HighDone(a: nat, n: nat, sub: bool, k: nat, i: nat, s: seq<Limb>, carry: Limb, z: int)
  {
    carry <= 1 && i <= |s| && forall u :: AskFor(Subject.AddingLoops, u) ==>
      Total(a, n, sub, k + i) == z + W(s, 0, i) * P(k) + Carried(carry, k + i)
  }

  lemma HighStart(a: nat, n: nat, sub: bool, k: nat, s: seq<Limb>, carry: Limb)
    requires carry <= 1
    ensures HighDone(a, n, sub, k, 0, s, carry, Total(a, n, sub, k) - Carried(carry, k))
  {
    WZero(s, 0);
  }

  lemma HighStep(a: nat, n: nat, sub: bool, k: nat, i: nat, s: seq<Limb>, s1: seq<Limb>, carry: Limb, z: int, u: Limb, carry1: Limb)
    requires HighDone(a, n, sub, k, i, s, carry, z) && i < |s| && s1 == s[i := u] && carry1 <= 1
    requires u + Top(carry1) == Digit(a, k + i) + SecondDigit(Digit(n, k + i), sub) + carry
    ensures HighDone(a, n, sub, k, i + 1, s1, carry1, z)
  {
    assert AskFor(Subject.AddingLoops, 0);
    TotalStep(a, n, sub, k + i, carry, u, carry1);
    assert s1[0..0 + i] == s[0..0 + i];
    WSnoc(s1, 0, i);
    PAdd(i, k);
    Distrib(W(s, 0, i), u * P(i), P(k));
    MulAssoc(u, P(i), P(k));
  }

  method HighLoop(res: array<Limb>, rlen: nat, taba: array<Limb>, alen: nat, tabb: array<Limb>, blen: nat, d: nat, tot: nat, sub: bool, carry0: Limb)
    returns (carry: Limb)
    requires alen <= taba.Length && blen <= tabb.Length && Aligned(alen, blen, d, tot) && rlen <= tot && rlen <= res.Length
    requires res != taba && res != tabb && carry0 <= 1
    modifies res
    ensures var a, n, k := First(W(taba[..], 0, alen), alen, tot), Other(W(tabb[..], 0, blen), blen, d, tot), tot - rlen;
            carry <= 1 && Total(a, n, sub, tot) == Total(a, n, sub, k) - Carried(carry0, k) + W(res[..], 0, rlen) * P(k) + Carried(carry, tot)
  {
    ghost var a, n := First(W(taba[..], 0, alen), alen, tot), Other(W(tabb[..], 0, blen), blen, d, tot);
    var k := tot - rlen;
    ghost var z := Total(a, n, sub, k) - Carried(carry0, k);
    carry := carry0;
    HighStart(a, n, sub, k, res[..], carry);
    var i := 0;
    while i < rlen
      invariant 0 <= i <= rlen && HighDone(a, n, sub, k, i, res[..], carry, z)
    {
      var v1 := ReadFirst(taba, alen, tot, k + i);
      var v2 := ReadOther(tabb, blen, d, tot, k + i);
      ghost var s, carry1 := res[..], carry;
      var u, c := AddLimbs(v1, SecondDigit(v2, sub), carry);
      res[i] := u;
      carry := c;
      HighStep(a, n, sub, k, i, s, res[..], carry1, z, u, carry);
      i := i + 1;
    }
    assert AskFor(Subject.AddingLoops, 0);
  }

  /** The exact sum or difference, from the lower part, the result digits and the carry. */
  lemma SumIs(a: nat, n: nat, sub: bool, tot: nat, z: int, r: nat, k: nat, carry: Limb)
    requires a < P(tot) && n < P(tot) && (sub ==> n <= a) && k <= tot && 0 <= z < P(k) && r < P(tot - k) && carry <= 1
    requires Total(a, n, sub, tot) == z + r * P(k) + Carried(carry, tot)
    ensures if sub then a - n == r * P(k) + z else a + n == r * P(k) + z + Carried(carry, tot)
  {
    LowAll(a, tot);
    LowAll(n, tot);
    PAdd(tot - k, k);
    MulMono(r, P(tot - k) - 1, P(k));
    Distrib(P(tot - k), 1, P(k));
  }

  lemma OperandBounds(na: nat, alen: nat, nb: nat, blen: nat, d: nat, tot: nat)
    requires na < P(alen) && nb < P(blen) && Aligned(alen, blen, d, tot)
    ensures First(na, alen, tot) < P(tot) && Other(nb, blen, d, tot) < P(tot)
  {
    PAdd(alen, tot - alen);
    MulStrict(na, P(alen), P(tot - alen));
    Distrib(tot, blen, LB());
    OtherEnds(nb, blen, d, tot, tot);
  }
}
