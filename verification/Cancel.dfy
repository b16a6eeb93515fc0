/** Leading bits lost in a subtraction (libbf.c, 807-866): count_cancelled_bits. */
module Cancel {
  import opened Arith
  import opened Limbs
  import opened LimbOps
  import opened Bits
  import opened LimbBits
  import opened Digits
  import opened AddLoops

  // ----------------------------------------------------------------- bits of two limbs

  /** Exclusive or. */
  function Xor(x: nat, y: nat): (r: nat)
    decreases x + y
  {
    if x == 0 && y == 0 then 0 else 2 * Xor(x / 2, y / 2) + (x % 2 + y % 2) % 2
  }

  /** Two numbers first differ in bit k - 1, or not at all. */
  predicate DifferBelow(x: nat, y: nat, k: nat)
  {
    x / T(k) == y / T(k) && (k > 0 ==> x / T(k - 1) != y / T(k - 1)) && (k == 0 ==> x == y)
  }

  /** The exclusive or tells where two numbers first differ. */
  lemma {:induction false} XorLen(x: nat, y: nat)
    ensures DifferBelow(x, y, BitLen(Xor(x, y)))
    decreases x + y
  {
    BitLenMeaning(Xor(x, y));
    if x > 0 || y > 0 {
      XorLen(x / 2, y / 2);
      XorHalf(x, y, Xor(x / 2, y / 2));
      DifferHalf(x, y, BitLen(Xor(x / 2, y / 2)));
    } else {
      TZero();
    }
  }

  lemma XorHalf(x: nat, y: nat, h: nat)
    requires h == Xor(x / 2, y / 2) && (x > 0 || y > 0)
    ensures BitLen(Xor(x, y)) == if h == 0 && x % 2 == y % 2 then 0 else 1 + BitLen(h)
    ensures h == 0 <==> BitLen(h) == 0
  {
    LenHalf(Xor(x, y), h, (x % 2 + y % 2) % 2);
  }

  lemma LenHalf(z: nat, h: nat, d: nat)
    requires z == 2 * h + d && d <= 1
    ensures BitLen(z) == (if h == 0 && d == 0 then 0 else 1 + BitLen(h)) && (h == 0 <==> BitLen(h) == 0)
  {
    BitLenMeaning(z);
    BitLenMeaning(0);
    assert z / 2 == h;
  }

  lemma DifferHalf(x: nat, y: nat, k: nat)
    requires DifferBelow(x / 2, y / 2, k)
    ensures DifferBelow(x, y, if k == 0 && x % 2 == y % 2 then 0 else 1 + k)
  {
    TZero();
    TSucc(0);
    DivDiv(x, 1, k);
    DivDiv(y, 1, k);
    if k > 0 {
      DivDiv(x, 1, k - 1);
      DivDiv(y, 1, k - 1);
    }
  }

  /** Of two limbs that differ, v1 the larger one: above bit q they differ by one. */
  lemma FirstDiff(v1: Limb, v2: Limb)
    requires v1 > v2
    ensures var q := LB() - (Clz2(v1, v2) + 1); 0 <= q < LB() && v1 / T(q) == v2 / T(q) + 1
  {
    XorLen(v1, v2);
    var k := BitLen(Xor(v1, v2));
    WithinLimb(v1, v2, k);
    DifferByOne(v1, v2, k);
  }

  lemma WithinLimb(v1: Limb, v2: Limb, k: nat)
    requires k >= 1 && v1 / T(k - 1) != v2 / T(k - 1)
    ensures k <= LB()
  {
    TLimb();
    if k > LB() {
      TMono(LB(), k - 1);
      DivModUnique(v1, T(k - 1), 0, v1);
      DivModUnique(v2, T(k - 1), 0, v2);
    }
  }

  lemma DifferByOne(v1: nat, v2: nat, k: nat)
    requires k >= 1 && v1 > v2 && v1 / T(k) == v2 / T(k) && v1 / T(k - 1) != v2 / T(k - 1)
    ensures v1 / T(k - 1) == v2 / T(k - 1) + 1
  {
    DivDiv(v1, k - 1, 1);
    DivDiv(v2, k - 1, 1);
    TZero();
    TSucc(0);
    DivOrder(v2, v1, T(k - 1));
    Halves(v1 / T(k - 1), v2 / T(k - 1));
  }

  lemma Halves(x: nat, y: nat)
    requires x / 2 == y / 2 && y <= x && x != y
    ensures x == y + 1
  {}

  lemma DivOrder(x: nat, y: nat, t: nat)
    requires x <= y && t >= 1
    ensures x / t <= y / t
  {
    DivMod(x, t);
    DivMod(y, t);
    if x / t > y / t { MulMono(y / t + 1, x / t, t); Distrib(y / t, 1, t); }
  }

  /** clz(v1 ^ v2) */
  function Clz2(v1: Limb, v2: Limb): int
  {
    LB() - BitLen(Xor(v1, v2))
  }

  /** The leading zeros of both x and y in q bits. */
  function Zeros(x: nat, y: nat, q: nat): int
  {
    var i, j := q - BitLen(x), q - BitLen(y);
    if i < j then i else j
  }

  lemma ZerosMean(x: nat, y: nat, q: nat)
    requires x < T(q) && y < T(q)
    ensures var p := Zeros(x, y, q); 0 <= p <= q && (if p < q then x + y >= T(q - p - 1) else x == 0 && y == 0)
  {
    BitLenMeaning(0);
    if x > 0 { BitLenBounds(x); if BitLen(x) > q { TMono(q, BitLen(x) - 1); } }
    if y > 0 { BitLenBounds(y); if BitLen(y) > q { TMono(q, BitLen(y) - 1); } }
  }

  // -------------------------------------------------------------------- leading digits

  /** The number made of the first j digits of n, which has tot of them; then zeros. */
  ghost function Prefix(n: nat, tot: nat, j: nat): nat
  {
    if j <= tot then n / P(tot - j) else n * P(j - tot)
  }

  ghost function TopDigit(n: nat, tot: nat, j: nat): Limb
  {
    if j < tot then Digit(n, tot - 1 - j) else 0
  }

  lemma PrefixStep(n: nat, tot: nat, j: nat)
    ensures Prefix(n, tot, j + 1) == Prefix(n, tot, j) * B + TopDigit(n, tot, j)
  {
    if j < tot {
      var i := tot - 1 - j;
      DigitMeans(n, i);
      PSucc(i);
      TLimbs(i);
      TLimb();
      TLimbs(i + 1);
      Distrib(i, 1, LB());
      DivDiv(n, i * LB(), LB());
      DivMod(n / P(i), B);
    } else {
      PZero();
      PSucc(j - tot);
      MulAssoc(n, P(j - tot), B);
      MulComm(B, P(j - tot));
    }
  }

  lemma PrefixStart(n: nat, tot: nat)
    requires n < P(tot)
    ensures Prefix(n, tot, 0) == 0 && Prefix(n, tot, tot) == n
  {
    DivModUnique(n, P(tot), 0, n);
    PZero();
  }

  lemma PrefixBounds(n: nat, tot: nat, j: nat)
    ensures Prefix(n, tot, j) * P(tot) <= n * P(j) < (Prefix(n, tot, j) + 1) * P(tot)
  {
    var x := Prefix(n, tot, j);
    Distrib(x, 1, P(tot));
    if j <= tot {
      var p := P(tot - j);
      PAdd(tot - j, j);
      DivMod(n, p);
      MulMono(x * p, n, P(j));
      MulAssoc(x, p, P(j));
      Distrib(x, 1, p);
      MulStrict(n, (x + 1) * p, P(j));
      MulAssoc(x + 1, p, P(j));
    } else {
      PAdd(j - tot, tot);
      MulAssoc(n, P(j - tot), P(tot));
    }
  }

  /** How much of a difference is left: its leading bit is at position cancelled or before
      it, counted from the top. */
  ghost predicate Leaves(a: nat, n: nat, tot: nat, cancelled: nat)
  {
    n <= a && (a - n) * T(cancelled + 1) >= P(tot)
  }

  /** When the first j digits differ by more than 2^w, at most j * LIMB_BITS - w - 1 bits
      cancel. */
  lemma PrefixLeaves(a: nat, n: nat, tot: nat, j: nat, w: nat, cancelled: nat)
    requires Prefix(a, tot, j) - Prefix(n, tot, j) >= T(w) + 1 && cancelled + 1 + w == j * LB()
    ensures Leaves(a, n, tot, cancelled)
  {
    PrefixBounds(a, tot, j);
    PrefixBounds(n, tot, j);
    var x, y, p, t := Prefix(a, tot, j), Prefix(n, tot, j), P(tot), T(w);
    MulMono(t, x - y - 1, p);
    Distrib(x, y + 1, p);
    TLimbs(j);
    TAdd(cancelled + 1, w);
    Distrib(a, n, P(j));
    MulCancelLess(n, a, P(j));
    MulAssoc(a - n, T(cancelled + 1), t);
    MulComm(t, p);
    MulCancelLeq(p, (a - n) * T(cancelled + 1), t);
  }

  // ---------------------------------------------------------------- count_cancelled_bits

  /** A digit of the first operand, counted from the top. */
  method TopFirst(tab: array<Limb>, len: nat, ghost tot: nat, j: nat) returns (v: Limb)
    requires len <= tab.Length && len <= tot
    ensures v == TopDigit(First(W(tab[..], 0, len), len, tot), tot, j)
  {
    var i := len - 1 - j;
    if j < tot {
      DigitShift(W(tab[..], 0, len), tot - len, tot - 1 - j);
      if i >= 0 { DigitOfRow(tab[..], len, i); }
    }
    v := if i >= 0 then tab[i] else 0;
  }

  /** A digit of the second operand, counted from the top. */
  method TopOther(tab: array<Limb>, len: nat, d: nat, ghost tot: nat, j: nat) returns (v: Limb)
    requires len <= tab.Length && len * LB() + d <= tot * LB()
    ensures v == TopDigit(Other(W(tab[..], 0, len), len, d, tot), tot, j)
  {
    var pos := (len - 1 - j) * LB() + d;
    v := GetBits(tab, len, pos);
    TopPosition(len, d, tot, j);
    if j < tot {
      ShiftIsNat(len, d, tot);
      BitsAreDigit(W(tab[..], 0, len), (tot - len) * LB() - d, tot - 1 - j, v);
    } else {
      BitsBelowAll(W(tab[..], 0, len), pos, v);
    }
  }

  lemma TopPosition(len: nat, d: nat, tot: nat, j: nat)
    requires len * LB() + d <= tot * LB()
    ensures (len - 1 - j) * LB() + d == (tot - 1 - j) * LB() - ((tot - len) * LB() - d)
    ensures j >= tot ==> (len - 1 - j) * LB() + d + LB() <= 0
  {
    Distrib(tot - 1 - j, tot - len, LB());
    Distrib(len, 1 + j, LB());
    Distrib(1, j, LB());
    if j >= tot { MulMono(tot, j, LB()); }
  }

  lemma BitsBelowAll(n: nat, pos: int, v: Limb)
    requires pos + LB() <= 0 && IsBits(n, pos, v)
    ensures v == 0
  {
    TAdd(-pos - LB(), LB());
    TLimb();
    MulAssoc(n, T(-pos - LB()), B);
    DivModUnique(n * T(-pos), B, n * T(-pos - LB()), 0);
  }

  /** The first loop: the first digit that differs. */
  method FirstDifference(taba: array<Limb>, alen: nat, tabb: array<Limb>, blen: nat, d: nat, ghost tot: nat) returns (j: nat, v1: Limb, v2: Limb)
    requires alen <= taba.Length && blen <= tabb.Length && Aligned(alen, blen, d, tot)
    requires First(W(taba[..], 0, alen), alen, tot) > Other(W(tabb[..], 0, blen), blen, d, tot)
    ensures var a, n := First(W(taba[..], 0, alen), alen, tot), Other(W(tabb[..], 0, blen), blen, d, tot);
            v1 > v2 && v1 == TopDigit(a, tot, j) && v2 == TopDigit(n, tot, j) && Prefix(a, tot, j) == Prefix(n, tot, j)
  {
    ghost var a, n := First(W(taba[..], 0, alen), alen, tot), Other(W(tabb[..], 0, blen), blen, d, tot);
    WBound(taba[..], 0, alen);
    WBound(tabb[..], 0, blen);
    OperandBounds(W(taba[..], 0, alen), alen, W(tabb[..], 0, blen), blen, d, tot);
    PrefixStart(a, tot);
    PrefixStart(n, tot);
    j := 0;
    v1 := TopFirst(taba, alen, tot, 0);
    v2 := TopOther(tabb, blen, d, tot, 0);
    while v1 == v2
      invariant 0 <= j < tot && Prefix(a, tot, j) == Prefix(n, tot, j)
      invariant v1 == TopDigit(a, tot, j) && v2 == TopDigit(n, tot, j)
      decreases tot - j
    {
      PrefixStep(a, tot, j);
      PrefixStep(n, tot, j);
      j := j + 1;
      v1 := TopFirst(taba, alen, tot, j);
      v2 := TopOther(tabb, blen, d, tot, j);
    }
    LargerDigit(a, n, tot, j);
  }

  lemma LargerDigit(a: nat, n: nat, tot: nat, j: nat)
    requires a > n && j < tot && Prefix(a, tot, j) == Prefix(n, tot, j) && TopDigit(a, tot, j) != TopDigit(n, tot, j)
    ensures TopDigit(a, tot, j) > TopDigit(n, tot, j)
  {
    PrefixStep(a, tot, j);
    PrefixStep(n, tot, j);
    DivOrder(n, a, P(tot - j - 1));
  }

  /** The rest of the limb in which the operands first differ. */
  method RestOfLimb(v1: Limb, v2: Limb) returns (p: nat, p1: nat, q: nat)
    requires v1 > v2
    ensures p + q == LB() && p1 <= q
    ensures if p1 < q then v1 - v2 >= T(q - p1 - 1) + 1 else v1 - v2 == 1
  {
    FirstDiff(v1, v2);
    p := Clz2(v1, v2) + 1;
    q := LB() - p;
    p1 := 0;
    TZero();
    DivMod(v1, T(q));
    DivMod(v2, T(q));
    Distrib(v2 / T(q), 1, T(q));
    if q > 0 {
      var x, y := v1 % T(q), T(q) - 1 - v2 % T(q);
      ZerosMean(x, y, q);
      p1 := Zeros(x, y, q);
    }
  }

  /** count_cancelled_bits, for operands of which the first is larger. */
  method CountCancelled(taba: array<Limb>, alen: nat, tabb: array<Limb>, blen: nat, d: nat, ghost tot: nat) returns (cancelled: nat)
    requires alen <= taba.Length && blen <= tabb.Length && Aligned(alen, blen, d, tot)
    requires First(W(taba[..], 0, alen), alen, tot) > Other(W(tabb[..], 0, blen), blen, d, tot)
    ensures Leaves(First(W(taba[..], 0, alen), alen, tot), Other(W(tabb[..], 0, blen), blen, d, tot), tot, cancelled)
  {
    ghost var a, n := First(W(taba[..], 0, alen), alen, tot), Other(W(tabb[..], 0, blen), blen, d, tot);
    var j, v1, v2 := FirstDifference(taba, alen, tabb, blen, d, tot);
    var p, p1, q := RestOfLimb(v1, v2);
    PrefixStep(a, tot, j);
    PrefixStep(n, tot, j);
    Distrib(j, 1, LB());
    cancelled := j * LB() + p + p1;
    if p1 != q {
      PrefixLeaves(a, n, tot, j + 1, q - p1 - 1, cancelled);
      return;
    }
    cancelled := MatchingDigits(taba, alen, tabb, blen, d, tot, j + 1);
  }

  /** The second loop: digits 0 of the first operand and all ones of the second. */
  method MatchingDigits(taba: array<Limb>, alen: nat, tabb: array<Limb>, blen: nat, d: nat, ghost tot: nat, j0: nat) returns (cancelled: nat)
    requires alen <= taba.Length && blen <= tabb.Length && Aligned(alen, blen, d, tot)
    requires Prefix(First(W(taba[..], 0, alen), alen, tot), tot, j0) - Prefix(Other(W(tabb[..], 0, blen), blen, d, tot), tot, j0) == 1
    ensures Leaves(First(W(taba[..], 0, alen), alen, tot), Other(W(tabb[..], 0, blen), blen, d, tot), tot, cancelled)
  {
    ghost var a, n := First(W(taba[..], 0, alen), alen, tot), Other(W(tabb[..], 0, blen), blen, d, tot);
    var j := j0;
    var v1 := TopFirst(taba, alen, tot, j);
    var v2 := TopOther(tabb, blen, d, tot, j);
    while v1 == 0 && v2 == B - 1
      invariant Prefix(a, tot, j) - Prefix(n, tot, j) == 1
      invariant v1 == TopDigit(a, tot, j) && v2 == TopDigit(n, tot, j)
      decreases tot - j
    {
      PrefixStep(a, tot, j);
      PrefixStep(n, tot, j);
      OneMore(Prefix(a, tot, j), Prefix(n, tot, j));
      j := j + 1;
      v1 := TopFirst(taba, alen, tot, j);
      v2 := TopOther(tabb, blen, d, tot, j);
    }
    PrefixStep(a, tot, j);
    PrefixStep(n, tot, j);
    OneMore(Prefix(a, tot, j), Prefix(n, tot, j));
    TLimb();
    ZerosMean(v1, B - 1 - v2, LB());
    var p1 := Zeros(v1, B - 1 - v2, LB());
    cancelled := j * LB() + p1;
    Distrib(j, 1, LB());
    PrefixLeaves(a, n, tot, j + 1, LB() - p1 - 1, cancelled);
  }

  lemma OneMore(x: int, y: int)
    requires x - y == 1
    ensures x * B - y * B == B
  {
    Distrib(x, y, B);
  }
}
