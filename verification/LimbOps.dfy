/** The carry loops of libbf.c: addition, subtraction, shifting and
    multiplication of limb buffers, in place, at an offset. Each method is
    specified by the value of the window it writes; nothing outside that window
    changes. A buffer with an offset models the C pointer `tab + off`. */
module LimbOps {
  import opened Hints
  import opened Arith
  import opened Limbs

  // ---------------------------------------------------------------- one limb

  /** limb_t addition and subtraction wrap around. */
  function AddW(x: Limb, y: Limb): Limb
  {
    if x + y < B then x + y else x + y - B
  }

  function SubW(x: Limb, y: Limb): Limb
  {
    if x >= y then x - y else x - y + B
  }

  lemma WrapMeaning(x: Limb, y: Limb)
    ensures AddW(x, y) == (x + y) % B && SubW(x, y) == (x - y) % B
  {
    DivModUnique(x + y, B, if x + y < B then 0 else 1, AddW(x, y));
    DivModUnique(x - y, B, if x >= y then 0 else -1, SubW(x, y));
  }

  /** The carry (or borrow) as a number. */
  function Top(k: Limb): nat { if k == 0 then 0 else B }

  /** v + w + k with the carry recovered from the wrapped sums. */
  method AddLimbs(v: Limb, w: Limb, k: Limb) returns (a: Limb, c: Limb)
    requires k <= 1
    ensures c <= 1 && a + Top(c) == v + w + k
  {
    a := AddW(v, w);
    var k1 := a < v;
    a := AddW(a, k);
    c := if a < k || k1 then 1 else 0;
  }

  method SubLimbs(v: Limb, w: Limb, k: Limb) returns (a: Limb, c: Limb)
    requires k <= 1
    ensures c <= 1 && a - Top(c) == v - w - k
  {
    var d := SubW(v, w);
    var k1 := d > v;
    a := SubW(d, k);
    c := if a > d || k1 then 1 else 0;
  }

  /** A product of limbs plus two limbs fits a double limb. */
  lemma MulFits(x: Limb, y: Limb, c: Limb, d: Limb)
    ensures x * y + c + d < B * B
  {
    MulMono(x, B - 1, y);
    MulMono(y, B - 1, B - 1);
    Distrib(B, 1, B - 1);
    Distrib(B, 1, B);
  }

  /** The double limb x * y + c + d, as its two halves. */
  method MulLimbs(x: Limb, y: Limb, c: Limb, d: Limb) returns (lo: Limb, hi: Limb)
    ensures lo + hi * B == x * y + c + d
  {
    var t := x * y + c + d;
    MulFits(x, y, c, d);
    DivMod(t, B);
    if t / B >= B { MulMono(B, t / B, B); assert false; }
    lo, hi := t % B, t / B;
  }

  /** x - u * b - c modulo B^2: the low limb, and what to take from the next. */
  method SubMulLimbs(x: Limb, u: Limb, b: Limb, c: Limb) returns (lo: Limb, hi: Limb)
    ensures lo - hi * B == x - u * b - c
  {
    var t := (x - u * b - c) % (B * B);
    WideBorrow(x, u * b + c, t) by { MulFits(u, b, c, B - 1); }
    lo, hi := t % B, (B - t / B) % B;
  }

  lemma WideBorrow(x: Limb, y: nat, t: int)
    requires y + (B - 1) < B * B && t == (x - y) % (B * B)
    ensures 0 <= t / B <= B && t % B - ((B - t / B) % B) * B == x - y
  {
    DivMod(t, B);
    if x >= y {
      DivModUnique(x - y, B * B, 0, x - y) by { MulMono(1, B, B); }
      DivModUnique(t, B, 0, t);
      DivModUnique(B, B, 1, 0);
    } else {
      DivModUnique(x - y, B * B, -1, x - y + B * B);
      MulCancelLess(t / B, B, B);
      MulCancelLess(0, t / B, B);
      DivModUnique(B - t / B, B, 0, B - t / B);
      Distrib(B, t / B, B);
    }
  }

  // ------------------------------------------------------------- one window

  /** Loops that run from the low limb upwards may read the buffer they write,
      provided no limb is read after it was written. */
  ghost predicate ReadAhead(res: array<Limb>, ro: nat, op: array<Limb>, o: nat, n: nat)
  {
    res != op || ro <= o || o + n <= ro
  }

  /** Two states of a buffer agree outside the window [lo, lo + n). */
  ghost predicate Outside(s: seq<Limb>, t: seq<Limb>, lo: nat, n: nat)
  {
    |s| == |t| && forall k :: 0 <= k < |s| && !(lo <= k < lo + n) ==> s[k] == t[k]
  }

  /** The invariant of the carry loops: the limbs written so far, and a carry k
      of weight B^i, make up the total. It is kept behind Ask so that the loops
      themselves reason about limbs only. */
  ghost predicate Sums(r: seq<Limb>, ro: nat, i: nat, k: int, total: int)
    requires ro + i <= |r|
  {
    forall t :: Ask(t) ==> W(r, ro, i) + k * P(i) == total
  }

  lemma SumsStart(r: seq<Limb>, ro: nat, k: int)
    requires ro <= |r|
    ensures Sums(r, ro, 0, k, k)
  {
    WZero(r, ro);
    PZero();
  }

  lemma SumsEnd(r: seq<Limb>, ro: nat, i: nat, k: int, total: int)
    requires ro + i <= |r| && Sums(r, ro, i, k, total)
    ensures W(r, ro, i) + k * P(i) == total
  {
    assert Ask(0);
  }

  lemma SumsEndBorrow(r: seq<Limb>, ro: nat, i: nat, k: Limb, total: int)
    requires ro + i <= |r| && Sums(r, ro, i, 0 - k as int, total)
    ensures W(r, ro, i) - k * P(i) == total
  {
    assert Ask(0);
    NegMul(k, P(i));
  }

  /** One limb of a carry loop: the written limb x and the new carry k1 stand
      for the limb sum and the old carry k0. */
  lemma SumsStep(r: seq<Limb>, r1: seq<Limb>, ro: nat, i: nat, k0: int, x: Limb, k1: int, sum: int, total: int)
    requires ro + i < |r| && r1 == r[ro + i := x]
    requires Sums(r, ro, i, k0, total)
    requires x + k1 * B == sum + k0
    ensures Sums(r1, ro, i + 1, k1, total + sum * P(i))
  {
    var p := P(i);
    assert Ask(0);
    assert r1[ro..ro + i] == r[ro..ro + i];
    WSnoc(r1, ro, i);
    PSucc(i);
    MulAssoc(k1, B, p);
    Distrib(x, k1 * B, p);
    Distrib(sum, k0, p);
  }

  /** The same with the carry as Top gives it: plus for sums, minus for borrows. */
  lemma CarryLimb(r: seq<Limb>, r1: seq<Limb>, ro: nat, i: nat, k0: int, x: Limb, k1: Limb, sum: int, total: int)
    requires ro + i < |r| && r1 == r[ro + i := x] && k1 <= 1
    requires Sums(r, ro, i, k0, total)
    requires x + Top(k1) == sum + k0
    ensures Sums(r1, ro, i + 1, k1, total + sum * P(i))
  {
    assert Top(k1) == k1 * B;
    SumsStep(r, r1, ro, i, k0, x, k1, sum, total);
  }

  lemma BorrowLimb(r: seq<Limb>, r1: seq<Limb>, ro: nat, i: nat, k0: int, x: Limb, k1: Limb, sum: int, total: int)
    requires ro + i < |r| && r1 == r[ro + i := x] && k1 <= 1
    requires Sums(r, ro, i, 0 - k0 as int, total)
    requires x - Top(k1) == sum - k0
    ensures Sums(r1, ro, i + 1, 0 - k1 as int, total + sum * P(i))
  {
    assert Top(k1) == k1 * B;
    NegMul(k1, B);
    SumsStep(r, r1, ro, i, 0 - k0 as int, x, 0 - k1 as int, sum, total);
  }

  lemma NegMul(x: int, y: int)
    ensures (0 - x) * y == 0 - x * y
  {}

  /** A window whose upper part did not change. */
  lemma UpperUnchanged(s: seq<Limb>, t: seq<Limb>, lo: nat, i: nat, n: nat)
    requires i <= n && lo + n <= |s| && Outside(s, t, lo, i)
    ensures W(t, lo, n) - W(s, lo, n) == W(t, lo, i) - W(s, lo, i)
  {
    assert s[lo + i..lo + i + (n - i)] == t[lo + i..lo + i + (n - i)];
    WSplit(s, lo, i, n - i);
    WSplit(t, lo, i, n - i);
  }

  /** A loop that stops early because its carry is zero. */
  lemma StopEarly(s: seq<Limb>, t: seq<Limb>, lo: nat, i: nat, n: nat, d: int)
    requires i <= n && lo + n <= |s| && Outside(s, t, lo, i)
    requires Sums(t, lo, i, 0, W(s, lo, i) + d)
    ensures Sums(t, lo, n, 0, W(s, lo, n) + d)
  {
    assert Ask(0);
    UpperUnchanged(s, t, lo, i, n);
  }

  // --------------------------------------------------- addition, subtraction

  lemma AddStep(r: seq<Limb>, r1: seq<Limb>, ro: nat, s1: seq<Limb>, o1: nat, s2: seq<Limb>, o2: nat, i: nat,
                k0: Limb, x: Limb, k1: Limb, c: int)
    requires ro + i < |r| && o1 + i < |s1| && o2 + i < |s2| && r1 == r[ro + i := x] && k1 <= 1
    requires Sums(r, ro, i, k0, W(s1, o1, i) + W(s2, o2, i) + c)
    requires x + Top(k1) == s1[o1 + i] + s2[o2 + i] + k0
    ensures Sums(r1, ro, i + 1, k1, W(s1, o1, i + 1) + W(s2, o2, i + 1) + c)
  {
    var u, w := s1[o1 + i] as int, s2[o2 + i] as int;
    WSnoc(s1, o1, i);
    WSnoc(s2, o2, i);
    Distrib(u, w, P(i));
    CarryLimb(r, r1, ro, i, k0, x, k1, u + w, W(s1, o1, i) + W(s2, o2, i) + c);
  }

  /** The invariant of MpAdd. */
  ghost predicate Accumulated(r: seq<Limb>, ro: nat, s1: seq<Limb>, o1: nat, s2: seq<Limb>, o2: nat, i: nat, k: Limb, c: Limb)
  {
    ro + i <= |r| && o1 + i <= |s1| && o2 + i <= |s2| &&
    forall t :: Ask(t) ==> Sums(r, ro, i, k, W(s1, o1, i) + W(s2, o2, i) + c)
  }

  lemma AccumulatedStart(r: seq<Limb>, ro: nat, s1: seq<Limb>, o1: nat, s2: seq<Limb>, o2: nat, c: Limb)
    requires ro <= |r| && o1 <= |s1| && o2 <= |s2|
    ensures Accumulated(r, ro, s1, o1, s2, o2, 0, c, c)
  {
    SumsStart(r, ro, c);
  }

  lemma AccumulatedStep(r: seq<Limb>, r1: seq<Limb>, ro: nat, s1: seq<Limb>, o1: nat, s2: seq<Limb>, o2: nat, i: nat,
                        k0: Limb, x: Limb, k1: Limb, c: Limb)
    requires Accumulated(r, ro, s1, o1, s2, o2, i, k0, c)
    requires ro + i < |r| && o1 + i < |s1| && o2 + i < |s2| && r1 == r[ro + i := x] && k1 <= 1
    requires x + Top(k1) == s1[o1 + i] + s2[o2 + i] + k0
    ensures Accumulated(r1, ro, s1, o1, s2, o2, i + 1, k1, c)
  {
    assert Ask(0);
    AddStep(r, r1, ro, s1, o1, s2, o2, i, k0, x, k1, c);
  }

  lemma AccumulatedEnd(r: seq<Limb>, ro: nat, s1: seq<Limb>, o1: nat, s2: seq<Limb>, o2: nat, n: nat, k: Limb, c: Limb)
    requires Accumulated(r, ro, s1, o1, s2, o2, n, k, c)
    ensures W(r, ro, n) + k * P(n) == W(s1, o1, n) + W(s2, o2, n) + c
  {
    assert Ask(0);
    SumsEnd(r, ro, n, k, W(s1, o1, n) + W(s2, o2, n) + c);
  }

  lemma SubStep(r: seq<Limb>, r1: seq<Limb>, ro: nat, s1: seq<Limb>, o1: nat, s2: seq<Limb>, o2: nat, i: nat,
                k0: Limb, x: Limb, k1: Limb, c: int)
    requires ro + i < |r| && o1 + i < |s1| && o2 + i < |s2| && r1 == r[ro + i := x] && k1 <= 1
    requires Sums(r, ro, i, 0 - k0 as int, W(s1, o1, i) - W(s2, o2, i) - c)
    requires x - Top(k1) == s1[o1 + i] - s2[o2 + i] - k0
    ensures Sums(r1, ro, i + 1, 0 - k1 as int, W(s1, o1, i + 1) - W(s2, o2, i + 1) - c)
  {
    var u, w := s1[o1 + i] as int, s2[o2 + i] as int;
    WSnoc(s1, o1, i);
    WSnoc(s2, o2, i);
    Distrib(u, w, P(i));
    BorrowLimb(r, r1, ro, i, k0, x, k1, u - w, W(s1, o1, i) - W(s2, o2, i) - c);
  }

  /** The invariant of MpSub. */
  ghost predicate Subtracted(r: seq<Limb>, ro: nat, s1: seq<Limb>, o1: nat, s2: seq<Limb>, o2: nat, i: nat, k: Limb, c: Limb)
  {
    ro + i <= |r| && o1 + i <= |s1| && o2 + i <= |s2| &&
    forall t :: Ask(t) ==> Sums(r, ro, i, 0 - k as int, W(s1, o1, i) - W(s2, o2, i) - c)
  }

  lemma SubtractedStart(r: seq<Limb>, ro: nat, s1: seq<Limb>, o1: nat, s2: seq<Limb>, o2: nat, c: Limb)
    requires ro <= |r| && o1 <= |s1| && o2 <= |s2|
    ensures Subtracted(r, ro, s1, o1, s2, o2, 0, c, c)
  {
    SumsStart(r, ro, 0 - c as int);
  }

  lemma SubtractedStep(r: seq<Limb>, r1: seq<Limb>, ro: nat, s1: seq<Limb>, o1: nat, s2: seq<Limb>, o2: nat, i: nat,
                       k0: Limb, x: Limb, k1: Limb, c: Limb)
    requires Subtracted(r, ro, s1, o1, s2, o2, i, k0, c)
    requires ro + i < |r| && o1 + i < |s1| && o2 + i < |s2| && r1 == r[ro + i := x] && k1 <= 1
    requires x - Top(k1) == s1[o1 + i] - s2[o2 + i] - k0
    ensures Subtracted(r1, ro, s1, o1, s2, o2, i + 1, k1, c)
  {
    assert Ask(0);
    SubStep(r, r1, ro, s1, o1, s2, o2, i, k0, x, k1, c);
  }

  lemma SubtractedEnd(r: seq<Limb>, ro: nat, s1: seq<Limb>, o1: nat, s2: seq<Limb>, o2: nat, n: nat, k: Limb, c: Limb)
    requires Subtracted(r, ro, s1, o1, s2, o2, n, k, c)
    ensures W(r, ro, n) - k * P(n) == W(s1, o1, n) - W(s2, o2, n) - c
  {
    assert Ask(0);
    SumsEndBorrow(r, ro, n, k, W(s1, o1, n) - W(s2, o2, n) - c);
  }

  /** Adding or subtracting a single limb, of which c is what is left. */
  lemma AddUiStep(r: seq<Limb>, r1: seq<Limb>, ro: nat, s: seq<Limb>, i: nat, k0: Limb, x: Limb, k1: Limb, c: int)
    requires ro + i < |r| == |s| && r1 == r[ro + i := x] && k1 <= 1
    requires Sums(r, ro, i, k0, W(s, ro, i) + c)
    requires x + Top(k1) == s[ro + i] + k0
    ensures Sums(r1, ro, i + 1, k1, W(s, ro, i + 1) + c)
  {
    WSnoc(s, ro, i);
    CarryLimb(r, r1, ro, i, k0, x, k1, s[ro + i], W(s, ro, i) + c);
  }

  lemma SubUiStep(r: seq<Limb>, r1: seq<Limb>, ro: nat, s: seq<Limb>, i: nat, k0: Limb, x: Limb, k1: Limb, c: int)
    requires ro + i < |r| == |s| && r1 == r[ro + i := x] && k1 <= 1
    requires Sums(r, ro, i, 0 - k0 as int, W(s, ro, i) - c)
    requires x - Top(k1) == s[ro + i] - k0
    ensures Sums(r1, ro, i + 1, 0 - k1 as int, W(s, ro, i + 1) - c)
  {
    WSnoc(s, ro, i);
    BorrowLimb(r, r1, ro, i, k0, x, k1, s[ro + i], W(s, ro, i) - c);
  }

  lemma NegStep(r: seq<Limb>, r1: seq<Limb>, s: seq<Limb>, i: nat, k0: Limb, x: Limb, k1: Limb, c: int)
    requires i < |r| == |s| && r1 == r[i := x] && k1 <= 1
    requires Sums(r, 0, i, 0 - k0 as int, 0 - W(s, 0, i) - c)
    requires x - Top(k1) == 0 - s[i] as int - k0
    ensures Sums(r1, 0, i + 1, 0 - k1 as int, 0 - W(s, 0, i + 1) - c)
  {
    WSnoc(s, 0, i);
    NegMul(s[i], P(i));
    BorrowLimb(r, r1, 0, i, k0, x, k1, 0 - s[i] as int, 0 - W(s, 0, i) - c);
  }

  method MpAdd(res: array<Limb>, ro: nat, op1: array<Limb>, o1: nat, op2: array<Limb>, o2: nat, n: nat, carry: Limb)
    returns (k: Limb)
    requires ro + n <= res.Length && o1 + n <= op1.Length && o2 + n <= op2.Length
    requires ReadAhead(res, ro, op1, o1, n) && ReadAhead(res, ro, op2, o2, n)
    requires carry <= 1
    modifies res
    ensures Outside(old(res[..]), res[..], ro, n)
    ensures k <= 1
    ensures W(res[..], ro, n) + k * P(n) == W(old(op1[..]), o1, n) + W(old(op2[..]), o2, n) + carry
  {
    ghost var s1, s2, r0 := op1[..], op2[..], res[..];
    k := carry;
    AccumulatedStart(r0, ro, s1, o1, s2, o2, carry);
    var i := 0;
    while i < n
      invariant 0 <= i <= n && k <= 1
      invariant Outside(r0, res[..], ro, i)
      invariant op1 != res ==> op1[..] == s1
      invariant op2 != res ==> op2[..] == s2
      invariant Accumulated(res[..], ro, s1, o1, s2, o2, i, k, carry)
    {
      ghost var before, k0 := res[..], k;
      var v, w := op1[o1 + i], op2[o2 + i];
      assert v == s1[o1 + i];
      assert w == s2[o2 + i];
      var a;
      a, k := AddLimbs(v, w, k);
      res[ro + i] := a;
      AccumulatedStep(before, res[..], ro, s1, o1, s2, o2, i, k0, a, k, carry);
      i := i + 1;
    }
    AccumulatedEnd(res[..], ro, s1, o1, s2, o2, n, k, carry);
  }

  method MpSub(res: array<Limb>, ro: nat, op1: array<Limb>, o1: nat, op2: array<Limb>, o2: nat, n: nat, carry: Limb)
    returns (k: Limb)
    requires ro + n <= res.Length && o1 + n <= op1.Length && o2 + n <= op2.Length
    requires ReadAhead(res, ro, op1, o1, n) && ReadAhead(res, ro, op2, o2, n)
    requires carry <= 1
    modifies res
    ensures Outside(old(res[..]), res[..], ro, n)
    ensures k <= 1
    ensures W(res[..], ro, n) - k * P(n) == W(old(op1[..]), o1, n) - W(old(op2[..]), o2, n) - carry
  {
    ghost var s1, s2, r0 := op1[..], op2[..], res[..];
    k := carry;
    SubtractedStart(r0, ro, s1, o1, s2, o2, carry);
    var i := 0;
    while i < n
      invariant 0 <= i <= n && k <= 1
      invariant Outside(r0, res[..], ro, i)
      invariant op1 != res ==> op1[..] == s1
      invariant op2 != res ==> op2[..] == s2
      invariant Subtracted(res[..], ro, s1, o1, s2, o2, i, k, carry)
    {
      ghost var before, k0 := res[..], k;
      var v, w := op1[o1 + i], op2[o2 + i];
      assert v == s1[o1 + i];
      assert w == s2[o2 + i];
      var a;
      a, k := SubLimbs(v, w, k);
      res[ro + i] := a;
      SubtractedStep(before, res[..], ro, s1, o1, s2, o2, i, k0, a, k, carry);
      i := i + 1;
    }
    SubtractedEnd(res[..], ro, s1, o1, s2, o2, n, k, carry);
  }

  /** 0 - res - carry, in place. */
  method MpNeg(res: array<Limb>, n: nat, carry: Limb) returns (k: Limb)
    requires n <= res.Length && carry <= 1
    modifies res
    ensures Outside(old(res[..]), res[..], 0, n)
    ensures k <= 1
    ensures W(res[..], 0, n) - k * P(n) == 0 - W(old(res[..]), 0, n) - carry
  {
    ghost var r0 := res[..];
    k := carry;
    SumsStart(r0, 0, 0 - k as int);
    var i := 0;
    while i < n
      invariant 0 <= i <= n && k <= 1
      invariant Outside(r0, res[..], 0, i)
      invariant Sums(res[..], 0, i, 0 - k as int, 0 - W(r0, 0, i) - carry)
    {
      ghost var before, k0 := res[..], k;
      var a;
      a, k := SubLimbs(0, res[i], k);
      res[i] := a;
      NegStep(before, res[..], r0, i, k0, a, k, carry);
      i := i + 1;
    }
    SumsEnd(res[..], 0, n, 0 - k as int, 0 - W(r0, 0, n) - carry);
    NegMul(k, P(n));
  }

  method MpAddUi(tab: array<Limb>, lo: nat, b: Limb, n: nat) returns (k: Limb)
    requires lo + n <= tab.Length
    modifies tab
    ensures Outside(old(tab[..]), tab[..], lo, n)
    ensures W(tab[..], lo, n) + k * P(n) == W(old(tab[..]), lo, n) + b
    ensures n > 0 ==> k <= 1
  {
    ghost var r0 := tab[..];
    k := b;
    SumsStart(r0, lo, k);
    var i := 0;
    while i < n
      invariant 0 <= i <= n && (i > 0 ==> k <= 1)
      invariant Outside(r0, tab[..], lo, i)
      invariant Sums(tab[..], lo, i, k, W(r0, lo, i) + b)
    {
      if k == 0 {
        StopEarly(r0, tab[..], lo, i, n, b);
        break;
      }
      ghost var before, k0 := tab[..], k;
      var a := AddW(tab[lo + i], k);
      k := if a < k then 1 else 0;
      tab[lo + i] := a;
      AddUiStep(before, tab[..], lo, r0, i, k0, a, k, b);
      i := i + 1;
    }
    SumsEnd(tab[..], lo, n, k, W(r0, lo, n) + b);
  }

  method MpSubUi(tab: array<Limb>, lo: nat, b: Limb, n: nat) returns (k: Limb)
    requires lo + n <= tab.Length
    modifies tab
    ensures Outside(old(tab[..]), tab[..], lo, n)
    ensures W(tab[..], lo, n) - k * P(n) == W(old(tab[..]), lo, n) - b
    ensures n > 0 ==> k <= 1
    ensures n == 0 ==> k == b
  {
    ghost var r0 := tab[..];
    k := b;
    SumsStart(r0, lo, 0 - k as int);
    var i := 0;
    while i < n
      invariant 0 <= i <= n && (i > 0 ==> k <= 1) && (i == 0 ==> k == b)
      invariant Outside(r0, tab[..], lo, i)
      invariant Sums(tab[..], lo, i, 0 - k as int, W(r0, lo, i) - b)
    {
      ghost var before, k0 := tab[..], k;
      var v := tab[lo + i];
      var a := SubW(v, k);
      k := if a > v then 1 else 0;
      tab[lo + i] := a;
      SubUiStep(before, tab[..], lo, r0, i, k0, a, k, b);
      i := i + 1;
      if k == 0 {
        StopEarly(r0, tab[..], lo, i, n, 0 - b as int);
        break;
      }
    }
    SumsEndBorrow(tab[..], lo, n, k, W(r0, lo, n) - b);
  }

  // ---------------------------------------------------------- multiplication

  /** The invariant of the multiplication rows: base is what the window held. */
  ghost predicate Row(r: seq<Limb>, ro: nat, i: nat, k: int, base: int, s: seq<Limb>, ao: nat, b: int)
    requires ro + i <= |r| && ao + i <= |s|
  {
    forall t :: Ask(t) ==> W(r, ro, i) + k * P(i) == base + W(s, ao, i) * b
  }

  lemma RowStart(r: seq<Limb>, ro: nat, base: int, s: seq<Limb>, ao: nat, b: int)
    requires ro <= |r| && ao <= |s|
    ensures Row(r, ro, 0, base, base, s, ao, b)
  {
    WZero(r, ro);
    WZero(s, ao);
    PZero();
  }

  lemma RowEnd(r: seq<Limb>, ro: nat, i: nat, k: int, base: int, s: seq<Limb>, ao: nat, b: int)
    requires ro + i <= |r| && ao + i <= |s| && Row(r, ro, i, k, base, s, ao, b)
    ensures W(r, ro, i) + k * P(i) == base + W(s, ao, i) * b
  {
    assert Ask(0);
  }

  lemma RowStepAlgebra(u: int, v: int, b: int, p: int, w: int)
    ensures v * b + (u * b + w) * p == (v + u * p) * b + w * p
  {
    Distrib(v, u * p, b);
    assert (u * p) * b == (u * b) * p;
    Distrib(u * b, w, p);
  }

  lemma RowStep(r: seq<Limb>, r1: seq<Limb>, ro: nat, i: nat, k0: int, x: Limb, k1: int, w: int,
                base: int, base1: int, s: seq<Limb>, ao: nat, b: int)
    requires ro + i < |r| && ao + i < |s| && r1 == r[ro + i := x]
    requires Row(r, ro, i, k0, base, s, ao, b)
    requires x + k1 * B == s[ao + i] * b + w + k0
    requires base1 == base + w * P(i)
    ensures Row(r1, ro, i + 1, k1, base1, s, ao, b)
  {
    assert Ask(0);
    SumsStep(r, r1, ro, i, k0, x, k1, s[ao + i] * b + w, base + W(s, ao, i) * b);
    WSnoc(s, ao, i);
    RowStepAlgebra(s[ao + i], W(s, ao, i), b, P(i), w);
  }

  /** tabr[] := taba[] * b + l; the high limb is returned. */
  method MpMul1(tabr: array<Limb>, ro: nat, taba: array<Limb>, ao: nat, n: nat, b: Limb, l0: Limb) returns (l: Limb)
    requires ro + n <= tabr.Length && ao + n <= taba.Length && tabr != taba
    modifies tabr
    ensures Outside(old(tabr[..]), tabr[..], ro, n)
    ensures W(tabr[..], ro, n) + l * P(n) == l0 + W(taba[..], ao, n) * b
  {
    ghost var r0, s := tabr[..], taba[..];
    l := l0;
    RowStart(r0, ro, l0, s, ao, b);
    var i := 0;
    while i < n
      invariant 0 <= i <= n
      invariant Outside(r0, tabr[..], ro, i)
      invariant taba[..] == s
      invariant Row(tabr[..], ro, i, l, l0, s, ao, b)
    {
      ghost var before, k0 := tabr[..], l;
      var t;
      t, l := MulLimbs(taba[ao + i], b, l, 0);
      tabr[ro + i] := t;
      RowStep(before, tabr[..], ro, i, k0, t, l, 0, l0, l0, s, ao, b);
      i := i + 1;
    }
    RowEnd(tabr[..], ro, n, l, l0, taba[..], ao, b);
  }

  /** tabr[] := tabr[] + taba[] * b; the high limb is returned. */
  method MpAddMul1(tabr: array<Limb>, ro: nat, taba: array<Limb>, ao: nat, n: nat, b: Limb) returns (l: Limb)
    requires ro + n <= tabr.Length && ao + n <= taba.Length && tabr != taba
    modifies tabr
    ensures Outside(old(tabr[..]), tabr[..], ro, n)
    ensures W(tabr[..], ro, n) + l * P(n) == W(old(tabr[..]), ro, n) + W(taba[..], ao, n) * b
  {
    ghost var r0, s := tabr[..], taba[..];
    l := 0;
    RowStart(r0, ro, 0, s, ao, b);
    WZero(r0, ro);
    var i := 0;
    while i < n
      invariant 0 <= i <= n
      invariant Outside(r0, tabr[..], ro, i)
      invariant taba[..] == s
      invariant Row(tabr[..], ro, i, l, W(r0, ro, i), s, ao, b)
    {
      ghost var before, k0 := tabr[..], l;
      var t;
      t, l := MulLimbs(taba[ao + i], b, l, tabr[ro + i]);
      tabr[ro + i] := t;
      WSnoc(r0, ro, i);
      RowStep(before, tabr[..], ro, i, k0, t, l, r0[ro + i], W(r0, ro, i), W(r0, ro, i + 1), s, ao, b);
      i := i + 1;
    }
    RowEnd(tabr[..], ro, n, l, W(r0, ro, n), taba[..], ao, b);
  }

  /** tabr[] := tabr[] - taba[] * b; what must still be taken from the next
      limb is returned. */
  method MpSubMul1(tabr: array<Limb>, ro: nat, taba: array<Limb>, ao: nat, n: nat, b: Limb) returns (l: Limb)
    requires ro + n <= tabr.Length && ao + n <= taba.Length && tabr != taba
    modifies tabr
    ensures Outside(old(tabr[..]), tabr[..], ro, n)
    ensures W(tabr[..], ro, n) - l * P(n) == W(old(tabr[..]), ro, n) - W(taba[..], ao, n) * b
  {
    ghost var r0, s := tabr[..], taba[..];
    l := 0;
    RowStart(r0, ro, 0, s, ao, 0 - b as int);
    WZero(r0, ro);
    var i := 0;
    while i < n
      invariant 0 <= i <= n
      invariant Outside(r0, tabr[..], ro, i)
      invariant taba[..] == s
      invariant Row(tabr[..], ro, i, 0 - l as int, W(r0, ro, i), s, ao, 0 - b as int)
    {
      ghost var before, k0 := tabr[..], l;
      var t;
      t, l := SubMulLimbs(tabr[ro + i], taba[ao + i], b, l);
      tabr[ro + i] := t;
      WSnoc(r0, ro, i);
      NegMul(l, B);
      NegMul(b, s[ao + i]);
      RowStep(before, tabr[..], ro, i, 0 - k0 as int, t, 0 - l as int, r0[ro + i], W(r0, ro, i), W(r0, ro, i + 1), s, ao, 0 - b as int);
      i := i + 1;
    }
    RowEnd(tabr[..], ro, n, 0 - l as int, W(r0, ro, n), taba[..], ao, 0 - b as int);
    NegMul(l, P(n));
    NegMul(b, W(taba[..], ao, n));
  }

  /** The invariant of the schoolbook product. */
  ghost predicate Product(r: seq<Limb>, ro: nat, n: nat, a: nat, b: nat)
    requires ro + n <= |r|
  {
    forall t :: Ask(t) ==> W(r, ro, n) == a * b
  }

  lemma FirstRow(r: seq<Limb>, r1: seq<Limb>, ro: nat, m: nat, s: seq<Limb>, o: nat, a: nat)
    requires ro + m < |r| && o < |s| && |r| == |r1| && r1 == r[ro + m := r1[ro + m]]
    requires W(r, ro, m) + r1[ro + m] * P(m) == a * s[o]
    ensures Product(r1, ro, m + 1, a, W(s, o, 1))
  {
    assert r1[ro..ro + m] == r[ro..ro + m];
    WSnoc(r1, ro, m);
    WSnoc(s, o, 0);
    WZero(s, o);
    PZero();
    assert ro + (m + 1) == ro + m + 1;
  }

  /** One row of the schoolbook product. */
  lemma NextRow(before: seq<Limb>, mid: seq<Limb>, after: seq<Limb>, ro: nat, i: nat, m: nat, a: nat, s: seq<Limb>, o: nat)
    requires |before| == |mid| == |after| && ro + i + m < |before| && o + i < |s|
    requires Outside(before, mid, ro + i, m)
    requires after == mid[ro + i + m := after[ro + i + m]]
    requires W(mid, ro + i, m) + after[ro + i + m] * P(m) == W(before, ro + i, m) + a * s[o + i]
    requires Product(before, ro, m + i, a, W(s, o, i))
    ensures Product(after, ro, m + (i + 1), a, W(s, o, i + 1))
  {
    assert Ask(0);
    assert before[ro..ro + i] == after[ro..ro + i];
    assert mid[ro + i..ro + i + m] == after[ro + i..ro + i + m];
    WSplit(before, ro, i, m);
    WSplit(after, ro, i, m + 1);
    WSnoc(after, ro + i, m);
    WSnoc(s, o, i);
    RowAlgebra(W(before, ro, i), W(before, ro + i, m), W(after, ro + i, m + 1), a, W(s, o, i), s[o + i], P(i));
  }

  lemma RowAlgebra(lo: int, hi: int, mi: int, a: int, v: int, b: int, p: int)
    requires lo + hi * p == a * v && mi == hi + a * b
    ensures lo + mi * p == a * (v + b * p)
  {
    Distrib(hi, a * b, p);
    MulAssoc(a, b, p);
    Distrib(v, b * p, a);
  }

  /** mp_mul_basecase: the product, of m + n limbs. */
  method MpMul(res: array<Limb>, ro: nat, op1: array<Limb>, o1: nat, m: nat, op2: array<Limb>, o2: nat, n: nat)
    requires n >= 1
    requires ro + m + n <= res.Length && o1 + m <= op1.Length && o2 + n <= op2.Length
    requires res != op1 && res != op2
    modifies res
    ensures Outside(old(res[..]), res[..], ro, m + n)
    ensures W(res[..], ro, m + n) == W(op1[..], o1, m) * W(op2[..], o2, n)
  {
    ghost var r0, s2 := res[..], op2[..];
    ghost var a := W(op1[..], o1, m);
    var r := MpMul1(res, ro, op1, o1, m, op2[o2], 0);
    ghost var before := res[..];
    res[ro + m] := r;
    FirstRow(before, res[..], ro, m, s2, o2, a);
    var i := 1;
    while i < n
      invariant 1 <= i <= n
      invariant Outside(r0, res[..], ro, m + i)
      invariant op2[..] == s2 && W(op1[..], o1, m) == a
      invariant Product(res[..], ro, m + i, a, W(s2, o2, i))
    {
      before := res[..];
      r := MpAddMul1(res, ro + i, op1, o1, m, op2[o2 + i]);
      ghost var mid := res[..];
      res[ro + i + m] := r;
      NextRow(before, mid, res[..], ro, i, m, a, s2, o2);
      i := i + 1;
    }
    assert Ask(0);
  }

  // ------------------------------------------------------ comparison, shifts

  /** The top limbs decide a comparison. */
  lemma ValLess(s: seq<Limb>, t: seq<Limb>, j: nat)
    requires |s| == |t| && j < |s| && s[j] < t[j] && s[j + 1..] == t[j + 1..]
    ensures Val(s) < Val(t)
  {
    assert s == s[..j + 1] + s[j + 1..] && t == t[..j + 1] + t[j + 1..];
    ValConcat(s[..j + 1], s[j + 1..]);
    ValConcat(t[..j + 1], t[j + 1..]);
    assert s[..j + 1][..j] == s[..j] && t[..j + 1][..j] == t[..j];
    ValBound(s[..j]);
    MulMono(s[j] + 1, t[j], P(j));
    Distrib(s[j], 1, P(j));
  }

  method MpCmp(taba: array<Limb>, ao: nat, tabb: array<Limb>, bo: nat, n: nat) returns (c: int)
    requires ao + n <= taba.Length && bo + n <= tabb.Length
    ensures c == 0 <==> W(taba[..], ao, n) == W(tabb[..], bo, n)
    ensures c < 0 <==> W(taba[..], ao, n) < W(tabb[..], bo, n)
  {
    ghost var s, t := taba[..][ao..ao + n], tabb[..][bo..bo + n];
    var i := n;
    while i > 0
      invariant 0 <= i <= n && s[i..] == t[i..]
    {
      i := i - 1;
      assert s[i] == taba[ao + i] && t[i] == tabb[bo + i];
      if taba[ao + i] != tabb[bo + i] {
        if taba[ao + i] < tabb[bo + i] {
          ValLess(s, t, i);
          return -1;
        } else {
          ValLess(t, s, i);
          return 1;
        }
      }
      assert s[i..] == [s[i]] + s[i + 1..];
      assert t[i..] == [t[i]] + t[i + 1..];
    }
    assert s == s[0..] && t == t[0..];
    c := 0;
  }

  method MpScanNz(tab: array<Limb>, n: nat) returns (r: bool)
    requires n <= tab.Length
    ensures r <==> W(tab[..], 0, n) != 0
  {
    for i := 0 to n
      invariant forall j :: 0 <= j < i ==> tab[j] == 0
    {
      if tab[i] != 0 {
        NonZero(tab[..][0..0 + n], i);
        return true;
      }
    }
    ValZeros(tab[..][0..0 + n]);
    r := false;
  }

  lemma NonZero(s: seq<Limb>, i: nat)
    requires i < |s| && s[i] != 0
    ensures Val(s) != 0
  {
    if Val(s) == 0 { ValZeroInv(s); }
  }

  /** The invariant of the right shift: the limbs from i upwards are halved. */
  ghost predicate Halved(r: seq<Limb>, r0: seq<Limb>, i: nat, n: nat, out: int, high: int)
    requires i + n <= |r| == |r0|
  {
    forall t :: Ask(t) ==> 2 * W(r, i, n) + out == W(r0, i, n) + high * P(n)
  }

  /** mp_shr with a shift of one bit: tab[] := (tab[] + high * B^n) / 2, the bit
      shifted out is returned. */
  method MpShr1(tab: array<Limb>, lo: nat, n: nat, high: Limb) returns (l: Limb)
    requires lo + n <= tab.Length && high <= 1
    modifies tab
    ensures Outside(old(tab[..]), tab[..], lo, n)
    ensures l <= 1 && 2 * W(tab[..], lo, n) + l == W(old(tab[..]), lo, n) + high * P(n)
  {
    ghost var r0 := tab[..];
    l := high;
    WZero(r0, lo + n);
    PZero();
    var i := n;
    while i > 0
      invariant 0 <= i <= n
      invariant Outside(r0, tab[..], lo + i, n - i)
      invariant Halved(tab[..], r0, lo + i, n - i, l % 2, high)
    {
      ghost var before, l0 := tab[..], l;
      i := i - 1;
      var a := tab[lo + i];
      HalfLimb(a, l);
      tab[lo + i] := a / 2 + l % 2 * (B / 2);
      l := a;
      HalvedStep(before, tab[..], r0, lo + i, n - i - 1, l0 % 2, high);
    }
    l := l % 2;
    assert Ask(0);
  }

  lemma HalfLimb(a: Limb, l: Limb)
    ensures a / 2 + l % 2 * (B / 2) < B
    ensures 2 * (a / 2 + l % 2 * (B / 2)) + a % 2 == a + l % 2 * B
  {
    HalfBase();
  }

  lemma HalvedStep(r: seq<Limb>, r1: seq<Limb>, r0: seq<Limb>, i: nat, m: nat, l: int, high: int)
    requires i + m < |r| == |r0| == |r1| && r1 == r[i := r1[i]]
    requires Halved(r, r0, i + 1, m, l, high)
    requires 2 * (r1[i] as int) + r0[i] as int % 2 == r0[i] as int + l * B
    ensures Halved(r1, r0, i, m + 1, r0[i] % 2, high)
  {
    assert Ask(0);
    assert r1[i + 1..i + 1 + m] == r[i + 1..i + 1 + m];
    WCons(r0, i, m + 1);
    WCons(r1, i, m + 1);
    PSucc(m);
    HalvedAlgebra(W(r, i + 1, m), W(r0, i + 1, m), l, high, P(m));
  }

  lemma HalvedAlgebra(v: int, u: int, l: int, high: int, p: int)
    requires 2 * v + l == u + high * p
    ensures 2 * (v * B) + l * B == u * B + high * (B * p)
  {
    assert (2 * v + l) * B == (u + high * p) * B;
    Distrib(2 * v, l, B);
    Distrib(u, high * p, B);
    assert high * (B * p) == (high * p) * B;
  }

  lemma WCons(s: seq<Limb>, lo: nat, n: nat)
    requires n > 0 && lo + n <= |s|
    ensures W(s, lo, n) == s[lo] + W(s, lo + 1, n - 1) * B
  {
    assert s[lo..lo + n] == [s[lo]] + s[lo + 1..lo + 1 + (n - 1)];
    ValCons(s[lo], s[lo + 1..lo + 1 + (n - 1)]);
  }

  lemma ValCons(x: Limb, s: seq<Limb>)
    ensures Val([x] + s) == x + Val(s) * B
  {
    ValConcat([x], s);
    assert [x] == [] + [x];
    ValSnoc([], x);
    assert Val([]) == 0;
    PZero();
    PSucc(0);
  }

  /** memcpy of n limbs between two buffers. */
  method CopyLimbs(dst: array<Limb>, dd: nat, src: array<Limb>, so: nat, n: nat)
    requires dst != src && dd + n <= dst.Length && so + n <= src.Length
    modifies dst
    ensures Outside(old(dst[..]), dst[..], dd, n)
    ensures W(dst[..], dd, n) == W(src[..], so, n)
  {
    ghost var d0 := dst[..];
    var i := 0;
    while i < n
      invariant 0 <= i <= n
      invariant Outside(d0, dst[..], dd, i)
      invariant dst[..][dd..dd + i] == src[..][so..so + i]
    {
      dst[dd + i] := src[so + i];
      assert dst[..][dd..dd + (i + 1)] == dst[..][dd..dd + i] + [src[so + i]];
      assert src[..][so..so + (i + 1)] == src[..][so..so + i] + [src[so + i]];
      i := i + 1;
    }
  }
}
