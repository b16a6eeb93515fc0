/** Division of limb buffers (libbf.c, 1213-1522): one limb at a time with a
    precomputed inverse, the schoolbook case, the reciprocal by Newton iteration
    and the subquadratic case. The three multi-limb routines call one another. */
module Division {
  import opened Hints
  import opened Arith
  import opened Limbs
  import opened LimbOps
  import opened DivBounds

  // ------------------------------------------------------- a one-limb divisor

  method Udiv1normInit(d: Limb) returns (m: Limb)
    requires 2 * d >= B
    ensures IsInverse(B, d, m)
  {
    var a1, a0: Limb := SubW(SubW(0, d), 1), B - 1;
    InverseFits(B, d, (a1 * B + a0) / d);
    m := (a1 * B + a0) / d;
  }

  /** a1 * B + a0 divided by d, by two multiplications. */
  method Udiv1norm(a1: Limb, a0: Limb, d: Limb, dInv: Limb) returns (q: Limb, r: Limb)
    requires 2 * d >= B && a1 < d && IsInverse(B, d, dInv)
    ensures a1 * B + a0 == q * d + r && r < d
  {
    q := Estimate(a1, a0, d, dInv);
    q, r := Correct(a1, a0, d, q);
  }

  /** The first half of udiv1norm: a quotient that is exact or one too small. */
  method Estimate(a1: Limb, a0: Limb, d: Limb, dInv: Limb) returns (q: Limb)
    requires 2 * d >= B && a1 < d && IsInverse(B, d, dInv)
    ensures 0 <= a1 * B + a0 - q * d < 2 * d
  {
    var top := 2 * a0 >= B;
    var nAdj := AddW(a0, if top then d else 0);
    var a := dInv * AddW(a1, if top then 1 else 0) + nAdj;
    ghost var y := EstimateHigh(a1, a0, d, dInv, a);
    q := AddW(a / B, a1);
  }

  /** The second half: the remainder modulo B^2 tells which. */
  method Correct(a1: Limb, a0: Limb, d: Limb, q1: Limb) returns (q: Limb, r: Limb)
    requires a1 < d && 0 <= a1 * B + a0 - q1 * d < 2 * d
    ensures a1 * B + a0 == q * d + r && r < d
  {
    ghost var v := a1 * B + a0 - q1 * d - d;
    var w := (a1 * B + a0 - q1 * d - d) % (B * B);
    WideSigned(v, d, w);
    QuotientFits(a1 * B + a0, a1, a0, d, q1);
    var ah := w / B;
    assert ah == 0 || ah == B - 1;
    q := AddW(AddW(q1, 1), ah);
    r := AddW(w % B, if ah == 0 then 0 else d);
    Finish(a1 * B + a0, q1, d, q, r);
  }

  /** The quotient is a limb. */
  lemma QuotientFits(n: int, a1: Limb, a0: Limb, d: Limb, q1: Limb)
    requires a1 < d && n == a1 * B + a0
    ensures n - q1 * d - d >= 0 ==> q1 + 1 < B
  {
    MulMono(a1, d - 1, B);
    Distrib(d, 1, B);
    if n - q1 * d - d >= 0 {
      Distrib(q1, 1, d);
      MulComm(d, B);
      MulCancelLess(q1 + 1, B, d);
    }
  }

  /** The estimate a / B + a1 is a limb, and off by one at most. */
  lemma EstimateHigh(a1: Limb, a0: Limb, d: Limb, m: Limb, a: int) returns (y: nat)
    requires 2 * d >= B && a1 < d && IsInverse(B, d, m)
    requires a == m * AddW(a1, if 2 * a0 >= B then 1 else 0) + AddW(a0, if 2 * a0 >= B then d else 0)
    ensures y == a / B && y < B && a1 + y < B
    ensures 0 <= a1 * B + a0 - (a1 + y) * d < 2 * d
  {
    var t := if 2 * a0 >= B then 1 else 0;
    assert a == m * (a1 + t) + a0 + t * (d - B);
    DivMod(a, B);
    MulNonNeg(m, a1 + t);
    MulCancelLess(-1, a / B, B);
    y := a / B;
    EstimateWithin(B, d, m, a1, a0, t, y, a % B);
    assert (a1 + y) * d <= a1 * B + a0;
    assert a1 * B + a0 < B * d by {
      MulMono(a1, d - 1, B);
      Distrib(d, 1, B);
      MulComm(d, B);
    }
    MulCancelLess(a1 + y, B, d);
  }

  /** A value in [-d, d) taken modulo B^2. */
  lemma WideSigned(v: int, d: Limb, w: int)
    requires 0 - d as int <= v < d && w == v % (B * B)
    ensures 0 <= w / B < B && 0 <= w % B < B
    ensures v >= 0 ==> w / B == 0 && w % B == v
    ensures v < 0 ==> w / B == B - 1 && w % B == v + B
  {
    MulMono(1, B, B);
    if v >= 0 {
      DivModUnique(v, B * B, 0, v);
      DivModUnique(w, B, 0, v);
    } else {
      DivModUnique(v, B * B, -1, v + B * B);
      Distrib(B, 1, B);
      DivModUnique(w, B, B - 1, v + B);
    }
  }

  lemma Finish(n: int, q1: int, d: int, q: int, r: int)
    requires n - q1 * d - d >= 0 ==> q == q1 + 1 && r == n - q1 * d - d
    requires n - q1 * d - d < 0 ==> q == q1 && r == n - q1 * d
    ensures n == q * d + r
  {
    Distrib(q1, 1, d);
  }

  /** The limbs from i upwards are divided; r is the remainder so far. */
  ghost predicate Divided(q: seq<Limb>, a: seq<Limb>, ao: nat, i: nat, n: nat, b: nat, r0: nat, r: nat)
    requires i <= n <= |q| && ao + n <= |a|
  {
    forall t :: Ask(t) ==> r0 * P(n - i) + W(a, ao + i, n - i) == W(q, i, n - i) * b + r
  }

  lemma DividedStart(q: seq<Limb>, a: seq<Limb>, ao: nat, n: nat, b: nat, r: nat)
    requires n <= |q| && ao + n <= |a|
    ensures Divided(q, a, ao, n, n, b, r, r)
  {
    WZero(q, n);
    WZero(a, ao + n);
    PZero();
  }

  lemma DividedStep(q: seq<Limb>, q1: seq<Limb>, a: seq<Limb>, ao: nat, i: nat, n: nat, b: nat, r0: nat, r: nat, r1: nat)
    requires i < n <= |q| && ao + n <= |a| && |q1| == |q| && q1 == q[i := q1[i]]
    requires Divided(q, a, ao, i + 1, n, b, r0, r)
    requires r * B + a[ao + i] == q1[i] * b + r1
    ensures Divided(q1, a, ao, i, n, b, r0, r1)
  {
    assert Ask(0);
    var m := n - i - 1;
    assert q1[i + 1..i + 1 + m] == q[i + 1..i + 1 + m];
    WCons(a, ao + i, m + 1);
    WCons(q1, i, m + 1);
    PSucc(m);
    DividedAlgebra(r0, P(m), W(a, ao + i + 1, m), W(q, i + 1, m), b, r, a[ao + i], q1[i], r1);
  }

  lemma DividedAlgebra(r0: int, p: int, u: int, v: int, b: int, r: int, a: int, x: int, r1: int)
    requires r0 * p + u == v * b + r && r * B + a == x * b + r1
    ensures r0 * (B * p) + (a + u * B) == (x + v * B) * b + r1
  {
    assert (r0 * p + u) * B == (v * b + r) * B;
    Distrib(r0 * p, u, B);
    Distrib(v * b, r, B);
    assert r0 * (B * p) == (r0 * p) * B;
    assert (x + v * B) * b == x * b + (v * b) * B by { Distrib(x, v * B, b); Swap(v, B, b); }
  }

  /** taba[] + r * B^n divided by the limb b; both branches of mp_div1norm. */
  method MpDiv1norm(tabr: array<Limb>, taba: array<Limb>, ao: nat, n: nat, b: Limb, r0: Limb) returns (r: Limb)
    requires n <= tabr.Length && ao + n <= taba.Length && tabr != taba
    requires 2 * b >= B && r0 < b
    modifies tabr
    ensures Outside(old(tabr[..]), tabr[..], 0, n)
    ensures r < b
    ensures r0 * P(n) + W(taba[..], ao, n) == W(tabr[..], 0, n) * b + r
  {
    ghost var t0 := tabr[..];
    r := r0;
    var fast := n >= 3;
    var bInv: Limb := 0;
    if fast { bInv := Udiv1normInit(b); }
    DividedStart(t0, taba[..], ao, n, b, r);
    var i := n;
    while i > 0
      invariant 0 <= i <= n && r < b
      invariant Outside(t0, tabr[..], i, n - i)
      invariant Divided(tabr[..], taba[..], ao, i, n, b, r0, r)
    {
      ghost var before, r1 := tabr[..], r;
      i := i - 1;
      var q;
      if fast {
        q, r := Udiv1norm(r, taba[ao + i], b, bInv);
      } else {
        q, r := DivLimbs(r, taba[ao + i], b);
      }
      tabr[i] := q;
      DividedStep(before, tabr[..], taba[..], ao, i, n, b, r0, r1, r);
    }
    assert Ask(0);
  }

  /** Division of a double limb by the machine. */
  method DivLimbs(a1: Limb, a0: Limb, d: Limb) returns (q: Limb, r: Limb)
    requires a1 < d
    ensures a1 * B + a0 == q * d + r && r < d
  {
    var t := a1 * B + a0;
    DivFits(a1, a0, d, t);
    q, r := t / d, t % d;
  }

  lemma DivFits(a1: Limb, a0: Limb, d: Limb, t: int)
    requires a1 < d && t == a1 * B + a0
    ensures 0 <= t / d < B && 0 <= t % d < d && t == (t / d) * d + t % d
  {
    MulMono(a1, d - 1, B);
    Distrib(d, 1, B);
    MulComm(d, B);
    MulNonNeg(a1, B);
    DivMod(t, d);
    MulCancelLess(t / d, B, d);
    MulCancelLess(-1, t / d, d);
  }

  // ------------------------------------------------------ schoolbook division

  /** A window is normalized when its top bit is set. */
  ghost predicate Normalized(s: seq<Limb>, lo: nat, n: nat)
  {
    n > 0 && lo + n <= |s| && 2 * s[lo + n - 1] >= B
  }

  lemma NormalizedValue(s: seq<Limb>, lo: nat, n: nat)
    requires n > 0 && lo + n <= |s|
    ensures Normalized(s, lo, n) <==> 2 * W(s, lo, n) >= P(n)
  {
    HalfBase();
    var t := s[lo..lo + n];
    ValTop(t, B / 2);
    PSucc(n - 1);
    assert P(n) == 2 * ((B / 2) * P(n - 1)) by { MulAssoc(2, B / 2, P(n - 1)); }
  }

  /** The top limb of a window. */
  lemma WTop(s: seq<Limb>, lo: nat, n: nat)
    requires n > 0 && lo + n <= |s|
    ensures W(s, lo, n) == W(s, lo, n - 1) + s[lo + n - 1] * P(n - 1)
    ensures W(s, lo, n - 1) < P(n - 1)
  {
    WSnoc(s, lo, n - 1);
    WBound(s, lo, n - 1);
  }

  lemma TopTwo(s: seq<Limb>, wo: nat, nb: nat)
    requires nb >= 1 && wo + nb + 1 <= |s|
    ensures var al := s[wo + nb] * B + s[wo + nb - 1];
            al * P(nb - 1) <= W(s, wo, nb + 1) < (al + 1) * P(nb - 1)
  {
    var p := P(nb - 1);
    WTop(s, wo, nb + 1);
    WTop(s, wo, nb);
    PSucc(nb - 1);
    assert s[wo + nb] * P(nb) == (s[wo + nb] * B) * p by { MulAssoc(s[wo + nb], B, p); }
    var hi: int, lo: int := s[wo + nb] * B, s[wo + nb - 1];
    Distrib(hi, lo, p);
    Distrib(hi + lo, 1, p);
  }

  /** The one-limb estimate of a quotient digit. */
  method EstimateDigit(taba: array<Limb>, wo: nat, tabb: array<Limb>, bo: nat, nb: nat, useInv: bool, b1Inv: Limb)
    returns (q: Limb)
    requires nb >= 2 && wo + nb + 1 <= taba.Length && bo + nb <= tabb.Length
    requires Normalized(tabb[..], bo, nb)
    requires useInv ==> IsInverse(B, tabb[bo + nb - 1], b1Inv)
    requires W(taba[..], wo + 1, nb) < W(tabb[..], bo, nb)
    ensures (q as int - 2) * W(tabb[..], bo, nb) <= W(taba[..], wo, nb + 1) < (q + 1) * W(tabb[..], bo, nb)
  {
    var b1 := tabb[bo + nb - 1];
    if taba[wo + nb] >= b1 {
      q := B - 1;
    } else if useInv {
      var r;
      q, r := Udiv1norm(taba[wo + nb], taba[wo + nb - 1], b1, b1Inv);
    } else {
      var r;
      q, r := DivLimbs(taba[wo + nb], taba[wo + nb - 1], b1);
    }
    EstimateGood(taba[..], wo, tabb[..], bo, nb, q);
  }

  lemma EstimateGood(a: seq<Limb>, wo: nat, b: seq<Limb>, bo: nat, nb: nat, q: Limb)
    requires nb >= 2 && wo + nb + 1 <= |a| && bo + nb <= |b|
    requires Normalized(b, bo, nb)
    requires W(a, wo + 1, nb) < W(b, bo, nb)
    requires a[wo + nb] >= b[bo + nb - 1] ==> q == B - 1
    requires var al, b1 := a[wo + nb] * B + a[wo + nb - 1], b[bo + nb - 1];
             a[wo + nb] < b1 ==> q * b1 <= al < q * b1 + b1
    ensures (q as int - 2) * W(b, bo, nb) <= W(a, wo, nb + 1) < (q + 1) * W(b, bo, nb)
  {
    var al, b1: int, v, t, p := a[wo + nb] * B + a[wo + nb - 1], b[bo + nb - 1], W(b, bo, nb), W(a, wo, nb + 1), P(nb - 1);
    TopTwo(a, wo, nb);
    WTop(b, bo, nb);
    assert b1 * p <= v < (b1 + 1) * p by { Distrib(b1, 1, p); }
    if a[wo + nb] < b1 {
      Distrib(q, 1, b1);
      EstimateNotTooSmall(q, b1, v, t, al, p);
    } else {
      MulMono(b1, a[wo + nb], B);
      MulComm(q, b1);
      Distrib(B, 1, b1);
      WCons(a, wo, nb + 1);
      MulMono(W(a, wo + 1, nb), v - 1, B);
      Distrib(v, 1, B);
    }
    EstimateNotTooLarge(B, q, b1, v, t, al, p);
  }

  /** Subtracts q times the divisor from a window of nb + 1 limbs; tells whether
      the result is negative. */
  method SubtractDigit(taba: array<Limb>, wo: nat, tabb: array<Limb>, bo: nat, nb: nat, q: Limb) returns (neg: bool)
    requires wo + nb + 1 <= taba.Length && bo + nb <= tabb.Length && taba != tabb
    modifies taba
    ensures Outside(old(taba[..]), taba[..], wo, nb + 1)
    ensures W(taba[..], wo, nb + 1) - (if neg then P(nb + 1) else 0) == W(old(taba[..]), wo, nb + 1) - q * W(tabb[..], bo, nb)
  {
    ghost var s0 := taba[..];
    var r := MpSubMul1(taba, wo, tabb, bo, nb, q);
    ghost var s1 := taba[..];
    var v := taba[wo + nb];
    var a := SubW(v, r);
    neg := a > v;
    taba[wo + nb] := a;
    SubtractTop(s0, s1, taba[..], wo, nb, r, neg);
    MulComm(q, W(tabb[..], bo, nb));
  }

  lemma SubtractTop(s0: seq<Limb>, s1: seq<Limb>, s2: seq<Limb>, wo: nat, nb: nat, r: Limb, neg: bool)
    requires |s0| == |s1| == |s2| && wo + nb < |s0| && s1[wo + nb] == s0[wo + nb]
    requires s2 == s1[wo + nb := s2[wo + nb]]
    requires s2[wo + nb] - (if neg then B else 0) == s0[wo + nb] - r
    ensures W(s2, wo, nb + 1) - (if neg then P(nb + 1) else 0)
         == W(s0, wo, nb + 1) + (W(s1, wo, nb) - r * P(nb)) - W(s0, wo, nb)
  {
    var p := P(nb);
    assert s2[wo..wo + nb] == s1[wo..wo + nb];
    WSnoc(s0, wo, nb);
    WSnoc(s2, wo, nb);
    PSucc(nb);
    var x: int, y: int := s2[wo + nb], s0[wo + nb];
    if neg {
      Distrib(x, B, p);
    }
    Distrib(y, r, p);
  }

  /** Adds the divisor back; tells whether the sum wrapped, that is, whether the
      represented value is no longer negative. */
  method AddBack(taba: array<Limb>, wo: nat, tabb: array<Limb>, bo: nat, nb: nat) returns (done: bool)
    requires wo + nb + 1 <= taba.Length && bo + nb <= tabb.Length && taba != tabb
    modifies taba
    ensures Outside(old(taba[..]), taba[..], wo, nb + 1)
    ensures W(taba[..], wo, nb + 1) + (if done then P(nb + 1) else 0) == W(old(taba[..]), wo, nb + 1) + W(tabb[..], bo, nb)
  {
    ghost var s0 := taba[..];
    var c := MpAdd(taba, wo, taba, wo, tabb, bo, nb, 0);
    ghost var s1 := taba[..];
    done := false;
    if c != 0 {
      taba[wo + nb] := AddW(taba[wo + nb], 1);
      done := taba[wo + nb] == 0;
    }
    AddTop(s0, s1, taba[..], wo, nb, c, done);
  }

  lemma AddTop(s0: seq<Limb>, s1: seq<Limb>, s2: seq<Limb>, wo: nat, nb: nat, c: Limb, done: bool)
    requires |s0| == |s1| == |s2| && wo + nb < |s0| && s1[wo + nb] == s0[wo + nb]
    requires s2 == s1[wo + nb := s2[wo + nb]]
    requires s2[wo + nb] + (if done then B else 0) == s0[wo + nb] + c
    ensures W(s2, wo, nb + 1) + (if done then P(nb + 1) else 0)
         == W(s0, wo, nb + 1) + (W(s1, wo, nb) + c * P(nb)) - W(s0, wo, nb)
  {
    var p := P(nb);
    assert s2[wo..wo + nb] == s1[wo..wo + nb];
    WSnoc(s0, wo, nb);
    WSnoc(s2, wo, nb);
    PSucc(nb);
    var x: int, y: int := s2[wo + nb], s0[wo + nb];
    if done {
      Distrib(x, B, p);
    }
    Distrib(y, c, p);
  }

  lemma TopZero(s: seq<Limb>, wo: nat, nb: nat)
    requires wo + nb + 1 <= |s| && W(s, wo, nb + 1) < P(nb)
    ensures W(s, wo, nb) == W(s, wo, nb + 1) && s[wo + nb] == 0
  {
    WSnoc(s, wo, nb);
    MulCancelLess(s[wo + nb], 1, P(nb));
  }

  /** The window holds t - q * v, which is negative, plus B^(nb + 1). */
  ghost predicate Owes(s: seq<Limb>, wo: nat, nb: nat, q: int, v: int, t: int)
    requires wo + nb + 1 <= |s|
  {
    forall k :: Ask(k) ==> W(s, wo, nb + 1) - P(nb + 1) == t - q * v < 0
  }

  lemma OwesStep(s0: seq<Limb>, s: seq<Limb>, wo: nat, nb: nat, q0: int, q: int, v: int, t: int, done: bool)
    requires wo + nb + 1 <= |s0| == |s| && Owes(s0, wo, nb, q, v, t)
    requires v > 0 && t >= 0 && (q0 - 2) * v <= t
    requires W(s, wo, nb + 1) + (if done then P(nb + 1) else 0) == W(s0, wo, nb + 1) + v
    ensures q > 0 && q0 - q <= 1
    ensures done ==> W(s, wo, nb + 1) == t - (q - 1) * v < v
    ensures !done ==> Owes(s, wo, nb, q - 1, v, t)
  {
    assert Ask(0);
    MulCancelLess(q0 - 2, q, v);
    MulCancelLess(0, q, v);
    Distrib(q, 1, v);
    WBound(s, wo, nb + 1);
  }

  /** The add-back loop of mp_divnorm. */
  method Restore(taba: array<Limb>, wo: nat, tabb: array<Limb>, bo: nat, nb: nat, q0: Limb, ghost t: nat)
    returns (q: Limb, ghost adds: nat)
    requires wo + nb + 1 <= taba.Length && bo + nb <= tabb.Length && taba != tabb
    requires W(tabb[..], bo, nb) > 0
    requires Owes(taba[..], wo, nb, q0, W(tabb[..], bo, nb), t)
    requires (q0 as int - 2) * W(tabb[..], bo, nb) <= t
    modifies taba
    ensures Outside(old(taba[..]), taba[..], wo, nb + 1)
    ensures W(taba[..], wo, nb + 1) == t - q * W(tabb[..], bo, nb) < W(tabb[..], bo, nb)
    ensures adds <= 2
  {
    ghost var s0, v := taba[..], W(tabb[..], bo, nb);
    q, adds := q0, 0;
    while true
      invariant Outside(s0, taba[..], wo, nb + 1)
      invariant W(tabb[..], bo, nb) == v
      invariant q as int + adds == q0
      invariant Owes(taba[..], wo, nb, q, v, t)
      decreases q
    {
      ghost var s1, q1 := taba[..], q;
      var done := AddBack(taba, wo, tabb, bo, nb);
      OwesStep(s1, taba[..], wo, nb, q0, q, v, t, done);
      q := q - 1;
      adds := adds + 1;
      if done { return; }
    }
  }

  /** t == q * v + r, kept behind Ask. */
  ghost predicate DigitOf(t: int, q: int, v: int, r: int)
  {
    forall k :: Ask(k) ==> t == q * v + r
  }

  /** One digit of the quotient: the window of nb + 1 limbs at wo, whose top nb
      limbs are below the divisor, is reduced below the divisor. The estimated
      digit is at most two too large. */
  method DivDigit(taba: array<Limb>, wo: nat, tabb: array<Limb>, bo: nat, nb: nat, useInv: bool, b1Inv: Limb)
    returns (q: Limb, ghost adds: nat)
    requires nb >= 2 && wo + nb + 1 <= taba.Length && bo + nb <= tabb.Length && taba != tabb
    requires Normalized(tabb[..], bo, nb)
    requires useInv ==> IsInverse(B, tabb[bo + nb - 1], b1Inv)
    requires W(taba[..], wo + 1, nb) < W(tabb[..], bo, nb)
    modifies taba
    ensures Outside(old(taba[..]), taba[..], wo, nb + 1)
    ensures DigitOf(W(old(taba[..]), wo, nb + 1), q, W(tabb[..], bo, nb), W(taba[..], wo, nb))
    ensures W(taba[..], wo, nb) < W(tabb[..], bo, nb)
    ensures adds <= 2
  {
    ghost var v, t := W(tabb[..], bo, nb), W(taba[..], wo, nb + 1);
    NormalizedValue(tabb[..], bo, nb);
    WBound(tabb[..], bo, nb);
    q := EstimateDigit(taba, wo, tabb, bo, nb, useInv, b1Inv);
    Distrib(q, 1, v);
    var neg := SubtractDigit(taba, wo, tabb, bo, nb, q);
    adds := 0;
    WBound(taba[..], wo, nb + 1);
    if neg {
      q, adds := Restore(taba, wo, tabb, bo, nb, q, t);
    }
    TopZero(taba[..], wo, nb);
  }

  ghost predicate IsDivision(a: nat, b: nat, q: nat, r: nat)
  {
    a == q * b + r && r < b
  }

  /** The quotient digits from i upwards are known; the rest of the dividend is in
      the limbs below i + nb. */
  ghost predicate Reduced(q: seq<Limb>, a: seq<Limb>, ao: nat, i: nat, n: nat, nb: nat, v: nat, total: nat)
    requires i <= n + 1 <= |q| && ao + i + nb <= |a|
  {
    forall t :: Ask(t) ==> total == (W(q, i, n + 1 - i) * v) * P(i) + W(a, ao, i + nb)
  }

  lemma ReducedStart(a0: seq<Limb>, q: seq<Limb>, a: seq<Limb>, ao: nat, n: nat, nb: nat, v: nat)
    requires n < |q| && q[n] <= 1 && ao + n + nb <= |a0| == |a| && Outside(a0, a, ao + n, nb)
    requires W(a, ao + n, nb) == W(a0, ao + n, nb) - (if q[n] == 1 then v else 0)
    ensures Reduced(q, a, ao, n, n, nb, v, W(a0, ao, n + nb))
  {
    WSplit(a0, ao, n, nb);
    WSplit(a, ao, n, nb);
    assert a0[ao..ao + n] == a[ao..ao + n];
    WSnoc(q, n, 0);
    WZero(q, n);
    PZero();
    Distrib(W(a, ao + n, nb), q[n] * v, P(n));
  }

  lemma ReducedStep(q0: seq<Limb>, q: seq<Limb>, a0: seq<Limb>, a: seq<Limb>, ao: nat, i: nat, n: nat, nb: nat, v: nat, total: nat)
    requires i < n < |q| == |q0| && q == q0[i := q[i]]
    requires ao + i + 1 + nb <= |a0| == |a| && Outside(a0, a, ao + i, nb + 1)
    requires Reduced(q0, a0, ao, i + 1, n, nb, v, total)
    requires DigitOf(W(a0, ao + i, nb + 1), q[i], v, W(a, ao + i, nb))
    ensures Reduced(q, a, ao, i, n, nb, v, total)
  {
    assert Ask(0);
    var m := n - i;
    assert q[i + 1..i + 1 + m] == q0[i + 1..i + 1 + m];
    WCons(q, i, m + 1);
    WSplit(a0, ao, i, nb + 1);
    WSplit(a, ao, i, nb);
    PSucc(i);
    assert a0[ao..ao + i] == a[ao..ao + i];
    ReducedAlgebra(W(q, i + 1, m), q[i], v, P(i), W(a0, ao + i, nb + 1), W(a, ao + i, nb));
  }

  lemma ReducedAlgebra(w: int, x: int, v: int, p: int, t: int, r: int)
    requires t == x * v + r
    ensures (w * v) * (B * p) + t * p == ((x + w * B) * v) * p + r * p
  {
    Distrib(x * v, r, p);
    assert (x + w * B) * v == x * v + (w * v) * B by { Distrib(x, w * B, v); Swap(w, B, v); }
    Distrib(x * v, (w * v) * B, p);
    MulAssoc(w * v, B, p);
  }

  lemma TopDigit(q: seq<Limb>, n: nat, a: nat, b: nat, na: nat, nb: nat)
    requires n + 1 <= |q| && na == n + nb && a < P(na) && P(nb) <= 2 * b
    requires W(q, 0, n + 1) * b <= a
    ensures q[n] <= 1
  {
    WTop(q, 0, n + 1);
    PAdd(n, nb);
    var x, p := q[n] as int, P(n);
    MulMono(x * p, W(q, 0, n + 1), b);
    MulMono(P(nb), 2 * b, p);
    assert (x * p) * b == x * (p * b) && p * (2 * b) == 2 * (p * b);
    MulCancelLess(x, 2, p * b);
  }

  /** mp_divnorm for divisors of two limbs and more, digit by digit. */
  method DivSchoolbook(tabq: array<Limb>, taba: array<Limb>, ao: nat, na: nat, tabb: array<Limb>, bo: nat, nb: nat)
    requires 2 <= nb <= na && ao + na <= taba.Length && bo + nb <= tabb.Length && na - nb < tabq.Length
    requires tabq != taba && tabq != tabb && taba != tabb
    requires Normalized(tabb[..], bo, nb)
    modifies tabq, taba
    ensures Outside(old(taba[..]), taba[..], ao, na) && Outside(old(tabq[..]), tabq[..], 0, na - nb + 1)
    ensures DigitOf(W(old(taba[..]), ao, na), W(tabq[..], 0, na - nb + 1), W(tabb[..], bo, nb), W(taba[..], ao, nb))
    ensures W(taba[..], ao, nb) < W(tabb[..], bo, nb)
  {
    ghost var v, total := W(tabb[..], bo, nb), W(taba[..], ao, na);
    var n := na - nb;
    var useInv := n >= 3;
    var b1Inv: Limb := 0;
    if useInv { b1Inv := Udiv1normInit(tabb[bo + nb - 1]); }
    FirstDigit(tabq, taba, ao, na, tabb, bo, nb);
    OtherDigits(tabq, taba, ao, n, tabb, bo, nb, useInv, b1Inv, total);
    ReducedEnd(tabq[..], taba[..], ao, n, nb, v, total);
  }

  /** The main loop of mp_divnorm. */
  method OtherDigits(tabq: array<Limb>, taba: array<Limb>, ao: nat, n: nat, tabb: array<Limb>, bo: nat, nb: nat,
                     useInv: bool, b1Inv: Limb, ghost total: nat)
    requires 2 <= nb && ao + n + nb <= taba.Length && bo + nb <= tabb.Length && n < tabq.Length
    requires tabq != taba && tabq != tabb && taba != tabb
    requires Normalized(tabb[..], bo, nb)
    requires useInv ==> IsInverse(B, tabb[bo + nb - 1], b1Inv)
    requires W(taba[..], ao + n, nb) < W(tabb[..], bo, nb)
    requires Reduced(tabq[..], taba[..], ao, n, n, nb, W(tabb[..], bo, nb), total)
    modifies tabq, taba
    ensures Outside(old(taba[..]), taba[..], ao, n + nb) && Outside(old(tabq[..]), tabq[..], 0, n)
    ensures W(taba[..], ao, nb) < W(tabb[..], bo, nb)
    ensures Reduced(tabq[..], taba[..], ao, 0, n, nb, W(tabb[..], bo, nb), total)
  {
    ghost var a0, q0, v := taba[..], tabq[..], W(tabb[..], bo, nb);
    var i := n;
    while i > 0
      invariant 0 <= i <= n
      invariant tabb[..] == old(tabb[..])
      invariant Outside(a0, taba[..], ao, n + nb) && Outside(q0, tabq[..], i, n - i)
      invariant W(taba[..], ao + i, nb) < v
      invariant Reduced(tabq[..], taba[..], ao, i, n, nb, v, total)
    {
      ghost var a1, q1 := taba[..], tabq[..];
      i := i - 1;
      var q, adds := DivDigit(taba, ao + i, tabb, bo, nb, useInv, b1Inv);
      tabq[i] := q;
      ReducedStep(q1, tabq[..], a1, taba[..], ao, i, n, nb, v, total);
    }
  }

  lemma ReducedEnd(q: seq<Limb>, a: seq<Limb>, ao: nat, n: nat, nb: nat, v: nat, total: nat)
    requires n < |q| && ao + nb <= |a| && Reduced(q, a, ao, 0, n, nb, v, total)
    ensures DigitOf(total, W(q, 0, n + 1), v, W(a, ao, nb))
  {
    assert Ask(0);
    PZero();
  }

  /** The first iteration: the quotient digit is 0 or 1. */
  method FirstDigit(tabq: array<Limb>, taba: array<Limb>, ao: nat, na: nat, tabb: array<Limb>, bo: nat, nb: nat)
    requires 1 <= nb <= na && ao + na <= taba.Length && bo + nb <= tabb.Length && na - nb < tabq.Length
    requires tabq != taba && tabq != tabb && taba != tabb
    requires Normalized(tabb[..], bo, nb)
    modifies tabq, taba
    ensures Outside(old(taba[..]), taba[..], ao + (na - nb), nb) && Outside(old(tabq[..]), tabq[..], na - nb, 1)
    ensures W(taba[..], ao + (na - nb), nb) < W(tabb[..], bo, nb)
    ensures Reduced(tabq[..], taba[..], ao, na - nb, na - nb, nb, W(tabb[..], bo, nb), W(old(taba[..]), ao, na))
  {
    ghost var a0, v := taba[..], W(tabb[..], bo, nb);
    var n := na - nb;
    NormalizedValue(tabb[..], bo, nb);
    WBound(a0, ao + n, nb);
    var c := MpCmp(taba, ao + n, tabb, bo, nb);
    tabq[n] := if c < 0 then 0 else 1;
    if c >= 0 {
      var k := MpSub(taba, ao + n, taba, ao + n, tabb, bo, nb, 0);
      WBound(taba[..], ao + n, nb);
      assert k == 0;
    }
    ReducedStart(a0, tabq[..], taba[..], ao, n, nb, v);
  }

  // --------------------------------------- reciprocal, subquadratic division

  const DIVNORM_LARGE_THRESHOLD := 50

  function Min(x: nat, y: nat): nat { if x < y then x else y }

  /** The routines below call one another; this is what decreases. */
  function Load(na: nat, nb: nat): nat
    requires nb <= na
  {
    if Min(na - nb, nb) >= DIVNORM_LARGE_THRESHOLD then na else 0
  }

  /** taba[] of na limbs divided by the normalized tabb[] of nb limbs: quotient in
      tabq[] (na - nb + 1 limbs, the top one 0 or 1), remainder in the low nb
      limbs of taba[]. */
  method MpDivnorm(tabq: array<Limb>, taba: array<Limb>, ao: nat, na: nat, tabb: array<Limb>, bo: nat, nb: nat)
    requires 1 <= nb <= na && ao + na <= taba.Length && bo + nb <= tabb.Length && na - nb < tabq.Length
    requires tabq != taba && tabq != tabb && taba != tabb
    requires Normalized(tabb[..], bo, nb)
    modifies tabq, taba
    ensures Outside(old(taba[..]), taba[..], ao, na) && Outside(old(tabq[..]), tabq[..], 0, na - nb + 1)
    ensures IsDivision(W(old(taba[..]), ao, na), W(tabb[..], bo, nb), W(tabq[..], 0, na - nb + 1), W(taba[..], ao, nb))
    ensures tabq[na - nb] <= 1
    decreases Load(na, nb), 2
  {
    ghost var a0 := taba[..];
    if nb == 1 {
      var b1 := tabb[bo];
      taba[ao] := MpDiv1norm(tabq, taba, ao, na, b1, 0);
      OneLimb(tabb[..], bo);
      OneLimb(taba[..], ao);
    } else if Min(na - nb, nb) >= DIVNORM_LARGE_THRESHOLD {
      MpDivnormLarge(tabq, taba, ao, na, tabb, bo, nb);
    } else {
      DivSchoolbook(tabq, taba, ao, na, tabb, bo, nb);
      assert Ask(0);
    }
    NormalizedValue(tabb[..], bo, nb);
    WBound(a0, ao, na);
    TopDigit(tabq[..], na - nb, W(a0, ao, na), W(tabb[..], bo, nb), na, nb);
  }

  lemma OneLimb(s: seq<Limb>, lo: nat)
    requires lo < |s|
    ensures W(s, lo, 1) == s[lo]
  {
    WSnoc(s, lo, 0);
    WZero(s, lo);
    PZero();
  }

  /** x approximates B^(2n) / a from below, to within two units; it has n + 1
      limbs and its top limb is 1. */
  ghost predicate IsRecip(a: nat, x: nat, n: nat)
  {
    a * x < P(2 * n) < a * (x + 2) && P(n) <= x < 2 * P(n)
  }

  /** The bounds on the reciprocal bound its size. */
  lemma RecipSize(a: nat, x: nat, n: nat)
    requires P(n) <= 2 * a && a < P(n)
    requires a * x < P(2 * n)
    ensures x < 2 * P(n)
    ensures P(2 * n) <= a * (x + 1) ==> P(n) <= x
  {
    var p := P(n);
    PAdd(n, n);
    MulMono(p, 2 * a, p);
    assert (2 * a) * p == (2 * p) * a;
    MulCancelLess(x, 2 * p, a);
    if P(2 * n) <= a * (x + 1) {
      assert p * p < p * (x + 1) by { MulStrict(a, p, x + 1); }
      MulCancelLess(p, x + 1, p);
    }
  }

  lemma RecipTopLimb(s: seq<Limb>, ro: nat, n: nat)
    requires ro + n + 1 <= |s| && P(n) <= W(s, ro, n + 1) < 2 * P(n)
    ensures s[ro + n] == 1
  {
    WTop(s, ro, n + 1);
    MulCancelLess(s[ro + n], 2, P(n));
    MulCancelLess(0, s[ro + n], P(n));
  }

  /** The reciprocal of a normalized number (algorithm 3.5 of Brent and
      Zimmermann, Modern Computer Arithmetic). */
  method MpRecip(tabr: array<Limb>, ro: nat, taba: array<Limb>, ao: nat, n: nat)
    requires n >= 1 && ro + n + 1 <= tabr.Length && ao + n <= taba.Length && tabr != taba
    requires Normalized(taba[..], ao, n)
    modifies tabr
    ensures Outside(old(tabr[..]), tabr[..], ro, n + 1)
    ensures IsRecip(W(taba[..], ao, n), W(tabr[..], ro, n + 1), n)
    ensures tabr[ro + n] == 1
    decreases n, 1
  {
    if n <= 2 {
      RecipSmallCase(tabr, ro, taba, ao, n);
    } else {
      var l := (n - 1) / 2;
      var h := n - l;
      ghost var t0 := tabr[..];
      assert Normalized(taba[..], ao + l, h);
      MpRecip(tabr, ro + l, taba, ao + l, h);
      RecipNewton(tabr, ro, taba, ao, n, l, h);
    }
    RecipTopLimb(tabr[..], ro, n);
  }

  /** B^(2n) divided by a one- or two-limb number. */
  method PowerQuotient(taba: array<Limb>, ao: nat, n: nat) returns (tabt: array<Limb>, exact: bool, ghost r: nat)
    requires 1 <= n <= 2 && ao + n <= taba.Length && Normalized(taba[..], ao, n)
    ensures fresh(tabt) && tabt.Length == n + 2
    ensures 1 <= W(tabt[..], 0, n + 1)
    ensures IsDivision(P(2 * n), W(taba[..], ao, n), W(tabt[..], 0, n + 1), r) && exact == (r == 0)
    decreases n, 0, 0
  {
    var tabu := new Limb[2 * n + 1](_ => 0);
    tabt := new Limb[n + 2](_ => 0);
    tabu[2 * n] := 1;
    PowerBuffer(tabu[..], 2 * n);
    MpDivnorm(tabt, tabu, 0, 2 * n + 1, taba, ao, n);
    r := W(tabu[..], 0, n);
    NormalizedValue(taba[..], ao, n);
    WBound(taba[..], ao, n);
    SmallQuotient(tabt[..], n, W(taba[..], ao, n), r);
    var nz := MpScanNz(tabu, n);
    exact := !nz;
  }

  /** ceil(B^(2n) / a) - 1 for one and two limbs. */
  method RecipSmallCase(tabr: array<Limb>, ro: nat, taba: array<Limb>, ao: nat, n: nat)
    requires 1 <= n <= 2 && ro + n + 1 <= tabr.Length && ao + n <= taba.Length && tabr != taba
    requires Normalized(taba[..], ao, n)
    modifies tabr
    ensures Outside(old(tabr[..]), tabr[..], ro, n + 1)
    ensures IsRecip(W(taba[..], ao, n), W(tabr[..], ro, n + 1), n)
    decreases n, 0, 1
  {
    var tabt, exact, r := PowerQuotient(taba, ao, n);
    ghost var q := W(tabt[..], 0, n + 1);
    CopyLimbs(tabr, ro, tabt, 0, n + 1);
    if exact {
      var k := MpSubUi(tabr, ro, 1, n + 1);
      WBound(tabr[..], ro, n + 1);
      assert k == 0;
    }
    NormalizedValue(taba[..], ao, n);
    WBound(taba[..], ao, n);
    SmallRecip(W(taba[..], ao, n), q, r, W(tabr[..], ro, n + 1), n);
  }

  lemma PowerBuffer(s: seq<Limb>, m: nat)
    requires m + 1 == |s| && s[m] == 1 && forall i :: 0 <= i < m ==> s[i] == 0
    ensures W(s, 0, m + 1) == P(m)
  {
    WSnoc(s, 0, m);
    ValZeros(s[0..0 + m]);
  }

  /** The quotient of B^(2n) fits n + 1 limbs, unless it is the power itself. */
  lemma SmallQuotient(t: seq<Limb>, n: nat, a: nat, r: nat)
    requires |t| == n + 2 && P(n) <= 2 * a && a < P(n) && IsDivision(P(2 * n), a, W(t, 0, n + 2), r)
    ensures W(t, 0, n + 1) == W(t, 0, n + 2) >= 1
  {
    PAdd(n, n);
    PSucc(n);
    QuotientOfSquare(P(n), a, W(t, 0, n + 2), r);
    MulStrict(2, B, P(n));
    TopZero(t, 0, n + 1);
  }

  lemma QuotientOfSquare(p: nat, a: nat, q: nat, r: nat)
    requires p <= 2 * a && a < p && IsDivision(p * p, a, q, r)
    ensures 1 <= q <= 2 * p
  {
    MulMono(p, 2 * a, p);
    assert (2 * a) * p == (2 * p) * a;
    MulCancelLeq(q, 2 * p, a);
    MulMono(1, p, p);
    MulCancelLess(0, q, a);
  }

  lemma SmallRecip(a: nat, q: nat, r: nat, x: nat, n: nat)
    requires P(n) <= 2 * a && a < P(n) && IsDivision(P(2 * n), a, q, r) && q >= 1
    requires x == if r == 0 then q - 1 else q
    ensures IsRecip(a, x, n)
  {
    MulComm(q, a);
    Distrib(q, 1, a);
    Distrib(x, 1, a);
    Distrib(x, 2, a);
    RecipSize(a, x, n);
  }

  /** Before the Newton step: t = a * x, and x is short of the exact reciprocal of
      a by two at most. */
  ghost predicate Approximates(t: seq<Limb>, r: seq<Limb>, xo: nat, n: nat, h: nat, a: nat)
    requires n + h + 1 <= |t| && xo + h + 1 <= |r|
  {
    forall k :: Ask(k) ==>
      var x := W(r, xo, h + 1);
      W(t, 0, n + h + 1) == a * x && P(n + h) <= a * (x + 2) && P(h) <= x < 2 * P(h)
  }

  lemma ApproximatesStart(t: seq<Limb>, r: seq<Limb>, xo: nat, s: seq<Limb>, ao: nat, n: nat, l: nat)
    requires l < n && n + (n - l) + 1 <= |t| && xo + (n - l) + 1 <= |r| && ao + n <= |s|
    requires IsRecip(W(s, ao + l, n - l), W(r, xo, n - l + 1), n - l)
    requires W(t, 0, n + (n - l) + 1) == W(s, ao, n) * W(r, xo, n - l + 1)
    ensures Approximates(t, r, xo, n, n - l, W(s, ao, n))
  {
    var h, a, ah, x := n - l, W(s, ao, n), W(s, ao + l, n - l), W(r, xo, n - l + 1);
    WSplit(s, ao, l, h);
    PAdd(2 * h, l);
    assert P(n + h) == P(2 * h) * P(l) by { assert 2 * h + l == n + h; }
    MulMono(P(2 * h), ah * (x + 2), P(l));
    Swap(ah, x + 2, P(l));
    MulMono(ah * P(l), a, x + 2);
  }

  /** One round of the loop that makes x small enough. */
  lemma ApproximatesStep(t0: seq<Limb>, t1: seq<Limb>, t2: seq<Limb>, r0: seq<Limb>, r1: seq<Limb>, xo: nat, n: nat, h: nat,
                         a: nat, k: Limb, c: Limb, c2: Limb)
    requires n + h + 1 <= |t0| == |t1| == |t2| && xo + h + 1 <= |r0| == |r1|
    requires Approximates(t0, r0, xo, n, h, a) && t0[n + h] != 0 && a < P(n)
    requires W(r1, xo, h + 1) - k * P(h + 1) == W(r0, xo, h + 1) - 1
    requires Outside(t0, t1, 0, n) && W(t1, 0, n) - c * P(n) == W(t0, 0, n) - a
    requires Outside(t1, t2, n, h + 1) && W(t2, n, h + 1) - c2 * P(h + 1) == W(t1, n, h + 1) - c
    ensures Approximates(t2, r1, xo, n, h, a)
    ensures W(r1, xo, h + 1) < W(r0, xo, h + 1)
  {
    assert Ask(0);
    WTop(t0, 0, n + h + 1);
    MulMono(1, t0[n + h], P(n + h));
    WBound(r1, xo, h + 1);
    SubtractWindow(t0, t1, t2, n, h + 1, a, c, c2) by { PMono(n, n + h); }
    PAdd(n, h);
    ShrinkAlgebra(a, W(r0, xo, h + 1), W(r1, xo, h + 1), P(n), P(h), k, P(h + 1));
  }

  lemma ShrinkAlgebra(a: nat, x: nat, x1: nat, pn: nat, ph: nat, k: nat, top: nat)
    requires ph > 0 && a < pn && pn * ph <= a * x && x1 - k * top == x - 1 && x1 < top
    ensures x1 == x - 1 && ph <= x1 && a * x1 == a * x - a && pn * ph <= a * (x1 + 2)
  {
    MulStrict(0, ph, pn);
    assert x > 0;
    MulStrict(a, pn, x);
    MulComm(pn, ph);
    MulComm(pn, x);
    MulCancelLess(ph, x, pn);
    MulCancelLess(k, 1, top);
    Distrib(x, 1, a);
  }

  /** A subtraction of n limbs followed by a borrow through m more. */
  lemma SubtractWindow(t0: seq<Limb>, t1: seq<Limb>, t2: seq<Limb>, n: nat, m: nat, a: nat, c: Limb, c2: Limb)
    requires n + m <= |t0| == |t1| == |t2|
    requires Outside(t0, t1, 0, n) && W(t1, 0, n) - c * P(n) == W(t0, 0, n) - a
    requires Outside(t1, t2, n, m) && W(t2, n, m) - c2 * P(m) == W(t1, n, m) - c
    requires a <= W(t0, 0, n + m)
    ensures W(t2, 0, n + m) == W(t0, 0, n + m) - a
  {
    var p := P(n);
    assert t0[0 + n..0 + n + m] == t1[0 + n..0 + n + m];
    assert t1[0..0 + n] == t2[0..0 + n];
    WSplit(t0, 0, n, m);
    WSplit(t2, 0, n, m);
    assert W(t2, 0, n + m) == W(t0, 0, n + m) - a + (c2 * P(m)) * p by {
      assert W(t2, n, m) == W(t0, n, m) - c + c2 * P(m);
      Distrib(W(t0, n, m) - c, c2 * P(m), p);
      Distrib(W(t0, n, m), c, p);
    }
    WBound(t2, 0, n + m);
    PAdd(n, m);
    assert c2 == 0 by {
      if c2 > 0 {
        MulMono(1, c2, P(m));
        MulMono(P(m), c2 * P(m), p);
      }
    }
  }

  /** Lowers x until a * x < B^(n + h). */
  method RecipShrink(tabr: array<Limb>, xo: nat, tabt: array<Limb>, taba: array<Limb>, ao: nat, n: nat, h: nat)
    requires n + h + 1 <= tabt.Length && xo + h + 1 <= tabr.Length && ao + n <= taba.Length
    requires tabr != tabt && taba != tabt && tabr != taba
    requires Approximates(tabt[..], tabr[..], xo, n, h, W(taba[..], ao, n))
    modifies tabr, tabt
    ensures Outside(old(tabr[..]), tabr[..], xo, h + 1)
    ensures Approximates(tabt[..], tabr[..], xo, n, h, W(taba[..], ao, n))
    ensures tabt[n + h] == 0
  {
    ghost var r0, a := tabr[..], W(taba[..], ao, n);
    WBound(taba[..], ao, n);
    while tabt[n + h] != 0
      invariant Outside(r0, tabr[..], xo, h + 1)
      invariant taba[..] == old(taba[..])
      invariant Approximates(tabt[..], tabr[..], xo, n, h, a)
      decreases W(tabr[..], xo, h + 1)
    {
      ghost var t0, r1 := tabt[..], tabr[..];
      var k := MpSubUi(tabr, xo, 1, h + 1);
      var c := MpSub(tabt, 0, tabt, 0, taba, ao, n, 0);
      ghost var t1 := tabt[..];
      var c2 := MpSubUi(tabt, n, c, h + 1);
      ApproximatesStep(t0, t1, tabt[..], r1, tabr[..], xo, n, h, a, k, c, c2);
    }
  }

  /** tabt[] := B^m - tabt[], for a value between 1 and B^m - 1 in m + 1 limbs. */
  method Complement(tabt: array<Limb>, m: nat)
    requires m + 1 == tabt.Length && 0 < W(tabt[..], 0, m + 1) < P(m)
    modifies tabt
    ensures W(tabt[..], 0, m + 1) == P(m) - W(old(tabt[..]), 0, m + 1)
  {
    ghost var t := W(tabt[..], 0, m + 1);
    var k := MpNeg(tabt, m + 1, 0);
    ghost var t1 := tabt[..];
    tabt[m] := AddW(tabt[m], 1);
    ComplementTop(t1, tabt[..], m, t, k);
  }

  lemma ComplementTop(t1: seq<Limb>, t2: seq<Limb>, m: nat, t: nat, k: Limb)
    requires |t1| == |t2| == m + 1 && 0 < t < P(m) && k <= 1
    requires W(t1, 0, m + 1) - k * P(m + 1) == 0 - t
    requires t2 == t1[m := AddW(t1[m], 1)]
    ensures W(t2, 0, m + 1) == P(m) - t
  {
    var p, x := P(m), t1[m] as int;
    PSucc(m);
    WTop(t1, 0, m + 1);
    WTop(t2, 0, m + 1);
    assert t1[0..0 + m] == t2[0..0 + m];
    assert k == 1;
    assert x == B - 1 by {
      Distrib(B, 1, p);
      Distrib(x, 1, p);
      MulCancelLess(B - 1, x + 1, p);
    }
    Distrib(B, 1, p);
  }

  /** The Newton step: from the reciprocal of the h top limbs to that of all n. */
  method RecipNewton(tabr: array<Limb>, ro: nat, taba: array<Limb>, ao: nat, n: nat, l: nat, h: nat)
    requires n >= 3 && l == (n - 1) / 2 && h == n - l
    requires ro + n + 1 <= tabr.Length && ao + n <= taba.Length && tabr != taba
    requires Normalized(taba[..], ao, n)
    requires IsRecip(W(taba[..], ao + l, h), W(tabr[..], ro + l, h + 1), h)
    modifies tabr
    ensures Outside(old(tabr[..]), tabr[..], ro, n + 1)
    ensures IsRecip(W(taba[..], ao, n), W(tabr[..], ro, n + 1), n)
  {
    var tabt := NewtonResidue(tabr, ro, taba, ao, n, l, h);
    ghost var x := W(tabr[..], ro + l, h + 1);
    var tabu := new Limb[n + 2 * h - l + 2](_ => 0);
    MpMul(tabu, 0, tabt, l, n + h + 1 - l, tabr, ro + l, h + 1);
    assert n + h + 1 - l == 2 * h + 1 && n + h + 1 == l + (2 * h + 1);
    assert (2 * h + 1) + (h + 1) == (2 * h - l) + (n + 2);
    NormalizedValue(taba[..], ao, n);
    WBound(taba[..], ao, n);
    ghost var y := NewtonValue(tabt[..], tabu[..], W(taba[..], ao, n), x, n, l, h, 2 * h - l);
    NewtonWrite(tabr, ro, tabu, n, l, h, 2 * h - l, x, y);
  }

  /** The first half of the Newton step: lowers x if need be and returns what it
      leaves over of B^(n + h). */
  method NewtonResidue(tabr: array<Limb>, ro: nat, taba: array<Limb>, ao: nat, n: nat, l: nat, h: nat) returns (tabt: array<Limb>)
    requires l < h && n == l + h
    requires ro + n + 1 <= tabr.Length && ao + n <= taba.Length && tabr != taba
    requires Normalized(taba[..], ao, n)
    requires IsRecip(W(taba[..], ao + l, h), W(tabr[..], ro + l, h + 1), h)
    modifies tabr
    ensures fresh(tabt) && tabt.Length == n + h + 1
    ensures Outside(old(tabr[..]), tabr[..], ro + l, h + 1)
    ensures Residue(W(tabt[..], 0, n + h + 1), W(taba[..], ao, n), W(tabr[..], ro + l, h + 1), n, h)
  {
    tabt := new Limb[n + h + 1](_ => 0);
    MpMul(tabt, 0, taba, ao, n, tabr, ro + l, h + 1);
    assert n + (h + 1) == n + h + 1;
    ApproximatesStart(tabt[..], tabr[..], ro + l, taba[..], ao, n, l);
    RecipShrink(tabr, ro + l, tabt, taba, ao, n, h);
    ShrinkDone(tabt[..], tabr[..], ro + l, taba[..], ao, n, h);
    Complement(tabt, n + h);
  }

  /** t is what x leaves over of B^(n + h): between 1 and 2a. */
  ghost predicate Residue(t: nat, a: nat, x: nat, n: nat, h: nat)
  {
    t + a * x == P(n + h) && 0 < t <= 2 * a && P(h) <= x < 2 * P(h)
  }

  lemma ShrinkDone(t: seq<Limb>, r: seq<Limb>, xo: nat, s: seq<Limb>, ao: nat, n: nat, h: nat)
    requires n + h + 1 <= |t| && xo + h + 1 <= |r| && ao + n <= |s| && Normalized(s, ao, n)
    requires Approximates(t, r, xo, n, h, W(s, ao, n)) && t[n + h] == 0
    ensures var a, x := W(s, ao, n), W(r, xo, h + 1);
            0 < W(t, 0, n + h + 1) < P(n + h) && Residue(P(n + h) - W(t, 0, n + h + 1), a, x, n, h)
  {
    assert Ask(0);
    WTop(t, 0, n + h + 1);
    NormalizedValue(s, ao, n);
    MulMono(1, W(s, ao, n), W(r, xo, h + 1));
    Distrib(W(r, xo, h + 1), 2, W(s, ao, n));
  }

  /** The powers that occur in the Newton step. */
  lemma NewtonPowers(n: nat, l: nat, h: nat, k: nat)
    requires l < h && n == l + h && k + l == 2 * h
    ensures P(n) == P(l) * P(h) && P(2 * n) == (P(l) * P(h)) * (P(l) * P(h))
    ensures P(n + h) == P(l) * (P(h) * P(h)) && P(k) * P(l) == P(h) * P(h)
    ensures 6 * P(l) <= P(h)
  {
    PAdd(l, h);
    PAdd(n, n);
    PAdd(h, h);
    PAdd(l, 2 * h);
    PAdd(k, l);
    PMono(l + 1, h);
    PSucc(l);
    MulMono(6, B, P(l));
  }

  /** What the two products give: y, of n limbs, completes x * B^l to a reciprocal. */
  lemma NewtonValue(t: seq<Limb>, u: seq<Limb>, a: nat, x: nat, n: nat, l: nat, h: nat, k: nat) returns (y: nat)
    requires l < h && n == l + h && k + l == 2 * h && |t| == l + (2 * h + 1) && |u| == k + (n + 2)
    requires P(n) <= 2 * a && a < P(n)
    requires Residue(W(t, 0, l + (2 * h + 1)), a, x, n, h)
    requires W(u, 0, k + (n + 2)) == W(t, l, 2 * h + 1) * x
    ensures y == W(u, k, n) && IsRecip(a, x * P(l) + y, n)
  {
    NewtonPowers(n, l, h, k);
    WSplit(t, 0, l, 2 * h + 1);
    WBound(t, 0, l);
    WSplit(u, 0, k, n + 2);
    WBound(u, 0, k);
    y := W(u, k, n + 2);
    RecipStep(a, x, P(l), P(h), P(k), W(t, 0, l + (2 * h + 1)), W(t, l, 2 * h + 1), W(t, 0, l), y, W(u, 0, k));
    NewtonSize(a, x, y, n, l, h);
    NewtonTop(u, k, n);
  }

  lemma NewtonTop(u: seq<Limb>, k: nat, n: nat)
    requires k + n + 2 <= |u| && W(u, k, n + 2) < P(n)
    ensures W(u, k, n) == W(u, k, n + 2)
  {
    WSplit(u, k, n, 2);
    MulCancelLess(W(u, k + n, 2), 1, P(n));
  }

  lemma NewtonSize(a: nat, x: nat, y: nat, n: nat, l: nat, h: nat)
    requires n == l + h && P(n) <= 2 * a && a < P(n) && P(h) <= x
    requires a * (x * P(l) + y) < P(2 * n) < a * (x * P(l) + y + 2)
    ensures IsRecip(a, x * P(l) + y, n) && y < P(n)
  {
    RecipSize(a, x * P(l) + y, n);
    PAdd(h, l);
    MulMono(P(h), x, P(l));
  }

  /** Writes the low limbs of y below x and adds the high ones to x. */
  method NewtonWrite(tabr: array<Limb>, ro: nat, tabu: array<Limb>, n: nat, l: nat, h: nat, k: nat, ghost x: nat, ghost y: nat)
    requires l < h && n == l + h && k + l == 2 * h && ro + n + 1 <= tabr.Length && k + n <= tabu.Length && tabr != tabu
    requires x == W(tabr[..], ro + l, h + 1) && y == W(tabu[..], k, n)
    requires P(h) <= x < 2 * P(h) && x * P(l) + y < 2 * P(n)
    modifies tabr
    ensures Outside(old(tabr[..]), tabr[..], ro, n + 1)
    ensures W(tabr[..], ro, n + 1) == x * P(l) + y
  {
    ghost var r0 := tabr[..];
    CopyLimbs(tabr, ro, tabu, k, l);
    ghost var r1 := tabr[..];
    assert r1[ro + l..ro + l + (h + 1)] == r0[ro + l..ro + l + (h + 1)];
    var c := MpAdd(tabr, ro + l, tabr, ro + l, tabu, 2 * h, h, 0);
    NewtonSum(r1, tabr[..], ro, tabu[..], n, l, h, k, x, y, c);
  }

  lemma NewtonSum(r1: seq<Limb>, r2: seq<Limb>, ro: nat, u: seq<Limb>, n: nat, l: nat, h: nat, k: nat, x: nat, y: nat, c: Limb)
    requires l < h && n == l + h && k + l == 2 * h && ro + n + 1 <= |r1| == |r2| && k + n <= |u|
    requires x == W(r1, ro + l, h + 1) && y == W(u, k, n) && W(r1, ro, l) == W(u, k, l)
    requires P(h) <= x < 2 * P(h) && x * P(l) + y < 2 * P(n)
    requires Outside(r1, r2, ro + l, h) && c <= 1
    requires W(r2, ro + l, h) + c * P(h) == W(r1, ro + l, h) + W(u, k + l, h)
    ensures W(r2, ro, n + 1) == x * P(l) + y
  {
    RecipTopLimb(r1, ro + l, h);
    NewtonSplit(r1, r2, ro, l, h);
    WSplit(u, k, l, h);
    PAdd(l, h);
    NewtonNoCarry(x, W(r1, ro + l, h), W(r2, ro + l, h), W(u, k, l), W(u, k + l, h), P(l), P(h), c);
  }

  lemma NewtonSplit(r1: seq<Limb>, r2: seq<Limb>, ro: nat, l: nat, h: nat)
    requires ro + l + h + 1 <= |r1| == |r2| && Outside(r1, r2, ro + l, h) && r1[ro + l + h] == 1
    ensures W(r1, ro + l, h + 1) == W(r1, ro + l, h) + P(h)
    ensures W(r2, ro, l + h + 1) == W(r1, ro, l) + (W(r2, ro + l, h) + P(h)) * P(l)
  {
    WSplit(r2, ro, l, h + 1);
    assert r2[ro..ro + l] == r1[ro..ro + l];
    WSnoc(r1, ro + l, h);
    WSnoc(r2, ro + l, h);
    assert l + h + 1 == l + (h + 1);
  }

  lemma NewtonNoCarry(x: int, x0: nat, s: nat, yl: nat, yh: nat, bl: nat, bh: nat, c: int)
    requires x == x0 + bh && 0 <= c <= 1 && s + c * bh == x0 + yh && bl > 0 && bh > 0
    requires x * bl + (yl + yh * bl) < 2 * (bl * bh)
    ensures yl + (s + bh) * bl == x * bl + (yl + yh * bl)
  {
    Distrib(x, yh, bl);
    assert (2 * bh) * bl == 2 * (bl * bh);
    MulCancelLess(x + yh, 2 * bh, bl);
    assert c == 0;
  }

  /** x is an inverse of bp, which is b cut or padded to n limbs; rounding bp up
      keeps the quotient from being too large. */
  ghost predicate LargeInverse(b: nat, bp: nat, x: nat, n: nat, nb: nat)
  {
    bp * x <= P(2 * n) < bp * (x + 2)
    && (if nb <= n then bp == b * P(n - nb) else b <= bp * P(nb - n) <= b + P(nb - n))
  }

  /** The inverse used by mp_divnorm_large, in n + 1 limbs. */
  method InverseForLarge(tabb: array<Limb>, bo: nat, nb: nat, n: nat) returns (tabInv: array<Limb>, ghost bp: nat)
    requires n >= 1 && nb >= 1 && bo + nb <= tabb.Length && Normalized(tabb[..], bo, nb)
    ensures fresh(tabInv) && tabInv.Length == n + 1
    ensures LargeInverse(W(tabb[..], bo, nb), bp, W(tabInv[..], 0, n + 1), n, nb)
    decreases n, 2
  {
    tabInv := new Limb[n + 1](_ => 0);
    var tabt := new Limb[n](_ => 0);
    var overflow := false;
    if n >= nb {
      PadDivisor(tabt, tabb, bo, nb, n);
      bp := W(tabt[..], 0, n);
    } else {
      overflow, bp := CutDivisor(tabt, tabb, bo, nb, n);
    }
    if overflow {
      tabInv[n] := 1;
      PowerBuffer(tabInv[..], n);
      PAdd(n, n);
      Distrib(P(n), 2, P(n));
    } else {
      MpRecip(tabInv, 0, tabt, 0, n);
    }
  }

  method PadDivisor(tabt: array<Limb>, tabb: array<Limb>, bo: nat, nb: nat, n: nat)
    requires 1 <= nb <= n == tabt.Length && bo + nb <= tabb.Length && tabt != tabb && Normalized(tabb[..], bo, nb)
    requires forall i :: 0 <= i < n ==> tabt[i] == 0
    modifies tabt
    ensures Normalized(tabt[..], 0, n)
    ensures W(tabt[..], 0, n) == W(tabb[..], bo, nb) * P(n - nb)
  {
    CopyLimbs(tabt, n - nb, tabb, bo, nb);
    ghost var t := tabt[..];
    WSplit(t, 0, n - nb, nb);
    ValZeros(t[0..0 + (n - nb)]);
    NormalizedValue(tabb[..], bo, nb);
    NormalizedValue(t, n - nb, nb);
  }

  /** The n top limbs of the divisor, plus one; on overflow the result is B^n. */
  method CutDivisor(tabt: array<Limb>, tabb: array<Limb>, bo: nat, nb: nat, n: nat) returns (overflow: bool, ghost bp: nat)
    requires 1 <= n < nb && n == tabt.Length && bo + nb <= tabb.Length && tabt != tabb && Normalized(tabb[..], bo, nb)
    modifies tabt
    ensures overflow ==> bp == P(n)
    ensures !overflow ==> bp == W(tabt[..], 0, n) && Normalized(tabt[..], 0, n)
    ensures var b, w := W(tabb[..], bo, nb), P(nb - n); b <= bp * w <= b + w
  {
    CopyLimbs(tabt, 0, tabb, bo + nb - n, n);
    ghost var top := W(tabt[..], 0, n);
    NormalizedValue(tabb[..], bo + (nb - n), n);
    var k := MpAddUi(tabt, 0, 1, n);
    overflow := k != 0;
    bp := top + 1;
    WBound(tabt[..], 0, n);
    WBound(tabb[..], bo + (nb - n), n);
    NormalizedValue(tabt[..], 0, n);
    WSplit(tabb[..], bo, nb - n, n);
    WBound(tabb[..], bo, nb - n);
    Distrib(top, 1, P(nb - n));
  }

  /** The quotient found from the inverse is at most four too small. */
  ghost predicate NearQuotient(a: nat, b: nat, q: nat)
  {
    b * q <= a < b * (q + 5)
  }

  method LargeQuotient(tabq: array<Limb>, taba: array<Limb>, ao: nat, na: nat, ghost b: nat, ghost bp: nat, nb: nat, n: nat, tabInv: array<Limb>)
    requires 1 <= nb < na && n == (if na - nb < nb then na - nb + 1 else na - nb)
    requires ao + na <= taba.Length && tabInv.Length == n + 1 && na - nb < tabq.Length && tabq != taba && tabq != tabInv
    requires P(nb) <= 2 * b
    requires LargeInverse(b, bp, W(tabInv[..], 0, n + 1), n, nb)
    modifies tabq
    ensures Outside(old(tabq[..]), tabq[..], 0, na - nb + 1)
    ensures NearQuotient(W(taba[..], ao, na), b, W(tabq[..], 0, na - nb + 1))
  {
    var nq := na - nb;
    var cut := 2 * (n + 1) - (nq + 1);
    ghost var q0 := TopOfProduct(tabq, tabInv, n + 1, taba, ao + na - (n + 1), cut, nq + 1);
    LargeDividend(taba[..], ao, na, n);
    LargeBounds(W(taba[..], ao, na), b, bp, W(tabInv[..], 0, n + 1), W(taba[..], ao + na - (n + 1), n + 1),
                W(taba[..], ao, na - (n + 1)), W(tabq[..], 0, nq + 1), q0, na, nb, n);
  }

  /** The k top limbs of a product of two numbers of m limbs. */
  method TopOfProduct(tabq: array<Limb>, op1: array<Limb>, m: nat, op2: array<Limb>, o2: nat, cut: nat, k: nat) returns (ghost q0: nat)
    requires m >= 1 && cut + k == 2 * m && m <= op1.Length && o2 + m <= op2.Length && k <= tabq.Length
    requires tabq != op1 && tabq != op2
    modifies tabq
    ensures Outside(old(tabq[..]), tabq[..], 0, k)
    ensures W(op1[..], 0, m) * W(op2[..], o2, m) == q0 + W(tabq[..], 0, k) * P(cut) && q0 < P(cut)
  {
    var tabt := new Limb[2 * m](_ => 0);
    MpMul(tabt, 0, op1, 0, m, op2, o2, m);
    assert m + m == cut + k;
    WSplit(tabt[..], 0, cut, k);
    WBound(tabt[..], 0, cut);
    q0 := W(tabt[..], 0, cut);
    CopyLimbs(tabq, 0, tabt, cut, k);
  }

  lemma LargeDividend(s: seq<Limb>, ao: nat, na: nat, n: nat)
    requires n + 1 <= na && ao + na <= |s|
    ensures W(s, ao, na) == W(s, ao + na - (n + 1), n + 1) * P(na - (n + 1)) + W(s, ao, na - (n + 1))
    ensures W(s, ao, na - (n + 1)) < P(na - (n + 1)) && W(s, ao + na - (n + 1), n + 1) < P(n + 1)
    ensures W(s, ao, na) < P(na)
  {
    WSplit(s, ao, na - (n + 1), n + 1);
    WBound(s, ao, na - (n + 1));
    WBound(s, ao + na - (n + 1), n + 1);
    WBound(s, ao, na);
  }

  lemma LargeBounds(a: nat, b: nat, bp: nat, x: nat, atop: nat, a0: nat, q: nat, q0: nat, na: nat, nb: nat, n: nat)
    requires 1 <= nb < na && n == (if na - nb < nb then na - nb + 1 else na - nb)
    requires a < P(na) && P(nb) <= 2 * b
    requires LargeInverse(b, bp, x, n, nb)
    requires a == atop * P(na - (n + 1)) + a0 && a0 < P(na - (n + 1)) && atop < P(n + 1)
    requires x * atop == q0 + q * P(2 * (n + 1) - (na - nb + 1)) && q0 < P(2 * (n + 1) - (na - nb + 1))
    ensures NearQuotient(a, b, q)
  {
    if na - nb >= nb {
      var w, u, sh := P(n - nb), P(nb - 1), P(n + 1);
      PAdd(n + 1, n - nb);
      PAdd(2 * n + 1 - nb, nb - 1);
      assert (n + 1) + (n - nb) == 2 * n + 1 - nb && (2 * n + 1 - nb) + (nb - 1) == 2 * n;
      PSucc(nb - 1);
      MulMono(2, B, u);
      LargePadded(a, b, x, atop, a0, q, q0, w, u, sh);
      Distrib(q + 4, 1, b);
    } else {
      var w, u, sh := P(nb - n), P(nb - 2), P(n + 2);
      PAdd(2 * n, nb - n);
      PAdd(n + 2, nb - 2);
      assert 2 * n + (nb - n) == (n + 2) + (nb - 2);
      PSucc(n + 1);
      MulMono(2, B, P(n + 1));
      PMono(nb - 2, nb - 1);
      PSucc(nb - 1);
      MulMono(2, B, P(nb - 1));
      if nb == n { PZero(); }
      if b * q <= a { CutSlack(a, b, q, na, nb, n); }
      LargeCut(a, b, bp, x, atop, a0, q, q0, w, u, sh, P(2 * n));
    }
  }

  /** Cutting the divisor costs less than two units. */
  lemma CutSlack(a: nat, b: nat, q: nat, na: nat, nb: nat, n: nat)
    requires 1 <= nb < na && n == na - nb + 1 <= nb
    requires a < P(na) && P(nb) <= 2 * b && b * q <= a
    ensures P(nb - n) * (q + 2) <= b + b
  {
    var w, p, pq := P(nb - n), P(nb - 1), P(n - 1);
    PAdd(n - 1, nb);
    assert (n - 1) + nb == na;
    MulMono(P(nb), 2 * b, pq);
    assert pq * (2 * b) == b * (2 * pq);
    MulComm(b, q);
    MulComm(b, 2 * pq);
    MulCancelLess(q, 2 * pq, b);
    PAdd(nb - n, n - 1);
    assert (nb - n) + (n - 1) == nb - 1;
    MulMono(q, 2 * pq, w);
    assert w * (2 * pq) == 2 * p;
    PMono(nb - n, nb - 1);
    Distrib(q, 2, w);
    PSucc(nb - 1);
    MulMono(4, B, p);
  }

  /** R = A - B * Q, in nb + 1 limbs. */
  method LargeRemainder(tabq: array<Limb>, taba: array<Limb>, ao: nat, na: nat, tabb: array<Limb>, bo: nat, nb: nat)
    requires 1 <= nb < na && ao + na <= taba.Length && bo + nb <= tabb.Length && na - nb < tabq.Length
    requires tabq != taba && tabq != tabb && taba != tabb
    requires NearQuotient(W(taba[..], ao, na), W(tabb[..], bo, nb), W(tabq[..], 0, na - nb + 1))
    modifies taba
    ensures Outside(old(taba[..]), taba[..], ao, nb + 1)
    ensures W(taba[..], ao, nb + 1) == W(old(taba[..]), ao, na) - W(tabb[..], bo, nb) * W(tabq[..], 0, na - nb + 1)
  {
    ghost var a0 := taba[..];
    var tabt := new Limb[na + 1](_ => 0);
    MpMul(tabt, 0, tabq, 0, na - nb + 1, tabb, bo, nb);
    assert na - nb + 1 + nb == na + 1;
    var k := MpSub(taba, ao, taba, ao, tabt, 0, nb + 1, 0);
    MulComm(W(tabb[..], bo, nb), W(tabq[..], 0, na - nb + 1));
    RemainderFits(a0, ao, na, tabt[..], taba[..], W(tabb[..], bo, nb), W(tabq[..], 0, na - nb + 1), nb, k, tabb[..], bo);
  }

  lemma RemainderFits(a0: seq<Limb>, ao: nat, na: nat, t: seq<Limb>, a1: seq<Limb>, b: nat, q: nat, nb: nat, k: Limb, bs: seq<Limb>, bo: nat)
    requires nb < na && ao + na <= |a0| == |a1| && |t| == na + 1 && k <= 1
    requires bo + nb <= |bs| && b == W(bs, bo, nb)
    requires W(t, 0, na + 1) == b * q && NearQuotient(W(a0, ao, na), b, q)
    requires W(a1, ao, nb + 1) - k * P(nb + 1) == W(a0, ao, nb + 1) - W(t, 0, nb + 1) - 0
    ensures W(a1, ao, nb + 1) == W(a0, ao, na) - b * q
  {
    var m := nb + 1;
    WSplit(a0, ao, m, na - m);
    WSplit(t, 0, m, na + 1 - m);
    WBound(a1, ao, m);
    WBound(bs, bo, nb);
    Distrib(q, 5, b);
    PSucc(nb);
    MulMono(5, B, P(nb));
    SameResidue(W(a1, ao, m), W(a0, ao, na) - b * q, P(m), k, W(a0, ao + m, na - m), W(t, m, na + 1 - m));
  }

  lemma SameResidue(x: int, y: int, p: int, k: int, u: int, v: int)
    requires 0 <= x < p && 0 <= y < p && x - k * p == y - u * p + v * p
    ensures x == y
  {
    Distrib(k, u, p);
    Distrib(k - u, v, p);
    DivModUnique(x, p, 0, x);
    DivModUnique(x, p, k - u + v, y);
  }

  /** The quotient q and the remainder in nb + 1 limbs still add up. */
  ghost predicate LargeAccount(a: nat, b: nat, q: nat, r: nat)
  {
    forall t :: Ask(t) ==> a == b * q + r
  }

  lemma AccountStep(a: nat, b: nat, q: nat, r: nat, q1: nat, r1: int)
    requires LargeAccount(a, b, q, r) && q1 == q + 1 && r1 == r - b && r >= b
    ensures LargeAccount(a, b, q1, r1)
  {
    assert Ask(0);
    Distrib(q, 1, b);
  }

  lemma AccountNoOverflow(a: nat, b: nat, q: nat, r: nat, n: nat, nb: nat, k: nat, q1: nat)
    requires LargeAccount(a, b, q, r) && r >= b && a < P(n + nb) && P(nb) <= 2 * b
    requires q1 + k * P(n + 1) == q + 1 && k <= 1
    ensures k == 0
  {
    assert Ask(0);
    PAdd(n, nb);
    PSucc(n);
    NextQuotientFits(a, b, q, r, P(n), P(nb));
    MulMono(2, B, P(n));
    MulCancelLess(k, 1, P(n + 1));
  }

  lemma NextQuotientFits(a: nat, b: nat, q: nat, r: nat, pn: nat, pb: nat)
    requires a == b * q + r && r >= b && a < pn * pb && pb <= 2 * b
    ensures q + 1 < 2 * pn
  {
    MulMono(pb, 2 * b, pn);
    assert pn * (2 * b) == (2 * pn) * b;
    MulComm(b, q);
    Distrib(q, 1, b);
    MulCancelLess(q + 1, 2 * pn, b);
  }

  /** taba[] -= tabb[] in nb + 1 limbs, when the result is not negative. */
  method SubtractOnce(taba: array<Limb>, ao: nat, tabb: array<Limb>, bo: nat, nb: nat)
    requires ao + nb + 1 <= taba.Length && bo + nb <= tabb.Length && taba != tabb
    requires W(tabb[..], bo, nb) <= W(taba[..], ao, nb + 1)
    modifies taba
    ensures Outside(old(taba[..]), taba[..], ao, nb + 1)
    ensures W(taba[..], ao, nb + 1) == W(old(taba[..]), ao, nb + 1) - W(tabb[..], bo, nb)
  {
    ghost var s0 := taba[..];
    var k := MpSub(taba, ao, taba, ao, tabb, bo, nb, 0);
    ghost var s1 := taba[..];
    ghost var neg := taba[ao + nb] < k;
    taba[ao + nb] := SubW(taba[ao + nb], k);
    SubtractTop(s0, s1, taba[..], ao, nb, k, neg);
    WBound(taba[..], ao, nb + 1);
  }

  /** The correction loop of mp_divnorm_large. */
  method LargeCorrect(tabq: array<Limb>, taba: array<Limb>, ao: nat, na: nat, tabb: array<Limb>, bo: nat, nb: nat, ghost a: nat)
    requires 1 <= nb < na && ao + na <= taba.Length && bo + nb <= tabb.Length && na - nb < tabq.Length
    requires tabq != taba && tabq != tabb && taba != tabb
    requires a < P(na) && P(nb) <= 2 * W(tabb[..], bo, nb)
    requires LargeAccount(a, W(tabb[..], bo, nb), W(tabq[..], 0, na - nb + 1), W(taba[..], ao, nb + 1))
    modifies tabq, taba
    ensures Outside(old(taba[..]), taba[..], ao, nb + 1) && Outside(old(tabq[..]), tabq[..], 0, na - nb + 1)
    ensures W(taba[..], ao, nb + 1) < W(tabb[..], bo, nb)
    ensures LargeAccount(a, W(tabb[..], bo, nb), W(tabq[..], 0, na - nb + 1), W(taba[..], ao, nb + 1))
  {
    ghost var a0, q0, b := taba[..], tabq[..], W(tabb[..], bo, nb);
    var nq := na - nb;
    while true
      invariant Outside(a0, taba[..], ao, nb + 1) && Outside(q0, tabq[..], 0, nq + 1)
      invariant tabb[..] == old(tabb[..])
      invariant LargeAccount(a, b, W(tabq[..], 0, nq + 1), W(taba[..], ao, nb + 1))
      decreases W(taba[..], ao, nb + 1)
    {
      var less := Below(taba, ao, tabb, bo, nb);
      if less { return; }
      ghost var q, r := W(tabq[..], 0, nq + 1), W(taba[..], ao, nb + 1);
      SubtractOnce(taba, ao, tabb, bo, nb);
      var k := MpAddUi(tabq, 0, 1, nq + 1);
      AccountNoOverflow(a, b, q, r, nq, nb, k, W(tabq[..], 0, nq + 1));
      AccountStep(a, b, q, r, W(tabq[..], 0, nq + 1), W(taba[..], ao, nb + 1));
    }
  }

  /** Compares nb + 1 limbs with nb. */
  method Below(taba: array<Limb>, ao: nat, tabb: array<Limb>, bo: nat, nb: nat) returns (less: bool)
    requires ao + nb + 1 <= taba.Length && bo + nb <= tabb.Length
    ensures less <==> W(taba[..], ao, nb + 1) < W(tabb[..], bo, nb)
  {
    var c := MpCmp(taba, ao, tabb, bo, nb);
    WTop(taba[..], ao, nb + 1);
    WBound(tabb[..], bo, nb);
    if taba[ao + nb] > 0 { MulMono(1, taba[ao + nb], P(nb)); }
    less := taba[ao + nb] == 0 && c < 0;
  }

  /** The subquadratic case: a quotient from an approximate inverse, corrected
      upwards. It computes what the schoolbook case computes. */
  method MpDivnormLarge(tabq: array<Limb>, taba: array<Limb>, ao: nat, na: nat, tabb: array<Limb>, bo: nat, nb: nat)
    requires 1 <= nb < na && ao + na <= taba.Length && bo + nb <= tabb.Length && na - nb < tabq.Length
    requires tabq != taba && tabq != tabb && taba != tabb
    requires Normalized(tabb[..], bo, nb)
    modifies tabq, taba
    ensures Outside(old(taba[..]), taba[..], ao, na) && Outside(old(tabq[..]), tabq[..], 0, na - nb + 1)
    ensures IsDivision(W(old(taba[..]), ao, na), W(tabb[..], bo, nb), W(tabq[..], 0, na - nb + 1), W(taba[..], ao, nb))
    decreases na, 1
  {
    ghost var a := W(taba[..], ao, na);
    var nq := na - nb;
    var n := if nq < nb then nq + 1 else nq;
    NormalizedValue(tabb[..], bo, nb);
    WBound(taba[..], ao, na);
    var tabInv, bp := InverseForLarge(tabb, bo, nb, n);
    LargeQuotient(tabq, taba, ao, na, W(tabb[..], bo, nb), bp, nb, n, tabInv);
    LargeRemainder(tabq, taba, ao, na, tabb, bo, nb);
    LargeCorrect(tabq, taba, ao, na, tabb, bo, nb, a);
    WBound(tabb[..], bo, nb);
    TopZero(taba[..], ao, nb);
    AccountEnd(a, W(tabb[..], bo, nb), W(tabq[..], 0, nq + 1), W(taba[..], ao, nb));
  }

  lemma AccountEnd(a: nat, b: nat, q: nat, r: nat)
    requires LargeAccount(a, b, q, r) && r < b
    ensures IsDivision(a, b, q, r)
  {
    assert Ask(0);
    MulComm(b, q);
  }
}
