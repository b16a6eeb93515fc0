/** Machine words of the bignum library (libbf.h, 30-60) and the number that a
    little-endian run of words stands for. The two builds of the library, with
    32-bit and with 64-bit limbs, are both covered: B is one of two bases. */
module Limbs {
  import opened Hints
  import opened Arith

  type LimbBase = b: nat | b >= 65536 && forall t :: Ask(t) ==> b == 0x1_0000_0000 || b == 0x1_0000_0000_0000_0000
    witness 0x1_0000_0000

  /** 2^LIMB_BITS. Which of the two it is, is left open. */
  const B: LimbBase

  lemma TheBases()
    ensures B == 0x1_0000_0000 || B == 0x1_0000_0000_0000_0000
  {
    assert Ask(0);
  }

  /** 1 << (LIMB_BITS - 1) is exact. */
  lemma HalfBase()
    ensures B / 2 * 2 == B && B / 4 * 4 == B
  {
    TheBases();
  }

  type Limb = x: nat | x < B witness 0

  /** B^n. The first argument only delays the unfolding of the definition: a proof
      that needs it calls PowerMeaning. */
  ghost function Power(delay: nat, n: nat): (r: nat)
    ensures r >= 1
    decreases delay, n
  {
    if delay > 0 then Power(delay - 1, n) else Pow(B, n)
  }

  ghost function P(n: nat): (r: nat)
    ensures r >= 1
  {
    Power(3, n)
  }

  lemma PowerMeaning(n: nat)
    ensures P(n) == Pow(B, n)
  {
    assert Power(3, n) == Power(2, n);
    assert Power(2, n) == Power(1, n);
    assert Power(1, n) == Power(0, n);
  }

  lemma PZero()
    ensures P(0) == 1
  {
    PowerMeaning(0);
  }

  lemma PAdd(m: nat, n: nat)
    ensures P(m + n) == P(m) * P(n)
  {
    PowerMeaning(m);
    PowerMeaning(n);
    PowerMeaning(m + n);
    PowAdd(B, m, n);
  }

  lemma PSucc(n: nat)
    ensures P(n + 1) == B * P(n)
  {
    PowerMeaning(n);
    PowerMeaning(n + 1);
  }

  lemma PMono(m: nat, n: nat)
    requires m <= n
    ensures P(m) <= P(n)
  {
    PowerMeaning(m);
    PowerMeaning(n);
    PowMono(B, m, n);
  }

  /** The value of a run of limbs, least significant first. */
  ghost function Val(s: seq<Limb>): nat
  {
    if |s| == 0 then 0 else Val(s[..|s| - 1]) + s[|s| - 1] * P(|s| - 1)
  }

  /** The value of the window [lo, lo + n) of a buffer. */
  ghost function W(s: seq<Limb>, lo: nat, n: nat): nat
    requires lo + n <= |s|
  {
    Val(s[lo..lo + n])
  }

  lemma ValSnoc(s: seq<Limb>, x: Limb)
    ensures Val(s + [x]) == Val(s) + x * P(|s|)
  {
    assert (s + [x])[..|s|] == s;
  }

  lemma WSnoc(s: seq<Limb>, lo: nat, n: nat)
    requires lo + n < |s|
    ensures W(s, lo, n + 1) == W(s, lo, n) + s[lo + n] * P(n)
  {
    assert s[lo..lo + n + 1] == s[lo..lo + n] + [s[lo + n]];
    ValSnoc(s[lo..lo + n], s[lo + n]);
  }

  lemma {:induction false} ValBound(s: seq<Limb>)
    ensures Val(s) < P(|s|)
  {
    if |s| > 0 {
      ValBound(s[..|s| - 1]);
      var p := P(|s| - 1);
      PSucc(|s| - 1);
      MulMono(s[|s| - 1], B - 1, p);
      Distrib(B, 1, p);
    }
  }

  lemma {:induction false} ValConcat(s: seq<Limb>, t: seq<Limb>)
    ensures Val(s + t) == Val(s) + Val(t) * P(|s|)
  {
    if |t| == 0 {
      assert s + t == s;
    } else {
      var t0, x := t[..|t| - 1], t[|t| - 1];
      assert s + t == (s + t0) + [x];
      ValSnoc(s + t0, x);
      ValConcat(s, t0);
      PAdd(|t0|, |s|);
      MulAssoc(x, P(|t0|), P(|s|));
      Distrib(Val(t0), x * P(|t0|), P(|s|));
    }
  }

  lemma WBound(s: seq<Limb>, lo: nat, n: nat)
    requires lo + n <= |s|
    ensures W(s, lo, n) < P(n)
  {
    ValBound(s[lo..lo + n]);
  }

  lemma WSplit(s: seq<Limb>, lo: nat, m: nat, n: nat)
    requires lo + m + n <= |s|
    ensures W(s, lo, m + n) == W(s, lo, m) + W(s, lo + m, n) * P(m)
  {
    assert s[lo..lo + (m + n)] == s[lo..lo + m] + s[lo + m..lo + m + n];
    ValConcat(s[lo..lo + m], s[lo + m..lo + m + n]);
  }

  lemma WZero(s: seq<Limb>, lo: nat)
    requires lo <= |s|
    ensures W(s, lo, 0) == 0
  {
    assert s[lo..lo + 0] == [];
  }

  lemma {:induction false} ValZeros(s: seq<Limb>)
    requires forall i :: 0 <= i < |s| ==> s[i] == 0
    ensures Val(s) == 0
  {
    if |s| > 0 { ValZeros(s[..|s| - 1]); }
  }

  lemma {:induction false} ValZeroInv(s: seq<Limb>)
    requires Val(s) == 0
    ensures forall i :: 0 <= i < |s| ==> s[i] == 0
  {
    if |s| > 0 {
      var x := s[|s| - 1];
      if x > 0 { MulMono(1, x, P(|s| - 1)); }
      ValZeroInv(s[..|s| - 1]);
    }
  }

  /** The top limb decides whether a number is normalized. */
  lemma ValTop(s: seq<Limb>, c: nat)
    requires |s| > 0
    ensures s[|s| - 1] >= c <==> Val(s) >= c * P(|s| - 1)
  {
    var t, x, p := s[..|s| - 1], s[|s| - 1], P(|s| - 1);
    ValBound(t);
    if x >= c {
      MulMono(c, x, p);
    } else {
      MulMono(x + 1, c, p);
      Distrib(x, 1, p);
    }
  }

  /** Equal values of equal length are equal runs. */
  lemma {:induction false} ValInjective(s: seq<Limb>, t: seq<Limb>)
    requires |s| == |t| && Val(s) == Val(t)
    ensures s == t
  {
    if |s| > 0 {
      var n := |s| - 1;
      ValTop(s, s[n]);
      ValTop(t, s[n]);
      ValTop(s, t[n]);
      ValTop(t, t[n]);
      assert s[n] == t[n];
      ValInjective(s[..n], t[..n]);
      assert s == s[..n] + [s[n]] && t == t[..n] + [t[n]];
    }
  }
}
