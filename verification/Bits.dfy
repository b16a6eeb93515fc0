/** Powers of two, and numbers as rows of bits. */
module Bits {
  import opened Hints
  import opened Arith
  import opened Limbs

  /** 2^k. The first argument only delays the unfolding of the definition. */
  function Twos(delay: nat, k: nat): (r: nat)
    ensures r >= 1
    decreases delay, k
  {
    if delay > 0 then Twos(delay - 1, k) else if k == 0 then 1 else 2 * Twos(0, k - 1)
  }

  /** 1 << k */
  function T(k: nat): (r: nat)
    ensures r >= 1
  {
    Twos(3, k)
  }

  lemma TMeaning(k: nat)
    ensures T(k) == Twos(0, k)
  {
    assert Twos(3, k) == Twos(2, k);
    assert Twos(2, k) == Twos(1, k);
    assert Twos(1, k) == Twos(0, k);
  }

  lemma TZero()
    ensures T(0) == 1
  {
    TMeaning(0);
  }

  lemma TSucc(k: nat)
    ensures T(k + 1) == 2 * T(k)
  {
    TMeaning(k);
    TMeaning(k + 1);
  }

  lemma {:induction false} TAdd(j: nat, k: nat)
    ensures T(j + k) == T(j) * T(k)
  {
    if j == 0 {
      TZero();
    } else {
      TAdd(j - 1, k);
      TSucc(j - 1);
      TSucc(j - 1 + k);
      MulAssoc(2, T(j - 1), T(k));
    }
  }

  lemma {:induction false} TMono(j: nat, k: nat)
    requires j <= k
    ensures T(j) <= T(k)
  {
    if j < k {
      TMono(j, k - 1);
      TSucc(k - 1);
    }
  }

  lemma TStrict(j: nat, k: nat)
    requires j < k
    ensures 2 * T(j) <= T(k)
  {
    TMono(j + 1, k);
    TSucc(j);
  }

  /** LIMB_BITS */
  function LB(): (n: nat)
    ensures n >= 16
  {
    if B == 0x1_0000_0000 then 32 else 64
  }

  lemma TSixteen()
    ensures T(16) == 0x1_0000
  {
    TZero();
    TSucc(0); TSucc(1); TSucc(2); TSucc(3);
    TAdd(4, 4);
    TAdd(8, 8);
  }

  lemma TWords()
    ensures T(32) == 0x1_0000_0000 && T(64) == 0x1_0000_0000_0000_0000
  {
    TSixteen();
    TAdd(16, 16);
    TAdd(32, 32);
  }

  lemma TLimb()
    ensures T(LB()) == B
  {
    TWords();
    TheBases();
  }

  lemma {:induction false} TLimbs(n: nat)
    ensures T(n * LB()) == P(n)
  {
    if n == 0 {
      TZero();
      PZero();
    } else {
      TLimbs(n - 1);
      TLimb();
      PSucc(n - 1);
      Distrib(n - 1, 1, LB());
      TAdd((n - 1) * LB(), LB());
      MulComm(P(n - 1), B);
    }
  }

  // ---------------------------------------------------------------- the number of bits

  /** The number of bits of x. The first argument only delays the unfolding. */
  function BitLength(delay: nat, x: nat): (n: nat)
    ensures x > 0 ==> n > 0
    decreases delay, x
  {
    if delay > 0 then BitLength(delay - 1, x) else if x == 0 then 0 else 1 + BitLength(0, x / 2)
  }

  function BitLen(x: nat): (n: nat)
    ensures x > 0 ==> n > 0
  {
    BitLength(3, x)
  }

  lemma BitLenMeaning(x: nat)
    ensures BitLen(x) == if x == 0 then 0 else 1 + BitLen(x / 2)
  {
    assert BitLength(3, x) == BitLength(2, x);
    assert BitLength(2, x) == BitLength(1, x);
    assert BitLength(1, x) == BitLength(0, x);
    assert BitLength(3, x / 2) == BitLength(2, x / 2);
    assert BitLength(2, x / 2) == BitLength(1, x / 2);
    assert BitLength(1, x / 2) == BitLength(0, x / 2);
  }

  lemma {:induction false} BitLenBounds(x: nat)
    requires x > 0
    ensures T(BitLen(x) - 1) <= x < T(BitLen(x))
  {
    BitLenMeaning(x);
    if x == 1 {
      BitLenMeaning(0);
      TZero();
      TSucc(0);
    } else {
      BitLenBounds(x / 2);
      TSucc(BitLen(x / 2) - 1);
      TSucc(BitLen(x / 2));
    }
  }

  lemma BitLenUnique(x: nat, n: nat)
    requires n > 0 && T(n - 1) <= x < T(n)
    ensures BitLen(x) == n
  {
    BitLenBounds(x);
    if BitLen(x) < n { TMono(BitLen(x), n - 1); }
    if BitLen(x) > n { TMono(n, BitLen(x) - 1); }
  }

  lemma BitLenShift(x: nat, k: nat)
    requires x > 0
    ensures BitLen(x * T(k)) == BitLen(x) + k
  {
    var n := BitLen(x);
    BitLenBounds(x);
    TAdd(n, k);
    TAdd(n - 1, k);
    MulMono(T(n - 1), x, T(k));
    MulStrict(x, T(n), T(k));
    BitLenUnique(x * T(k), n + k);
  }

  /** clz */
  function Clz(x: Limb): (n: int)
  {
    LB() - BitLen(x)
  }

  lemma ClzRange(x: Limb)
    ensures 0 <= Clz(x) <= LB()
  {
    BitLenMeaning(0);
    if x > 0 {
      BitLenBounds(x);
      TLimb();
      if BitLen(x) > LB() { TMono(LB(), BitLen(x) - 1); }
    }
  }

  /** Shifting right in two steps. */
  lemma DivDiv(x: nat, j: nat, k: nat)
    ensures x / T(j + k) == (x / T(j)) / T(k)
  {
    TAdd(j, k);
    var a, b := T(j), T(k);
    DivMod(x, a);
    DivMod(x / a, b);
    var q, r := (x / a) / b, ((x / a) % b) * a + x % a;
    assert x == q * (a * b) + r by {
      Distrib(q * b, (x / a) % b, a);
      MulAssoc(q, b, a);
      MulComm(b, a);
    }
    assert r < a * b by {
      MulMono((x / a) % b, b - 1, a);
      Distrib(b, 1, a);
      MulComm(a, b);
    }
    MulNonNeg((x / a) % b, a);
    DivModUnique(x, a * b, q, r);
  }

  ghost predicate IsShr(n: nat, k: nat, m: nat)
  {
    forall t :: AskFor(Subject.RightShifts, t) ==> m == n / T(k)
  }

  /** n / 2^k, under a name that stays folded. */
  ghost function Shr(n: nat, k: nat): (m: nat)
    ensures IsShr(n, k, m)
  {
    assert IsShr(n, k, n / T(k));
    var m :| IsShr(n, k, m);
    m
  }

  lemma ShrMeans(n: nat, k: nat)
    ensures Shr(n, k) == n / T(k)
  {
    assert AskFor(Subject.RightShifts, 0);
  }

  lemma ShrNone(n: nat)
    ensures Shr(n, 0) == n
  {
    ShrMeans(n, 0);
    TZero();
  }
}
