/** Congruence of integers, powers and sums. */
module Congruence {
  import opened Hints
  import opened Arith

  /** m divides a - b. */
  ghost predicate Divides(a: int, b: int, m: int)
  {
    exists q: int :: Multiple(a, b, q, m)
  }

  ghost predicate Multiple(a: int, b: int, q: int, m: int)
  {
    a == b + q * m
  }

  ghost predicate IsCong(a: int, b: int, m: int, c: bool)
  {
    forall t :: AskFor(Subject.Congruences, t) ==> (c <==> Divides(a, b, m))
  }

  /** a and b are congruent modulo m; the name stays folded. */
  ghost predicate Cong(a: int, b: int, m: int)
    ensures IsCong(a, b, m, Cong(a, b, m))
  {
    assert IsCong(a, b, m, Divides(a, b, m));
    var c :| IsCong(a, b, m, c);
    c
  }

  lemma CongMeans(a: int, b: int, m: int)
    ensures Cong(a, b, m) <==> Divides(a, b, m)
  {
    assert AskFor(Subject.Congruences, 0);
  }

  lemma CongBy(a: int, b: int, q: int, m: int)
    requires a == b + q * m
    ensures Cong(a, b, m)
  {
    CongMeans(a, b, m);
    assert Multiple(a, b, q, m);
  }

  lemma CongSame(a: int, m: int)
    ensures Cong(a, a, m)
  {
    CongBy(a, a, 0, m);
  }

  lemma CongBack(a: int, b: int, m: int)
    requires Cong(a, b, m)
    ensures Cong(b, a, m)
  {
    CongMeans(a, b, m);
    var q :| Multiple(a, b, q, m);
    Distrib(0, q, m);
    CongBy(b, a, 0 - q, m);
  }

  lemma CongTrans(a: int, b: int, c: int, m: int)
    requires Cong(a, b, m) && Cong(b, c, m)
    ensures Cong(a, c, m)
  {
    CongMeans(a, b, m);
    CongMeans(b, c, m);
    var q :| Multiple(a, b, q, m);
    var r :| Multiple(b, c, r, m);
    Distrib(q, r, m);
    CongBy(a, c, q + r, m);
  }

  lemma CongAdd(a: int, b: int, c: int, d: int, m: int)
    requires Cong(a, b, m) && Cong(c, d, m)
    ensures Cong(a + c, b + d, m) && Cong(a - c, b - d, m)
  {
    CongMeans(a, b, m);
    CongMeans(c, d, m);
    var q :| Multiple(a, b, q, m);
    var r :| Multiple(c, d, r, m);
    Distrib(q, r, m);
    CongBy(a + c, b + d, q + r, m);
    CongBy(a - c, b - d, q - r, m);
  }

  lemma CongMul(a: int, b: int, c: int, d: int, m: int)
    requires Cong(a, b, m) && Cong(c, d, m)
    ensures Cong(a * c, b * d, m)
  {
    CongMeans(a, b, m);
    CongMeans(c, d, m);
    var q :| Multiple(a, b, q, m);
    var r :| Multiple(c, d, r, m);
    MulCong(b, q, d, r, m);
    CongBy(a * c, b * d, q * d + r * b + q * r * m, m);
  }

  lemma MulCong(b: int, q: int, d: int, r: int, m: int)
    ensures (b + q * m) * (d + r * m) == b * d + (q * d + r * b + q * r * m) * m
  {
    Distrib(b, q * m, d + r * m);
    Distrib(d, r * m, b);
    Distrib(d, r * m, q * m);
    assert b * (r * m) == (r * b) * m;
    assert (q * m) * d == (q * d) * m;
    assert (q * m) * (r * m) == (q * r * m) * m;
    Distrib(q * d, r * b, m);
    Distrib(q * d + r * b, q * r * m, m);
  }

  /** Residues in the same interval of length m are equal. */
  lemma CongUnique(a: int, b: int, m: int)
    requires Cong(a, b, m) && 0 <= a < m && 0 <= b < m
    ensures a == b
  {
    CongMeans(a, b, m);
    var q :| Multiple(a, b, q, m);
    if q >= 1 { MulMono(1, q, m); }
    if q <= -1 { MulMono(q, -1, m); }
  }

  lemma CongMod(a: int, m: int)
    requires m > 0
    ensures Cong(a, a % m, m)
  {
    DivMod(a, m);
    CongBy(a, a % m, a / m, m);
  }

  // ----------------------------------------------------------------------------- powers

  /** v^n under a name that stays folded. */
  ghost predicate IsExp(v: int, n: nat, r: int)
  {
    forall t :: AskFor(Subject.ModularPowers, t) ==> r == Raise(v, n)
  }

  ghost function Raise(v: int, n: nat): int
  {
    if n == 0 then 1 else v * Raise(v, n - 1)
  }

  ghost function Exp(v: int, n: nat): (r: int)
    ensures IsExp(v, n, r)
  {
    assert IsExp(v, n, Raise(v, n));
    var r :| IsExp(v, n, r);
    r
  }

  lemma PowerMeans(v: int, n: nat)
    ensures Exp(v, n) == Raise(v, n)
  {
    assert AskFor(Subject.ModularPowers, 0);
  }

  lemma PowerZero(v: int)
    ensures Exp(v, 0) == 1
  {
    PowerMeans(v, 0);
  }

  lemma PowerSucc(v: int, n: nat)
    ensures Exp(v, n + 1) == v * Exp(v, n)
  {
    PowerMeans(v, n);
    PowerMeans(v, n + 1);
  }

  lemma {:induction false} PowerAdd(v: int, j: nat, k: nat)
    ensures Exp(v, j + k) == Exp(v, j) * Exp(v, k)
  {
    if j == 0 {
      PowerZero(v);
    } else {
      PowerAdd(v, j - 1, k);
      PowerSucc(v, j - 1);
      PowerSucc(v, j - 1 + k);
      MulAssoc(v, Exp(v, j - 1), Exp(v, k));
    }
  }

  lemma {:induction false} PowerMul(v: int, j: nat, k: nat)
    ensures Exp(v, j * k) == Exp(Exp(v, j), k)
    decreases k
  {
    if k == 0 {
      PowerZero(v);
      PowerZero(Exp(v, j));
    } else {
      PowerMul(v, j, k - 1);
      Distrib(k - 1, 1, j);
      MulComm(j, k);
      MulComm(j, k - 1);
      PowerAdd(v, j, j * (k - 1));
      PowerSucc(Exp(v, j), k - 1);
    }
  }

  lemma {:induction false} PowerCong(v: int, w: int, n: nat, m: int)
    requires Cong(v, w, m)
    ensures Cong(Exp(v, n), Exp(w, n), m)
  {
    if n == 0 {
      PowerZero(v);
      PowerZero(w);
      CongSame(1, m);
    } else {
      PowerCong(v, w, n - 1, m);
      PowerSucc(v, n - 1);
      PowerSucc(w, n - 1);
      CongMul(v, w, Exp(v, n - 1), Exp(w, n - 1), m);
    }
  }

  lemma {:induction false} PowerOne(n: nat)
    ensures Exp(1, n) == 1
  {
    if n == 0 {
      PowerZero(1);
    } else {
      PowerOne(n - 1);
      PowerSucc(1, n - 1);
    }
  }

  /** Powers of -1. */
  lemma MinusOne(n: nat)
    ensures Exp(-1, 2 * n) == 1 && Exp(-1, 2 * n + 1) == -1
  {
    PowerZero(-1);
    PowerSucc(-1, 0);
    PowerSucc(-1, 1);
    PowerMul(-1, 2, n);
    PowerOne(n);
    PowerSucc(-1, 2 * n);
  }
}
