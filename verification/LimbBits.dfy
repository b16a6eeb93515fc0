/** Single bits of a row of limbs (libbf.c, 341-389): a position in bits is a limb and a
    position within it. */
module LimbBits {
  import opened Arith
  import opened Limbs
  import opened LimbOps
  import opened Bits

  /** A bit position as limb and offset. */
  lemma BitPosition(pos: nat)
    ensures pos == (pos / LB()) * LB() + pos % LB() && pos % LB() < LB()
    ensures T(pos) == P(pos / LB()) * T(pos % LB())
  {
    var i, p := pos / LB(), pos % LB();
    DivMod(pos, LB());
    TAdd(i * LB(), p);
    TLimbs(i);
  }

  /** A number above and below bit position i * LIMB_BITS + j, where j is within limb x. */
  lemma CutLimb(lo: nat, i: nat, x: nat, y: nat, j: nat)
    requires lo < P(i) && x < B && j <= LB()
    ensures var n := lo + (x + y * B) * P(i);
            n % (P(i) * T(j)) == lo + (x % T(j)) * P(i) &&
            n / (P(i) * T(j)) == x / T(j) + y * T(LB() - j)
  {
    var p, t := P(i), T(j);
    var n := lo + (x + y * B) * p;
    TLimb();
    TAdd(LB() - j, j);
    var u := T(LB() - j);
    DivMod(x, t);
    var q, r := x / t + y * u, lo + (x % t) * p;
    assert n == q * (p * t) + r by { CutAlgebra(lo, p, t, x / t, x % t, y, u); }
    assert 0 <= r < p * t by {
      MulMono(x % t, t - 1, p);
      Distrib(t, 1, p);
      MulComm(p, t);
    }
    DivModUnique(n, p * t, q, r);
  }

  lemma CutAlgebra(lo: int, p: int, t: int, q: int, r: int, y: int, u: int)
    ensures lo + ((q * t + r) + y * (u * t)) * p == (q + y * u) * (p * t) + (lo + r * p)
  {
    MulAssoc(y, u, t);
    Distrib(q, y * u, t);
    Distrib((q + y * u) * t, r, p);
    MulAssoc(q + y * u, t, p);
    MulComm(t, p);
  }

  /** The value of a row from its limb i. */
  lemma LimbAt(s: seq<Limb>, n: nat, i: nat) returns (y: nat)
    requires i < n <= |s|
    ensures W(s, 0, n) == W(s, 0, i) + (s[i] + y * B) * P(i) && W(s, 0, i) < P(i)
    ensures y == W(s, i + 1, n - i - 1)
  {
    y := W(s, i + 1, n - i - 1);
    WSplit(s, 0, i, n - i);
    WCons(s, i, n - i);
    WBound(s, 0, i);
    MulComm(y, B);
  }

  lemma CutAt(s: seq<Limb>, n: nat, i: nat, j: nat)
    requires i < n <= |s| && j <= LB()
    ensures W(s, 0, n) % (P(i) * T(j)) == W(s, 0, i) + (s[i] % T(j)) * P(i)
    ensures W(s, 0, n) / (P(i) * T(j)) == s[i] / T(j) + W(s, i + 1, n - i - 1) * T(LB() - j)
  {
    var y := LimbAt(s, n, i);
    CutLimb(W(s, 0, i), i, s[i], y, j);
  }

  /** Bit pos of n. */
  predicate Bit(n: nat, pos: int)
  {
    pos >= 0 && (n / T(pos)) % 2 == 1
  }

  lemma NoBit(n: nat, k: nat, pos: int)
    requires n < T(k) && pos >= k
    ensures !Bit(n, pos) && n / T(pos) == 0
  {
    TMono(k, pos);
    DivModUnique(n, T(pos), 0, n);
  }

  /** get_bit */
  method GetBit(tab: array<Limb>, len: nat, pos: int) returns (b: bool)
    requires len <= tab.Length
    ensures b == Bit(W(tab[..], 0, len), pos)
  {
    ghost var n := W(tab[..], 0, len);
    if pos < 0 { return false; }
    var i, p := pos / LB(), pos % LB();
    BitPosition(pos);
    if i >= len {
      WBound(tab[..], 0, len);
      TLimbs(len);
      MulMono(len, i, LB());
      NoBit(n, len * LB(), pos);
      return false;
    }
    CutAt(tab[..], len, i, p);
    UpperEven(tab[i] / T(p), W(tab[..], i + 1, len - i - 1), p);
    b := (tab[i] / T(p)) % 2 == 1;
  }

  lemma UpperEven(v: nat, y: nat, p: nat)
    requires p < LB()
    ensures (v + y * T(LB() - p)) % 2 == v % 2
  {
    TSucc(LB() - p - 1);
    MulAssoc(y, 2, T(LB() - p - 1));
    MulComm(y, 2);
    MulAssoc(2, y, T(LB() - p - 1));
  }

  /** scan_bit_nz: whether a bit at pos or below is set. */
  method ScanBitNz(tab: array<Limb>, ghost len: nat, pos: int) returns (nz: bool)
    requires len <= tab.Length && pos < len * LB()
    ensures nz == (pos >= 0 && W(tab[..], 0, len) % T(pos + 1) != 0)
  {
    if pos < 0 { return false; }
    var i, p := pos / LB(), pos % LB();
    BitPosition(pos);
    LimbInside(pos, len);
    TAdd(i * LB(), p + 1);
    TLimbs(i);
    CutAt(tab[..], len, i, p + 1);
    var v := tab[i] % T(p + 1);
    if v != 0 {
      MulMono(1, v, P(i));
      return true;
    }
    nz := MpScanNz(tab, i);
  }

  lemma LimbInside(pos: nat, len: nat)
    requires pos < len * LB()
    ensures pos / LB() < len
  {
    DivMod(pos, LB());
    if pos / LB() >= len { MulMono(len, pos / LB(), LB()); }
  }
}
