/** Integer square roots of limb buffers (libbf.c, 1881-2070): a table for 16
    bits, two doublings inside a limb, one to two limbs, and the recursion of
    Zimmermann's "Karatsuba Square Root". */
module SquareRoot {
  import opened Hints
  import opened Arith
  import opened Limbs
  import opened LimbOps
  import opened DivBounds
  import opened Division

  /** s is the integer square root of a and r what it leaves over. */
  ghost predicate IsRoot(a: int, s: int, r: int)
  {
    a == s * s + r && 0 <= r <= 2 * s
  }

  /** The same behind Ask, for the buffer routines. */
  ghost predicate Root(a: int, s: int, r: int)
  {
    forall t :: Ask(t) ==> IsRoot(a, s, r)
  }

  /** s is the root if its residue r is not negative, and one too large if it is. */
  ghost predicate Candidate(a: int, s: int, r: int)
  {
    forall t :: Ask(t) ==> (r >= 0 ==> IsRoot(a, s, r)) && (r < 0 ==> IsRoot(a, s - 1, r + 2 * (s - 1) + 1))
  }

  lemma RootIsFloor(a: nat, s: nat, r: nat)
    requires IsRoot(a, s, r)
    ensures s * s <= a < (s + 1) * (s + 1)
  {}

  // ------------------------------------------------- one step of the doubling

  /** From the root s1 of the high part, in base b, to a candidate of the whole:
      s1 * b + q with residue u * b + a0 - q^2. */
  lemma DoublingIdentity(b: int, s1: int, r1: int, a1: int, a0: int, q: int, u: int)
    requires r1 * b + a1 == q * (2 * s1) + u
    ensures (s1 * s1 + r1) * (b * b) + a1 * b + a0 == (s1 * b + q) * (s1 * b + q) + (u * b + a0 - q * q)
  {
    assert (s1 * b + q) * (s1 * b + q) == (s1 * s1) * (b * b) + (q * (2 * s1)) * b + q * q by {
      Distrib(s1 * b, q, s1 * b + q);
      Distrib(s1 * b, q, s1 * b);
      Distrib(s1 * b, q, q);
      assert (s1 * b) * (s1 * b) == (s1 * s1) * (b * b);
      assert (s1 * b) * q + q * (s1 * b) == (q * (2 * s1)) * b;
    }
    Distrib(s1 * s1, r1, b * b);
    assert r1 * (b * b) == (r1 * b) * b;
    Distrib(r1 * b, a1, b);
    Distrib(q * (2 * s1), u, b);
  }

  /** The quotient is at most b, and the residue at least -(b - 1)^2 - 2q + 1. */
  lemma DoublingQuotient(b: nat, s1: nat, r1: nat, a1: nat, q: int, u: nat)
    requires 0 < b <= 2 * s1 && r1 <= 2 * s1 && a1 < b
    requires r1 * b + a1 == q * (2 * s1) + u && u < 2 * s1
    ensures 0 <= q <= b
  {
    var d := 2 * s1;
    MulMono(r1, d, b);
    MulNonNeg(r1, b);
    Distrib(b, 1, d);
    MulComm(d, b);
    MulCancelLess(q, b + 1, d);
    MulCancelLess(-1, q, d);
  }

  /** One correction is always enough. */
  lemma Doubling(b: nat, s1: nat, r1: nat, a1: nat, a0: nat, q: int, u: nat)
    requires 0 < b <= 2 * s1 && r1 <= 2 * s1 && a1 < b && a0 < b
    requires r1 * b + a1 == q * (2 * s1) + u && u < 2 * s1
    ensures 0 <= q <= b
    ensures var a, s, r := (s1 * s1 + r1) * (b * b) + a1 * b + a0, s1 * b + q, u * b + a0 - q * q;
            (r >= 0 ==> IsRoot(a, s, r)) && (r < 0 ==> IsRoot(a, s - 1, r + 2 * (s - 1) + 1))
  {
    var a, s, r := (s1 * s1 + r1) * (b * b) + a1 * b + a0, s1 * b + q, u * b + a0 - q * q;
    DoublingQuotient(b, s1, r1, a1, q, u);
    DoublingIdentity(b, s1, r1, a1, a0, q, u);
    ResidueBounds(b, s1, a0, q, u);
    assert (s - 1) * (s - 1) == s * s - 2 * s + 1;
  }

  lemma ResidueBounds(b: nat, s1: nat, a0: nat, q: nat, u: nat)
    requires 0 < b <= 2 * s1 && a0 < b && q <= b && u < 2 * s1
    ensures var s, r := s1 * b + q, u * b + a0 - q * q;
            r <= 2 * s && (r < 0 ==> r + 2 * s - 1 >= 0)
  {
    ResidueAbove(b, s1, a0, q, u);
    if q > 0 { SquareBelow(b, s1, q); }
    MulNonNeg(u, b);
  }

  lemma ResidueAbove(b: nat, s1: nat, a0: nat, q: nat, u: nat)
    requires a0 < b && u < 2 * s1
    ensures u * b + a0 - q * q < 2 * (s1 * b)
  {
    MulNonNeg(q, q);
    MulMono(u + 1, 2 * s1, b);
    Distrib(u, 1, b);
    assert (2 * s1) * b == 2 * (s1 * b);
  }

  lemma SquareBelow(b: nat, s1: nat, q: nat)
    requires 0 < b <= 2 * s1 && 0 < q <= b
    ensures q * q - 2 * q + 1 <= 2 * (s1 * b)
  {
    var p := q - 1;
    MulMono(p, b, p);
    MulMono(p, b, b);
    MulMono(b, 2 * s1, b);
    assert (2 * s1) * b == 2 * (s1 * b);
    assert q * q == p * p + 2 * p + 1 by { Distrib(p, 1, q); Distrib(p, 1, p); }
  }

  // ------------------------------------------------------ inside one limb

  /** sqrt_table, in rows of 16. */
  const SQRT_TABLE: seq<seq<nat>> := [
    [128, 128, 129, 130, 131, 132, 133, 134, 135, 136, 137, 138, 139, 140, 141, 142],
    [143, 144, 144, 145, 146, 147, 148, 149, 150, 150, 151, 152, 153, 154, 155, 155],
    [156, 157, 158, 159, 160, 160, 161, 162, 163, 163, 164, 165, 166, 167, 167, 168],
    [169, 170, 170, 171, 172, 173, 173, 174, 175, 176, 176, 177, 178, 178, 179, 180],
    [181, 181, 182, 183, 183, 184, 185, 185, 186, 187, 187, 188, 189, 189, 190, 191],
    [192, 192, 193, 193, 194, 195, 195, 196, 197, 197, 198, 199, 199, 200, 201, 201],
    [202, 203, 203, 204, 204, 205, 206, 206, 207, 208, 208, 209, 209, 210, 211, 211],
    [212, 212, 213, 214, 214, 215, 215, 216, 217, 217, 218, 218, 219, 219, 220, 221],
    [221, 222, 222, 223, 224, 224, 225, 225, 226, 226, 227, 227, 228, 229, 229, 230],
    [230, 231, 231, 232, 232, 233, 234, 234, 235, 235, 236, 236, 237, 237, 238, 238],
    [239, 240, 240, 241, 241, 242, 242, 243, 243, 244, 244, 245, 245, 246, 246, 247],
    [247, 248, 248, 249, 249, 250, 250, 251, 251, 252, 252, 253, 253, 254, 254, 255]
  ]

  ghost predicate GoodEntry(i: nat, t: nat)
  {
    t * t <= 256 * (i + 64) && 256 * (i + 64) + 255 < (t + 2) * (t + 2) && 128 <= t <= 255
  }

  lemma Rows0(k: nat, j: nat)
    requires k < 3 && j < 16
    ensures |SQRT_TABLE[k]| == 16 && GoodEntry(16 * k + j, SQRT_TABLE[k][j])
  {}

  lemma Rows3(k: nat, j: nat)
    requires 3 <= k < 6 && j < 16
    ensures |SQRT_TABLE[k]| == 16 && GoodEntry(16 * k + j, SQRT_TABLE[k][j])
  {}

  lemma Rows6(k: nat, j: nat)
    requires 6 <= k < 9 && j < 16
    ensures |SQRT_TABLE[k]| == 16 && GoodEntry(16 * k + j, SQRT_TABLE[k][j])
  {}

  lemma Rows9(k: nat, j: nat)
    requires 9 <= k < 12 && j < 16
    ensures |SQRT_TABLE[k]| == 16 && GoodEntry(16 * k + j, SQRT_TABLE[k][j])
  {}

  /** Every entry is the root of its 16-bit numbers, or one less. */
  lemma TableGood(i: nat)
    requires i < 192
    ensures |SQRT_TABLE| == 12 && |SQRT_TABLE[i / 16]| == 16 && GoodEntry(i, SQRT_TABLE[i / 16][i % 16])
  {
    var k, j := i / 16, i % 16;
    if k < 3 { Rows0(k, j); } else if k < 6 { Rows3(k, j); } else if k < 9 { Rows6(k, j); } else { Rows9(k, j); }
  }

  /** The root of a 16-bit number whose top two bits are not both zero. */
  method Root16(a: nat) returns (s: nat, r: nat)
    requires 0x4000 <= a < 0x1_0000
    ensures IsRoot(a, s, r) && 128 <= s < 256
  {
    var i := a / 256 - 64;
    TableGood(i);
    s := SQRT_TABLE[i / 16][i % 16];
    r := a - s * s;
    if r > 2 * s {
      r := r - (2 * s + 1);
      assert (s + 1) * (s + 1) == s * s + 2 * s + 1;
      s := s + 1;
    }
    Below256(a, s, r);
  }

  lemma Below256(a: nat, s: nat, r: nat)
    requires a < 0x1_0000 && IsRoot(a, s, r)
    ensures s < 256
  {
    if s >= 256 { MulMono(256, s, s); }
  }

  /** One doubling on machine words: a is the root's operand, a1 and a0 the next
      two digits in base b. */
  method Double(b: nat, s1: nat, r1: nat, a1: nat, a0: nat, ghost a: nat) returns (s: nat, r: nat)
    requires 0 < b <= 2 * s1 && a1 < b && a0 < b && IsRoot(a, s1, r1)
    ensures IsRoot(a * (b * b) + a1 * b + a0, s, r)
    ensures s1 * b <= s + 1 && s <= s1 * b + b
  {
    var num := r1 * b + a1;
    var q, u := num / (2 * s1), num % (2 * s1);
    DivMod(num, 2 * s1);
    Doubling(b, s1, r1, a1, a0, q, u);
    s := s1 * b + q;
    var d := u * b + a0 - q * q;
    if d < 0 {
      s := s - 1;
      d := d + 2 * s + 1;
    }
    r := d;
  }

  lemma Digits(a: nat, b: nat)
    requires b == 256 || b == 0x1_0000
    ensures a == a / (b * b) * (b * b) + a / b % b * b + a % b
  {}

  method Root32(a: nat) returns (s: nat, r: nat)
    requires 0x4000_0000 <= a < 0x1_0000_0000
    ensures IsRoot(a, s, r) && 0x8000 <= s < 0x1_0000
  {
    var s1, r1 := Root16(a / 0x1_0000);
    s, r := Double(256, s1, r1, a / 256 % 256, a % 256, a / 0x1_0000);
    Digits(a, 256);
    RootBounds(a, s, r, 0x1_0000);
  }

  method Root64(a: nat) returns (s: nat, r: nat)
    requires 0x4000_0000_0000_0000 <= a < 0x1_0000_0000_0000_0000
    ensures IsRoot(a, s, r) && 0x8000_0000 <= s < 0x1_0000_0000
  {
    var s1, r1 := Root32(a / 0x1_0000_0000);
    s, r := Double(0x1_0000, s1, r1, a / 0x1_0000 % 0x1_0000, a % 0x1_0000, a / 0x1_0000_0000);
    Digits(a, 0x1_0000);
    RootBounds(a, s, r, 0x1_0000_0000);
  }

  /** The root of a number below c^2 is below c, and at least c / 2 if the number
      is at least c^2 / 4. */
  lemma RootBounds(a: nat, s: nat, r: nat, c: nat)
    requires IsRoot(a, s, r) && c * c <= 4 * a && a < c * c && c % 2 == 0
    ensures c <= 2 * s && s < c
  {
    RootBelow(a, s, r, c);
    var t := 2 * (s + 1);
    assert t * t == 4 * (s * s) + 8 * s + 4;
    if t <= c { MulMono(t, c, t); MulMono(t, c, c); }
  }

  lemma RootBelow(a: nat, s: int, r: int, c: nat)
    requires IsRoot(a, s, r) && a < c * c
    ensures 0 <= s < c
  {
    if s >= c { MulMono(c, s, c); MulMono(c, s, s); }
  }

  /** 1 << (LIMB_BITS / 2) */
  function HalfWord(): nat
  {
    if B > 0x1_0000_0000 then 0x1_0000_0000 else 0x1_0000
  }

  lemma HalfWordSquared()
    ensures HalfWord() * HalfWord() == B && HalfWord() % 2 == 0
  {
    TheBases();
  }

  /** mp_sqrtrem1: the root of a limb whose top two bits are not both zero. */
  method MpSqrtrem1(a: Limb) returns (s: Limb, r: Limb)
    requires 4 * a >= B
    ensures IsRoot(a, s, r) && HalfWord() <= 2 * s && s < HalfWord()
  {
    TheBases();
    if B > 0x1_0000_0000 {
      s, r := Root64(a);
    } else {
      s, r := Root32(a);
    }
  }

  /** mp_sqrtrem2: the root of two limbs. The candidate may be B, which wraps to
      0; it is then corrected to B - 1. */
  method MpSqrtrem2(tabs: array<Limb>, so: nat, taba: array<Limb>, ao: nat) returns (rh: Limb)
    requires so < tabs.Length && ao + 2 <= taba.Length && tabs != taba && 4 * taba[ao + 1] >= B
    modifies tabs, taba
    ensures Outside(old(tabs[..]), tabs[..], so, 1) && Outside(old(taba[..]), taba[..], ao, 2)
    ensures rh <= 1
    ensures Root(W(old(taba[..]), ao, 2), W(tabs[..], so, 1), W(taba[..], ao, 1) + rh * P(1))
  {
    ghost var a := W(taba[..], ao, 2);
    TwoLimbs(taba[..], ao);
    var s, lo;
    s, lo, rh := RootOfTwo(taba[ao + 1], taba[ao], a);
    tabs[so] := s;
    taba[ao] := lo;
    OneLimb(tabs[..], so);
    OneLimb(taba[..], ao);
    PZero();
    PSucc(0);
    assert rh * P(1) == Top(rh);
  }

  lemma TwoLimbs(s: seq<Limb>, lo: nat)
    requires lo + 2 <= |s|
    ensures W(s, lo, 2) == s[lo + 1] * B + s[lo]
  {
    WCons(s, lo, 2);
    OneLimb(s, lo + 1);
  }

  method RootOfTwo(a1: Limb, a0: Limb, ghost a: nat) returns (s: Limb, lo: Limb, rh: Limb)
    requires 4 * a1 >= B && a == a1 * B + a0
    ensures IsRoot(a, s, lo + Top(rh)) && rh <= 1
  {
    var s1, r1 := MpSqrtrem1(a1);
    var b := HalfWord();
    HalfWordSquared();
    HalfLimbs(a0, b);
    var num := r1 * b + a0 / b;
    var q, u := num / (2 * s1), num % (2 * s1);
    DivMod(num, 2 * s1);
    Doubling(b, s1, r1, a0 / b, a0 % b, q, u);
    RootIsDoubled(a, a1, a0, b);
    ghost var exact := s1 * b + q;
    TwoLimbBounds(b, s1, q);
    s := AddW(s1 * b, q);
    var e := u * b + a0 % b - (if q >= b then B else q * q);
    assert q >= b ==> q == b;
    assert e == u * b + a0 % b - q * q;
    if e < 0 {
      RootBelow(a, exact - 1, e + 2 * (exact - 1) + 1, B) by { LimbSquare(a1, a0); }
      s := SubW(s, 1);
      e := e + 2 * s + 1;
    } else {
      RootBelow(a, exact, e, B) by { LimbSquare(a1, a0); }
    }
    HighBit(e, s);
    lo, rh := e % B, e / B;
  }

  lemma HalfLimbs(x: Limb, b: nat)
    requires b > 0 && b * b == B
    ensures x / b < b && x % b < b && x == (x / b) * b + x % b
  {
    DivMod(x, b);
    MulCancelLess(x / b, b, b);
  }

  lemma RootIsDoubled(a: int, a1: int, a0: int, b: int)
    requires b > 0 && b * b == B && a == a1 * B + a0
    ensures a == a1 * (b * b) + (a0 / b) * b + a0 % b
  {
    DivMod(a0, b);
  }

  lemma TwoLimbBounds(b: nat, s1: nat, q: nat)
    requires b * b == B && s1 < b && q <= b
    ensures s1 * b < B && q < B && s1 * b + q <= B
  {
    MulMono(s1, b - 1, b);
    Distrib(b, 1, b);
    if b >= B { MulMono(b, B, b); MulMono(B, b, B); }
  }

  lemma LimbSquare(a1: Limb, a0: Limb)
    ensures a1 * B + a0 < B * B
  {
    MulMono(a1, B - 1, B);
    Distrib(B, 1, B);
  }

  lemma HighBit(d: nat, s: Limb)
    requires d <= 2 * s
    ensures 0 <= d / B <= 1 && 0 <= d % B < B && d == d % B + (if d / B == 0 then 0 else B)
  {
    DivMod(d, B);
    MulCancelLess(d / B, 2, B);
    MulCancelLess(-1, d / B, B);
  }

  // ------------------------------------------------------------ the recursion

  /** A number with its two top bits not both zero has a normalized root. */
  lemma RootNormalized(ts: seq<Limb>, so: nat, h: nat, a: nat, r: nat)
    requires h > 0 && so + h <= |ts| && P(2 * h) <= 4 * a && a < P(2 * h) && Root(a, W(ts, so, h), r)
    ensures Normalized(ts, so, h) && r <= 2 * W(ts, so, h)
  {
    assert Ask(0);
    PAdd(h, h);
    assert P(h) % 2 == 0 by { PowerEven(h); }
    RootBounds(a, W(ts, so, h), r, P(h));
    NormalizedValue(ts, so, h);
  }

  lemma PowerEven(h: nat)
    requires h > 0
    ensures P(h) % 2 == 0
  {
    HalfBase();
    PSucc(h - 1);
    var c := (B / 2) * P(h - 1);
    assert P(h) == 2 * c by { MulAssoc(2, B / 2, P(h - 1)); }
  }

  lemma QuarterValue(s: seq<Limb>, lo: nat, n: nat)
    requires n > 0 && lo + n <= |s| && 4 * s[lo + n - 1] >= B
    ensures 4 * W(s, lo, n) >= P(n)
  {
    WTop(s, lo, n);
    PSucc(n - 1);
    var x: int := s[lo + n - 1];
    MulMono(B, 4 * x, P(n - 1));
    MulAssoc(4, x, P(n - 1));
  }

  /** The division step of the recursion: q = qh * B^l + tabs[0..l] and the rest u
      of (r1 * B^l + a1) / (2 * s1), computed as a division by s1. */
  ghost predicate Halves(r1: int, s1: int, bl: int, a1: int, q: int, u: int)
  {
    forall t :: Ask(t) ==> r1 * bl + a1 == q * (2 * s1) + u && 0 <= u < 2 * s1
  }

  /** The same quotient by s1 itself. */
  ghost predicate Quotient(r1: int, s1: int, bl: int, a1: int, q: int, u: int)
  {
    forall t :: Ask(t) ==> r1 * bl + a1 == q * s1 + u && 0 <= u < s1
  }

  lemma HalvesFromQuotient(r1: int, s1: int, bl: int, a1: int, qq: int, uu: int, q: int, u: int, odd: int)
    requires Quotient(r1, s1, bl, a1, qq, uu)
    requires qq == 2 * q + odd && 0 <= odd <= 1 && u == uu + (if odd == 1 then s1 else 0)
    ensures Halves(r1, s1, bl, a1, q, u)
  {
    assert Ask(0);
    assert qq * s1 == q * (2 * s1) + odd * s1 by { Distrib(2 * q, odd, s1); }
  }

  /** Brings the remainder r1 below the root and divides by the root. The quotient
      is high * B^l + tmp[0..l], with high at most 2. */
  method DivideByRoot(tabs: array<Limb>, so: nat, taba: array<Limb>, ao: nat, l: nat, h: nat, tmp: array<Limb>, qh: Limb, ghost r1: nat)
    returns (high: Limb, ghost qq: nat)
    requires 1 <= l <= h && so + h <= tabs.Length && ao + l + h <= taba.Length && l + 1 <= tmp.Length
    requires tabs != taba && tabs != tmp && taba != tmp
    requires qh <= 1 && Normalized(tabs[..], so, h)
    requires Plus(r1, W(taba[..], ao + l, h), qh, h) && r1 <= 2 * W(tabs[..], so, h)
    modifies taba, tmp
    ensures Outside(old(taba[..]), taba[..], ao, l + h)
    ensures high <= 2 && Plus(qq, W(tmp[..], 0, l), high, l)
    ensures Quotient(r1, W(tabs[..], so, h), P(l), W(old(taba[..]), ao, l), qq, W(taba[..], ao, h))
  {
    ghost var a0 := taba[..];
    if qh != 0 {
      var k := MpSub(taba, ao + l, taba, ao + l, tabs, so, h, 0);
      ReducedRemainder(a0, taba[..], ao + l, h, tabs[..], so, k, r1);
    }
    ghost var a1 := taba[..];
    MpDivnorm(tmp, taba, ao, l + h, tabs, so, h);
    assert l + h - h == l;
    high := qh + tmp[l];
    qq := RootQuotient(a0, a1, taba[..], ao, l, h, tabs[..], so, tmp[..], qh, r1);
  }

  lemma ReducedRemainder(a0: seq<Limb>, a1: seq<Limb>, o: nat, h: nat, ts: seq<Limb>, so: nat, k: Limb, r1: nat)
    requires o + h <= |a0| == |a1| && so + h <= |ts| && k <= 1
    requires Plus(r1, W(a0, o, h), 1, h) && r1 <= 2 * W(ts, so, h)
    requires W(a1, o, h) - k * P(h) == W(a0, o, h) - W(ts, so, h) - 0
    ensures W(a1, o, h) == W(a0, o, h) + P(h) - W(ts, so, h)
  {
    assert Ask(0);
    WBound(a1, o, h);
    WBound(ts, so, h);
  }

  lemma RootQuotient(a0: seq<Limb>, a1: seq<Limb>, a2: seq<Limb>, ao: nat, l: nat, h: nat, ts: seq<Limb>, so: nat, t: seq<Limb>, qh: Limb, r1: nat)
    returns (qq: nat)
    requires ao + l + h <= |a0| == |a1| == |a2| && so + h <= |ts| && l < |t| && qh <= 1 && qh as int + t[l] <= 2
    requires Outside(a0, a1, ao + l, h) && Plus(r1, W(a0, ao + l, h), qh, h)
    requires W(a1, ao + l, h) == W(a0, ao + l, h) + (if qh != 0 then P(h) - W(ts, so, h) else 0)
    requires IsDivision(W(a1, ao, l + h), W(ts, so, h), W(t, 0, l + 1), W(a2, ao, h))
    ensures Plus(qq, W(t, 0, l), qh as int + t[l], l)
    ensures Quotient(r1, W(ts, so, h), P(l), W(a0, ao, l), qq, W(a2, ao, h))
  {
    assert Ask(0);
    WSplit(a1, ao, l, h);
    assert a0[ao..ao + l] == a1[ao..ao + l];
    WSnoc(t, 0, l);
    qq := (qh as int + t[l]) * P(l) + W(t, 0, l);
    RootQuotientAlgebra(W(a0, ao + l, h), qh, P(h), P(l), W(ts, so, h), W(t, 0, l), t[l], W(a0, ao, l), W(a2, ao, h));
  }

  lemma RootQuotientAlgebra(r: int, qh: int, ph: int, pl: int, s: int, t: int, x: int, a: int, u: int)
    requires 0 <= qh <= 1
    requires a + (r + (if qh != 0 then ph - s else 0)) * pl == (t + x * pl) * s + u
    ensures (r + qh * ph) * pl + a == ((qh + x) * pl + t) * s + u
  {
    Distrib(qh, x, pl);
    Distrib(t + x * pl, qh * pl, s);
    if qh == 1 {
      Distrib(r + ph, s, pl);
      MulComm(s, pl);
    }
  }

  /** Halves the quotient into tabs[]; when it was odd, the root goes back into the
      remainder. */
  method HalveQuotient(tabs: array<Limb>, so: nat, taba: array<Limb>, ao: nat, l: nat, h: nat, tmp: array<Limb>, high: Limb, ghost qq: nat)
    returns (qh: Limb, rh: Limb, ghost q: nat, ghost u: nat, ghost odd: Limb)
    requires 1 <= l <= h && so + l + h <= tabs.Length && ao + h <= taba.Length && l <= tmp.Length
    requires tabs != taba && tabs != tmp && taba != tmp && high <= 2
    requires Plus(qq, W(tmp[..], 0, l), high, l)
    modifies tabs, taba
    ensures Outside(old(tabs[..]), tabs[..], so, l) && Outside(old(taba[..]), taba[..], ao, h)
    ensures qh <= 1 && rh <= 1 && odd <= 1
    ensures Plus(q, W(tabs[..], so, l), qh, l) && qq == 2 * q + odd
    ensures Plus(u, W(taba[..], ao, h), rh, h) && u == W(old(taba[..]), ao, h) + (if odd == 1 then W(tabs[..], so + l, h) else 0)
  {
    CopyLimbs(tabs, so, tmp, 0, l);
    var ql := MpShr1(tabs, so, l, high % 2);
    odd := ql;
    qh := high / 2;
    q := HalfQuotient(W(tabs[..], so, l), W(tmp[..], 0, l), high, l, ql, qq);
    rh := 0;
    u := W(taba[..], ao, h);
    if ql != 0 {
      u := u + W(tabs[..], so + l, h);
      rh := MpAdd(taba, ao, taba, ao, tabs, so + l, h, 0);
    }
  }

  lemma HalfQuotient(w: nat, t: nat, high: Limb, l: nat, odd: Limb, qq: nat) returns (q: nat)
    requires high <= 2 && Plus(qq, t, high, l) && 2 * w + odd == t + (high % 2) * P(l)
    ensures Plus(q, w, high / 2, l) && qq == 2 * q + odd
  {
    assert Ask(0);
    HighDigits(high, P(l));
    q := w + (high / 2) * P(l);
  }

  lemma HighDigits(high: Limb, p: nat)
    requires high <= 2
    ensures high * p == 2 * ((high / 2) * p) + (high % 2) * p
  {}

  /** tabs[] := root * B^l + q, which wraps when it is B^n, and the remainder minus
      q^2. */
  method SubtractSquare(tabs: array<Limb>, so: nat, taba: array<Limb>, ao: nat, l: nat, h: nat, qh: Limb, rh0: Limb,
                        ghost q: nat, ghost s: nat, ghost r: int)
    returns (rh: int, ghost wrap: nat)
    requires 1 <= l <= h && so + l + h <= tabs.Length && ao + 2 * (l + h) <= taba.Length && tabs != taba
    requires qh <= 1 && Plus(q, W(tabs[..], so, l), qh, l) && q <= P(l)
    requires Plus(s, q, W(tabs[..], so + l, h), l) && Minus(r, W(taba[..], ao, l + h), rh0, l + h, q)
    modifies tabs, taba
    ensures Outside(old(tabs[..]), tabs[..], so, l + h) && Outside(old(taba[..]), taba[..], ao, 2 * (l + h))
    ensures Plus(s, W(tabs[..], so, l + h), wrap, l + h) && Plus(r, W(taba[..], ao, l + h), rh, l + h)
  {
    ghost var s0, a0 := tabs[..], taba[..];
    HighImpliesZero(qh, W(s0, so, l), q, l);
    wrap := AddHigh(tabs, so, l, h, qh, q, s);
    assert tabs[..][so..so + l] == s0[so..so + l];
    var c2 := TakeSquare(taba, ao, l, h, tabs, so, qh, q);
    rh := rh0 - c2;
    TakenSquare(r, W(a0, ao, l + h), W(taba[..], ao, l + h), rh0, c2, l + h, q);
  }

  lemma TakenSquare(r: int, w0: int, w1: int, rh0: int, c2: int, n: nat, q: int)
    requires Minus(r, w0, rh0, n, q) && Minus(w1, w0, c2, n, q)
    ensures Plus(r, w1, rh0 - c2, n)
  {
    assert Ask(0);
    Distrib(rh0, c2, P(n));
  }

  lemma HighImpliesZero(qh: Limb, w: nat, q: nat, l: nat)
    requires Plus(q, w, qh, l) && q <= P(l) && qh <= 1
    ensures qh == 1 ==> w == 0 && q == P(l)
    ensures qh == 0 ==> q == w
  {
    assert Ask(0);
  }

  /** The remainder window minus q^2; the borrow is returned. When q is B^l, its
      square is a one at limb 2 * l. */
  method TakeSquare(taba: array<Limb>, ao: nat, l: nat, h: nat, tabs: array<Limb>, so: nat, qh: Limb, ghost q: nat) returns (c2: Limb)
    requires 1 <= l <= h && so + l <= tabs.Length && ao + 2 * (l + h) <= taba.Length && tabs != taba
    requires qh <= 1 && (qh == 1 ==> q == P(l)) && (qh == 0 ==> q == W(tabs[..], so, l))
    modifies taba
    ensures Outside(old(taba[..]), taba[..], ao, 2 * (l + h))
    ensures Minus(W(taba[..], ao, l + h), W(old(taba[..]), ao, l + h), c2, l + h, q)
  {
    ghost var a0 := taba[..];
    var c: Limb := qh;
    if qh == 0 {
      c := TakeProduct(taba, ao, l, h, tabs, so);
    } else {
      PAdd(l, l);
    }
    ghost var a2 := taba[..];
    c2 := MpSubUi(taba, ao + 2 * l, c, h - l);
    BorrowThrough(a0, a2, taba[..], ao, 2 * l, h - l, q * q, qh, c, c2);
    assert 2 * l + (h - l) == l + h;
  }

  /** The low 2 * l limbs minus the square of tabs[0..l], computed beyond them. */
  method TakeProduct(taba: array<Limb>, ao: nat, l: nat, h: nat, tabs: array<Limb>, so: nat) returns (c: Limb)
    requires 1 <= l <= h && so + l <= tabs.Length && ao + 2 * (l + h) <= taba.Length && tabs != taba
    modifies taba
    ensures Outside(old(taba[..]), taba[..], ao, 2 * (l + h))
    ensures taba[..][ao + 2 * l..ao + l + h] == old(taba[..])[ao + 2 * l..ao + l + h]
    ensures W(taba[..], ao, 2 * l) - c * P(2 * l) == W(old(taba[..]), ao, 2 * l) - W(tabs[..], so, l) * W(tabs[..], so, l)
  {
    ghost var a0 := taba[..];
    MpMul(taba, ao + (l + h), tabs, so, l, tabs, so, l);
    assert l + l == 2 * l;
    assert taba[..][ao..ao + 2 * l] == a0[ao..ao + 2 * l];
    c := MpSub(taba, ao, taba, ao, taba, ao + (l + h), 2 * l, 0);
  }

  lemma BorrowThrough(a0: seq<Limb>, a2: seq<Limb>, a3: seq<Limb>, ao: nat, m: nat, k: nat, sq: nat, qh: Limb, c: Limb, c2: Limb)
    requires ao + m + k <= |a0| == |a2| == |a3|
    requires a2[ao + m..ao + m + k] == a0[ao + m..ao + m + k]
    requires qh != 0 ==> c == 1 && sq == P(m) && a2[ao..ao + m] == a0[ao..ao + m]
    requires qh == 0 ==> W(a2, ao, m) - c * P(m) == W(a0, ao, m) - sq
    requires Outside(a2, a3, ao + m, k) && W(a3, ao + m, k) - c2 * P(k) == W(a2, ao + m, k) - c
    ensures W(a3, ao, m + k) == W(a0, ao, m + k) + c2 * P(m + k) - sq
  {
    WSplit(a0, ao, m, k);
    WSplit(a3, ao, m, k);
    assert a3[ao..ao + m] == a2[ao..ao + m];
    PAdd(m, k);
    BorrowAlgebra(W(a0, ao, m), W(a0, ao + m, k), W(a2, ao, m), W(a3, ao + m, k), P(m), P(k), c, c2, sq);
  }

  lemma BorrowAlgebra(x0: int, y0: int, x2: int, y3: int, pm: int, pk: int, c: int, c2: int, sq: int)
    requires x2 - c * pm == x0 - sq && y3 - c2 * pk == y0 - c
    ensures x2 + y3 * pm - c2 * (pm * pk) == x0 + y0 * pm - sq
  {
    assert (y3 - c2 * pk) * pm == (y0 - c) * pm;
    Distrib(y3, c2 * pk, pm);
    Distrib(y0, c, pm);
    assert (c2 * pk) * pm == c2 * (pm * pk);
  }

  /** Adds the high digit of q to the root part of tabs[]. */
  method AddHigh(tabs: array<Limb>, so: nat, l: nat, h: nat, qh: Limb, ghost q: nat, ghost s: nat) returns (ghost wrap: nat)
    requires 1 <= h && so + l + h <= tabs.Length && qh <= 1
    requires Plus(q, W(tabs[..], so, l), qh, l) && Plus(s, q, W(tabs[..], so + l, h), l)
    modifies tabs
    ensures Outside(old(tabs[..]), tabs[..], so + l, h)
    ensures Plus(s, W(tabs[..], so, l + h), wrap, l + h)
  {
    ghost var s0 := tabs[..];
    var k := MpAddUi(tabs, so + l, qh, h);
    wrap := k;
    assert Ask(0);
    WSplit(tabs[..], so, l, h);
    assert tabs[..][so..so + l] == s0[so..so + l];
    PAdd(l, h);
    AddHighAlgebra(W(tabs[..], so + l, h), W(s0, so + l, h), k, qh, P(l), P(h));
  }

  lemma AddHighAlgebra(y: int, s: int, k: int, qh: int, pl: int, ph: int)
    requires y + k * ph == s + qh
    ensures y * pl + k * (pl * ph) == s * pl + qh * pl
  {
    assert (y + k * ph) * pl == (s + qh) * pl;
    Distrib(y, k * ph, pl);
    Distrib(s, qh, pl);
    assert (k * ph) * pl == k * (pl * ph);
  }

  /** The single correction: root minus one, remainder plus 2 * root + 1. */
  method CorrectRoot(tabs: array<Limb>, so: nat, taba: array<Limb>, ao: nat, n: nat, rh0: int,
                     ghost a: nat, ghost s: nat, ghost r: int, ghost wrap: nat)
    returns (rh: Limb)
    requires n >= 1 && so + n <= tabs.Length && ao + n <= taba.Length && tabs != taba
    requires a < P(2 * n) && Plus(s, W(tabs[..], so, n), wrap, n)
    requires Plus(r, W(taba[..], ao, n), rh0, n) && Candidate(a, s, r)
    modifies tabs, taba
    ensures Outside(old(tabs[..]), tabs[..], so, n) && Outside(old(taba[..]), taba[..], ao, n)
    ensures rh <= 1
    ensures Root(a, W(tabs[..], so, n), W(taba[..], ao, n) + rh * P(n))
  {
    assert Ask(0);
    WBound(taba[..], ao, n);
    WBound(tabs[..], so, n);
    SignOfTop(W(taba[..], ao, n), rh0, P(n));
    CandidateFits(a, s, r, n);
    if rh0 < 0 {
      rh := StepDown(tabs, so, taba, ao, n, rh0, s - 1, r + 2 * (s - 1) + 1, wrap);
    } else {
      SameResidue(W(tabs[..], so, n), s, P(n), 0, wrap, 0);
      RemainderTop(W(taba[..], ao, n), rh0, P(n), s, r);
      rh := rh0;
    }
  }

  /** Whichever of the two is the root, it fits n limbs. */
  lemma CandidateFits(a: nat, s: nat, r: int, n: nat)
    requires a < P(2 * n) && Candidate(a, s, r)
    ensures r >= 0 ==> Root(a, s, r) && s < P(n) && r <= 2 * s
    ensures r < 0 ==> s >= 1 && Root(a, s - 1, r + 2 * (s - 1) + 1) && s - 1 < P(n) && 0 <= r + 2 * (s - 1) + 1
  {
    assert Ask(0);
    PAdd(n, n);
    if r >= 0 {
      RootBelow(a, s, r, P(n));
    } else {
      RootBelow(a, s - 1, r + 2 * (s - 1) + 1, P(n));
    }
  }

  method StepDown(tabs: array<Limb>, so: nat, taba: array<Limb>, ao: nat, n: nat, rh0: int, ghost s: nat, ghost r: nat, ghost wrap: nat)
    returns (rh: Limb)
    requires n >= 1 && so + n <= tabs.Length && ao + n <= taba.Length && tabs != taba
    requires W(tabs[..], so, n) + wrap * P(n) == s + 1 && s < P(n)
    requires W(taba[..], ao, n) + rh0 * P(n) == r - 2 * s - 1 && r <= 2 * s
    modifies tabs, taba
    ensures Outside(old(tabs[..]), tabs[..], so, n) && Outside(old(taba[..]), taba[..], ao, n)
    ensures rh <= 1 && W(tabs[..], so, n) == s && W(taba[..], ao, n) + rh * P(n) == r
  {
    var k := MpSubUi(tabs, so, 1, n);
    WBound(tabs[..], so, n);
    SameResidue(W(tabs[..], so, n), s, P(n), k, wrap, 0);
    var k1 := MpAddMul1(taba, ao, tabs, so, n, 2);
    var k2 := MpAddUi(taba, ao, 1, n);
    WBound(taba[..], ao, n);
    Distrib(rh0, k1, P(n));
    Distrib(rh0 + k1, k2, P(n));
    RemainderTop(W(taba[..], ao, n), rh0 + k1 + k2, P(n), s, r);
    rh := rh0 + k1 + k2;
  }

  lemma SignOfTop(w: int, rh: int, p: int)
    requires 0 <= w < p
    ensures rh < 0 <==> w + rh * p < 0
  {
    if rh < 0 { MulMono(rh, -1, p); } else { MulNonNeg(rh, p); }
  }

  lemma RemainderTop(w: int, rh: int, p: int, s: int, r: int)
    requires 0 <= w < p && w + rh * p == r && 0 <= r <= 2 * s && s < p
    ensures 0 <= rh <= 1
  {
    MulCancelLess(rh, 2, p);
    MulCancelLess(-1, rh, p);
  }

  /** The remainder part of a window: low limbs a0, then u, then the carry rh. */
  lemma RemainderWindow(s: seq<Limb>, ao: nat, l: nat, h: nat, rh: int)
    requires ao + l + h <= |s|
    ensures W(s, ao, l + h) + rh * P(l + h) == (W(s, ao + l, h) + rh * P(h)) * P(l) + W(s, ao, l)
  {
    WSplit(s, ao, l, h);
    PAdd(l, h);
    AddHighAlgebra(W(s, ao + l, h) , W(s, ao + l, h) + rh * P(h), rh, 0, P(l), P(h));
  }

  /** Once the root of the high part is known, the values of the four parts decide
      the root of the whole. */
  lemma WholeFromParts(a: nat, lo: nat, hi: nat, s1: nat, r1: nat, a1: nat, a0: nat, q: nat, u: nat, s: nat, r: int, l: nat, h: nat)
    requires 1 <= l <= h && a1 < P(l) && a0 < P(l) && P(h) <= 2 * s1
    requires Root(hi, s1, r1) && Plus(a, lo, hi, 2 * l) && Plus(lo, a0, a1, l)
    requires Halves(r1, s1, P(l), a1, q, u)
    requires Plus(s, q, s1, l) && Minus(r, a0, u, l, q)
    ensures Candidate(a, s, r) && q <= P(l)
  {
    assert Ask(0);
    PAdd(l, l);
    PMono(l, h);
    Doubling(P(l), s1, r1, a1, a0, q, u);
  }

  /** mp_sqrtrem_rec: the root of the 2n limbs of taba[], whose top two bits are not
      both zero. The root, of n limbs, goes to tabs[], the remainder to the low n
      limbs of taba[] and the limb returned. */
  method MpSqrtremRec(tabs: array<Limb>, so: nat, taba: array<Limb>, ao: nat, n: nat, tmp: array<Limb>) returns (rh: Limb)
    requires n >= 1 && so + n <= tabs.Length && ao + 2 * n <= taba.Length && n / 2 + 1 <= tmp.Length
    requires tabs != taba && tabs != tmp && taba != tmp
    requires 4 * taba[ao + 2 * n - 1] >= B
    modifies tabs, taba, tmp
    ensures Outside(old(tabs[..]), tabs[..], so, n) && Outside(old(taba[..]), taba[..], ao, 2 * n)
    ensures rh <= 1
    ensures Root(W(old(taba[..]), ao, 2 * n), W(tabs[..], so, n), W(taba[..], ao, n) + rh * P(n))
    decreases n, 1
  {
    if n == 1 {
      rh := MpSqrtrem2(tabs, so, taba, ao);
      return;
    }
    rh := SplitRoot(tabs, so, taba, ao, n / 2, n - n / 2, tmp);
  }

  /** The case of more than two limbs: l low limbs of the root, h high ones. */
  method SplitRoot(tabs: array<Limb>, so: nat, taba: array<Limb>, ao: nat, l: nat, h: nat, tmp: array<Limb>) returns (rh: Limb)
    requires 1 <= l <= h && so + (l + h) <= tabs.Length && ao + 2 * (l + h) <= taba.Length
    requires l + 1 <= tmp.Length && h / 2 + 1 <= tmp.Length
    requires tabs != taba && tabs != tmp && taba != tmp
    requires 4 * taba[ao + 2 * (l + h) - 1] >= B
    modifies tabs, taba, tmp
    ensures Outside(old(tabs[..]), tabs[..], so, l + h) && Outside(old(taba[..]), taba[..], ao, 2 * (l + h))
    ensures rh <= 1
    ensures Root(W(old(taba[..]), ao, 2 * (l + h)), W(tabs[..], so, l + h), W(taba[..], ao, l + h) + rh * P(l + h))
    decreases l + h, 0
  {
    ghost var a := taba[..];
    HighPart(a, ao, l, h);
    var qh := MpSqrtremRec(tabs, so + l, taba, ao + 2 * l, h, tmp);
    assert taba[..][ao..ao + 2 * l] == a[ao..ao + 2 * l];
    rh := FinishRoot(tabs, so, taba, ao, l, h, tmp, qh, W(a, ao + 2 * l, 2 * h));
  }

  lemma HighPart(a: seq<Limb>, ao: nat, l: nat, h: nat)
    requires 1 <= l <= h && ao + 2 * (l + h) <= |a| && 4 * a[ao + 2 * (l + h) - 1] >= B
    ensures W(a, ao, 2 * (l + h)) == W(a, ao, 2 * l) + W(a, ao + 2 * l, 2 * h) * P(2 * l)
    ensures P(2 * h) <= 4 * W(a, ao + 2 * l, 2 * h) && W(a, ao + 2 * l, 2 * h) < P(2 * h)
  {
    assert 2 * (l + h) == 2 * l + 2 * h;
    QuarterValue(a, ao + 2 * l, 2 * h);
    WBound(a, ao + 2 * l, 2 * h);
    WSplit(a, ao, 2 * l, 2 * h);
  }

  /** The part of mp_sqrtrem_rec after the recursive call. */
  method FinishRoot(tabs: array<Limb>, so: nat, taba: array<Limb>, ao: nat, l: nat, h: nat, tmp: array<Limb>, qh0: Limb, ghost hi: nat)
    returns (rh: Limb)
    requires 1 <= l <= h && so + l + h <= tabs.Length && ao + 2 * (l + h) <= taba.Length && l + 1 <= tmp.Length
    requires tabs != taba && tabs != tmp && taba != tmp
    requires qh0 <= 1 && P(2 * h) <= 4 * hi && hi < P(2 * h)
    requires Root(hi, W(tabs[..], so + l, h), W(taba[..], ao + 2 * l, h) + qh0 * P(h))
    modifies tabs, taba, tmp
    ensures Outside(old(tabs[..]), tabs[..], so, l + h) && Outside(old(taba[..]), taba[..], ao, 2 * (l + h))
    ensures rh <= 1
    ensures Root(W(old(taba[..]), ao, 2 * l) + hi * P(2 * l), W(tabs[..], so, l + h), W(taba[..], ao, l + h) + rh * P(l + h))
  {
    ghost var a := W(taba[..], ao, 2 * l) + hi * P(2 * l);
    ghost var r1 := W(taba[..], ao + 2 * l, h) + qh0 * P(h);
    var rh0, s, r, wrap := RootCandidate(tabs, so, taba, ao, l, h, tmp, qh0, hi, r1, a);
    WholeFits(ao, l, h, hi, a, old(taba[..]));
    rh := CorrectRoot(tabs, so, taba, ao, l + h, rh0, a, s, r, wrap);
  }

  /** Division, halving and subtraction of the square: the candidate s, stored
      without its wrap, and the residue r it leaves. */
  method RootCandidate(tabs: array<Limb>, so: nat, taba: array<Limb>, ao: nat, l: nat, h: nat, tmp: array<Limb>, qh0: Limb,
                       ghost hi: nat, ghost r1: nat, ghost a: nat)
    returns (rh: int, ghost s: nat, ghost r: int, ghost wrap: nat)
    requires 1 <= l <= h && so + l + h <= tabs.Length && ao + 2 * (l + h) <= taba.Length && l + 1 <= tmp.Length
    requires tabs != taba && tabs != tmp && taba != tmp
    requires qh0 <= 1 && P(2 * h) <= 4 * hi && hi < P(2 * h)
    requires Plus(r1, W(taba[..], ao + 2 * l, h), qh0, h) && Root(hi, W(tabs[..], so + l, h), r1)
    requires Plus(a, W(taba[..], ao, 2 * l), hi, 2 * l)
    modifies tabs, taba, tmp
    ensures Outside(old(tabs[..]), tabs[..], so, l + h) && Outside(old(taba[..]), taba[..], ao, 2 * (l + h))
    ensures Plus(s, W(tabs[..], so, l + h), wrap, l + h) && Plus(r, W(taba[..], ao, l + h), rh, l + h)
    ensures Candidate(a, s, r)
  {
    ghost var t0, s0 := taba[..], tabs[..];
    ghost var s1 := W(s0, so + l, h);
    RootNormalized(s0, so + l, h, hi, r1);
    NormalizedValue(s0, so + l, h);
    var qh, rh0, q, u := RootDivision(tabs, so, taba, ao, l, h, tmp, qh0, r1);
    ghost var t1 := taba[..];
    s, r := CandidateValue(t0, t1, ao, l, h, s1, r1, hi, a, q, u, rh0);
    assert tabs[..][so + l..so + l + h] == s0[so + l..so + l + h];
    rh, wrap := SubtractSquare(tabs, so, taba, ao, l, h, qh, rh0, q, s, r);
  }

  /** What the parts computed so far say about the candidate s1 * B^l + q. */
  lemma CandidateValue(t0: seq<Limb>, t1: seq<Limb>, ao: nat, l: nat, h: nat, s1: nat, r1: nat, hi: nat, a: nat, q: nat, u: nat, rh: Limb)
    returns (s: nat, r: int)
    requires 1 <= l <= h && ao + 2 * (l + h) <= |t0| == |t1|
    requires Outside(t0, t1, ao + l, l + h) && P(h) <= 2 * s1
    requires Root(hi, s1, r1) && Plus(a, W(t0, ao, 2 * l), hi, 2 * l)
    requires Halves(r1, s1, P(l), W(t0, ao + l, l), q, u)
    requires Plus(u, W(t1, ao + l, h), rh, h)
    ensures Plus(s, q, s1, l) && Minus(r, W(t1, ao, l + h), rh, l + h, q)
    ensures q <= P(l) && Candidate(a, s, r)
  {
    s, r := MakeCandidate(q, s1, l, W(t1, ao, l + h), rh, l + h);
    LowPart(t0, ao, l);
    ResidueWindow(t0, t1, ao, l, h, rh, u, q, r);
    WholeFromParts(a, W(t0, ao, 2 * l), hi, s1, r1, W(t0, ao + l, l), W(t0, ao, l), q, u, s, r, l, h);
  }

  lemma MakeCandidate(q: nat, s1: nat, l: nat, w: nat, rh: int, n: nat) returns (s: nat, r: int)
    ensures Plus(s, q, s1, l) && Minus(r, w, rh, n, q)
  {
    s, r := q + s1 * P(l), w + rh * P(n) - q * q;
  }

  /** x == w + k * B^n and x == w + k * B^n - q^2, behind Ask. */
  ghost predicate Plus(x: int, w: int, k: int, n: nat)
  {
    forall t :: Ask(t) ==> x == w + k * P(n)
  }

  ghost predicate Minus(x: int, w: int, k: int, n: nat, q: int)
  {
    forall t :: Ask(t) ==> x == w + k * P(n) - q * q
  }

  lemma LowPart(t: seq<Limb>, ao: nat, l: nat)
    requires ao + 2 * l <= |t|
    ensures Plus(W(t, ao, 2 * l), W(t, ao, l), W(t, ao + l, l), l)
    ensures W(t, ao, l) < P(l) && W(t, ao + l, l) < P(l)
  {
    WBound(t, ao, l);
    WBound(t, ao + l, l);
    WSplit(t, ao, l, l);
    assert l + l == 2 * l;
  }

  lemma ResidueWindow(t0: seq<Limb>, t1: seq<Limb>, ao: nat, l: nat, h: nat, rh: Limb, u: nat, q: nat, r: int)
    requires ao + (l + h) <= |t0| == |t1| && Outside(t0, t1, ao + l, l + h)
    requires Plus(u, W(t1, ao + l, h), rh, h) && Minus(r, W(t1, ao, l + h), rh, l + h, q)
    ensures Minus(r, W(t0, ao, l), u, l, q)
  {
    assert Ask(0);
    assert t1[ao..ao + l] == t0[ao..ao + l];
    RemainderWindow(t1, ao, l, h, rh);
  }

  method RootDivision(tabs: array<Limb>, so: nat, taba: array<Limb>, ao: nat, l: nat, h: nat, tmp: array<Limb>, qh0: Limb, ghost r1: nat)
    returns (qh: Limb, rh: Limb, ghost q: nat, ghost u: nat)
    requires 1 <= l <= h && so + l + h <= tabs.Length && ao + 2 * (l + h) <= taba.Length && l + 1 <= tmp.Length
    requires tabs != taba && tabs != tmp && taba != tmp
    requires qh0 <= 1 && Normalized(tabs[..], so + l, h)
    requires Plus(r1, W(taba[..], ao + 2 * l, h), qh0, h) && r1 <= 2 * W(tabs[..], so + l, h)
    modifies tabs, taba, tmp
    ensures Outside(old(tabs[..]), tabs[..], so, l) && Outside(old(taba[..]), taba[..], ao + l, l + h)
    ensures qh <= 1 && rh <= 1
    ensures Plus(q, W(tabs[..], so, l), qh, l) && Plus(u, W(taba[..], ao + l, h), rh, h)
    ensures Halves(r1, W(old(tabs[..]), so + l, h), P(l), W(old(taba[..]), ao + l, l), q, u)
  {
    ghost var t0, s0 := taba[..], tabs[..];
    var high, qq := DivideByRoot(tabs, so + l, taba, ao + l, l, h, tmp, qh0, r1);
    ghost var uu := W(taba[..], ao + l, h);
    ghost var odd;
    qh, rh, q, u, odd := HalveQuotient(tabs, so, taba, ao + l, l, h, tmp, high, qq);
    assert tabs[..][so + l..so + l + h] == s0[so + l..so + l + h];
    HalvesFromQuotient(r1, W(s0, so + l, h), P(l), W(t0, ao + l, l), qq, uu, q, u, odd);
  }

  lemma WholeFits(ao: nat, l: nat, h: nat, hi: nat, a: nat, t0: seq<Limb>)
    requires ao + 2 * l <= |t0| && hi < P(2 * h) && a == W(t0, ao, 2 * l) + hi * P(2 * l)
    ensures a < P(2 * (l + h))
  {
    WBound(t0, ao, 2 * l);
    PAdd(2 * h, 2 * l);
    MulMono(hi, P(2 * h) - 1, P(2 * l));
    Distrib(P(2 * h), 1, P(2 * l));
    assert 2 * h + 2 * l == 2 * (l + h);
  }

  /** mp_sqrtrem: a = s^2 + r with 0 <= r <= 2s, for every length. */
  method MpSqrtrem(tabs: array<Limb>, taba: array<Limb>, n: nat) returns (rh: Limb)
    requires n >= 1 && n <= tabs.Length && 2 * n <= taba.Length && tabs != taba
    requires 4 * taba[2 * n - 1] >= B
    modifies tabs, taba
    ensures Outside(old(tabs[..]), tabs[..], 0, n) && Outside(old(taba[..]), taba[..], 0, 2 * n)
    ensures rh <= 1
    ensures IsRoot(W(old(taba[..]), 0, 2 * n), W(tabs[..], 0, n), W(taba[..], 0, n) + rh * P(n))
  {
    var tmp := new Limb[n / 2 + 1](_ => 0);
    rh := MpSqrtremRec(tabs, 0, taba, 0, n, tmp);
    assert Ask(0);
  }
}
