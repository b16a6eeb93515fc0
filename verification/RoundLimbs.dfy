/** The steps of rounding on a row of limbs (libbf.c, 391-446, 512-588). */
module RoundLimbs {
  import opened Arith
  import opened Limbs
  import opened LimbOps
  import opened Bits
  import opened LimbBits
  import opened RoundSpec

  /** bf_get_rnd_add for l limbs of which prec bits are kept; prec may be negative. */
  method GetRndAdd(tab: array<Limb>, l: nat, neg: bool, prec: int, mode: Mode) returns (add: bool, inexact: bool)
    requires 1 <= l <= tab.Length
    ensures Decision(mode, neg, W(tab[..], 0, l), l * LB() - prec, add, inexact)
  {
    ghost var n, q := W(tab[..], 0, l), l * LB() - prec;
    var bits := l * LB();
    var bit0 := true;
    if mode != RndF {
      bit0 := ScanBitNz(tab, l, bits - 1 - (if prec + 1 > 0 then prec + 1 else 0));
    }
    var bit1 := GetBit(tab, l, bits - 1 - prec);
    inexact := bit1 || bit0;
    WBound(tab[..], 0, l);
    TLimbs(l);
    if mode != RndF { StickyScan(n, l * LB(), prec); }
    if q > 0 { DroppedBits(n, q); }
    add := false;
    match mode
    case RndZ =>
    case RndN =>
      if bit1 {
        if bit0 {
          add := true;
        } else {
          add := GetBit(tab, l, bits - 1 - (prec - 1));
        }
      }
    case RndD => if neg { add := inexact; }
    case RndU => if !neg { add := inexact; }
    case RndA => add := inexact;
    case RndNA => add := bit1;
    case RndF => add := bit1;
  }

  /** Where the scan starts makes no difference when all bits are dropped. */
  lemma StickyScan(n: nat, bits: nat, prec: int)
    requires n < T(bits)
    ensures var q := bits - prec;
            var pos := bits - 1 - (if prec + 1 > 0 then prec + 1 else 0);
            (q > 0 && Sticky(n, q)) == (pos >= 0 && n % T(pos + 1) != 0)
  {
    var q := bits - prec;
    if prec + 1 > 0 {
      TZero();
    } else {
      TMono(bits, q - 1);
      DivModUnique(n, T(bits), 0, n);
      DivModUnique(n, T(q - 1), 0, n);
    }
  }

  // ------------------------------------------------------------------- adding one unit

  /** One is added at bit shift of the limbs from pos on; if that overflows, everything is
      shifted right by one bit. */
  method AddUnit(tab: array<Limb>, pos: nat, l: nat, shift: nat) returns (carry: bool)
    requires pos < l <= tab.Length && shift < LB()
    modifies tab
    ensures Outside(old(tab[..]), tab[..], pos, l - pos)
    ensures var x, w := W(old(tab[..]), pos, l - pos), W(tab[..], pos, l - pos);
            if carry then x + T(shift) >= P(l - pos) && w == (x + T(shift)) / 2 else w == x + T(shift)
  {
    TLimb();
    TStrict(shift, LB());
    ghost var s := tab[..];
    var k := MpAddUi(tab, pos, T(shift), l - pos);
    carry := k != 0;
    if carry {
      ghost var t := tab[..];
      var out := MpShr1(tab, pos, l - pos, 1);
      OutsideTwice(s, t, tab[..], pos, l - pos);
    }
  }

  lemma OutsideTwice(s: seq<Limb>, t: seq<Limb>, u: seq<Limb>, lo: nat, n: nat)
    requires Outside(s, t, lo, n) && Outside(t, u, lo, n)
    ensures Outside(s, u, lo, n)
  {}

  /** The bits below shift in the limbs from pos on are cleared. */
  method ClearLow(tab: array<Limb>, pos: nat, l: nat, shift: nat)
    requires pos < l <= tab.Length && shift < LB()
    modifies tab
    ensures W(tab[..], pos, l - pos) == W(old(tab[..]), pos, l - pos) / T(shift) * T(shift)
    ensures Outside(old(tab[..]), tab[..], pos, 1)
  {
    ghost var s := tab[..];
    ghost var x := tab[pos];
    DivMod(x, T(shift));
    tab[pos] := tab[pos] - tab[pos] % T(shift);
    WCons(s, pos, l - pos);
    WCons(tab[..], pos, l - pos);
    assert s[pos + 1..l] == tab[..][pos + 1..l];
    assert s[pos + 1..pos + 1 + (l - pos - 1)] == s[pos + 1..l];
    ClearAlgebra(x, W(s, pos + 1, l - pos - 1), shift);
  }

  lemma ClearAlgebra(x: nat, y: nat, shift: nat)
    requires shift < LB() && x < B
    ensures (x + y * B) / T(shift) * T(shift) == x - x % T(shift) + y * B
  {
    PZero();
    CutLimb(0, 0, x, y, shift);
    TLimb();
    TAdd(LB() - shift, shift);
    var t, u := T(shift), T(LB() - shift);
    DivMod(x, t);
    Distrib(x / t, y * u, t);
    MulAssoc(y, u, t);
  }

  /** What is left is the rounded number: kept bits plus one, or a single leading bit. */
  lemma UnitAdded(x: nat, n: nat, shift: nat, carry: bool, w: nat)
    requires x < P(n) && 2 * T(shift) <= P(n) && P(n) % (2 * T(shift)) == 0
    requires if carry then x + T(shift) >= P(n) && w == (x + T(shift)) / 2 else w == x + T(shift)
    ensures var m := x / T(shift) + 1;
            if carry then m * T(shift) == P(n) && w / T(shift) * T(shift) * 2 == P(n) else w / T(shift) == m
    ensures !carry && w < P(n) ==> (x / T(shift) + 1) * T(shift) <= w
  {
    var t := T(shift);
    var m := x / t + 1;
    DivMod(x, t);
    Distrib(x / t, 1, t);
    if carry {
      var h := P(n) / (2 * t);
      DivMod(P(n), 2 * t);
      CarryOnly(x, t, h);
    } else {
      DivModUnique(w, t, m, x % t);
    }
  }

  lemma CarryOnly(x: nat, t: nat, h: nat)
    requires t >= 1 && x < h * (2 * t) <= x + t
    ensures (x / t + 1) * t == h * (2 * t) && (x + t) / 2 / t * t * 2 == h * (2 * t)
  {
    var r := x + t - h * (2 * t);
    MulAssoc(h, 2, t);
    MulComm(h, 2);
    MulAssoc(2, h, t);
    Distrib(2 * h, 1, t);
    DivModUnique(x, t, 2 * h - 1, r);
    var w := (x + t) / 2;
    assert w == h * t + r / 2;
    DivModUnique(w, t, h, r / 2);
  }
}
