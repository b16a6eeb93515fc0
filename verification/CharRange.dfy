/** Character ranges (libunicode.c, 326-431): sorted lists of points, where a point
    switches membership on or off. */
module CharRange {

  const UINT32_MAX := 0xffff_ffff

  datatype Op = Union | Inter | Xor

  predicate Sorted(s: seq<nat>)
  {
    forall i, j :: 0 <= i < j < |s| ==> s[i] <= s[j]
  }

  predicate StrictlySorted(s: seq<nat>)
  {
    forall i, j :: 0 <= i < j < |s| ==> s[i] < s[j]
  }

  /** A canonical range: an even number of strictly increasing points. */
  predicate Canonical(s: seq<nat>)
  {
    |s| % 2 == 0 && StrictlySorted(s)
  }

  /** c lies in one of the intervals [s[2k], s[2k + 1]). */
  ghost predicate Contains(s: seq<nat>, c: nat)
  {
    exists k: nat :: 2 * k + 1 < |s| && s[2 * k] <= c < s[2 * k + 1]
  }

  /** The same as a parity: the last point not above c switches membership on. */
  predicate In(s: seq<nat>, c: nat)
  {
    if |s| == 0 then false
    else if s[|s| - 1] <= c then |s| % 2 == 1
    else In(s[..|s| - 1], c)
  }

  /** The number of points not above c decides. */
  lemma {:induction false} InAt(s: seq<nat>, c: nat, n: nat)
    requires n <= |s|
    requires forall i :: n <= i < |s| ==> s[i] > c
    requires n > 0 ==> s[n - 1] <= c
    ensures In(s, c) <==> n % 2 == 1
  {
    if n < |s| {
      InAt(s[..|s| - 1], c, n);
    }
  }

  /** Some number of points is not above c. */
  lemma {:induction false} Count(s: seq<nat>, c: nat) returns (n: nat)
    requires Sorted(s)
    ensures n <= |s|
    ensures forall i :: 0 <= i < |s| ==> (s[i] <= c <==> i < n)
    ensures In(s, c) <==> n % 2 == 1
  {
    n := 0;
    while n < |s| && s[n] <= c
      invariant n <= |s|
      invariant forall i :: 0 <= i < n ==> s[i] <= c
    {
      n := n + 1;
    }
    InAt(s, c, n);
  }

  lemma InMeansContains(s: seq<nat>, c: nat)
    requires Sorted(s) && |s| % 2 == 0
    ensures In(s, c) <==> Contains(s, c)
  {
    var n := Count(s, c);
    if n % 2 == 1 {
      var k := n / 2;
      assert s[2 * k] <= c < s[2 * k + 1];
    }
    forall k: nat | 2 * k + 1 < |s| && s[2 * k] <= c < s[2 * k + 1]
      ensures n % 2 == 1
    {
      assert 2 * k < n <= 2 * k + 1;
    }
  }

  /** One more interval. */
  lemma Extend(s: seq<nat>, x: nat, y: nat, c: nat)
    requires |s| % 2 == 0 && Sorted(s) && x <= y && (|s| > 0 ==> s[|s| - 1] <= x)
    ensures In(s + [x, y], c) <==> In(s, c) || x <= c < y
  {
    var t := s + [x, y];
    assert t[..|t| - 1] == s + [x] && (s + [x])[..|s|] == s;
    if c >= x { InAt(s, c, |s|); }
  }

  /** From i to j each interval starts where the one before it ends. */
  ghost predicate Chain(s: seq<nat>, i: nat, j: nat)
  {
    forall m: nat :: i <= m < j && m % 2 == 0 ==> Touch(s, m)
  }

  ghost predicate Touch(s: seq<nat>, m: nat)
  {
    m + 2 < |s| && s[m + 1] == s[m + 2]
  }

  lemma Skip(p: seq<nat>, i: nat)
    requires Sorted(p) && i % 2 == 0 && i + 1 < |p| && p[i] == p[i + 1]
    ensures forall c: nat :: In(p[..i + 2], c) <==> In(p[..i], c)
  {
    assert p[..i + 2] == p[..i] + [p[i], p[i + 1]];
    forall c: nat ensures In(p[..i + 2], c) <==> In(p[..i], c) { Extend(p[..i], p[i], p[i + 1], c); }
  }

  lemma {:induction false} Chained(p: seq<nat>, i: nat, j: nat, c: nat)
    requires Sorted(p) && i % 2 == 0 && j % 2 == 0 && i <= j && j + 1 < |p| && Chain(p, i, j)
    ensures In(p[..j + 2], c) <==> In(p[..i], c) || p[i] <= c < p[j + 1]
    decreases j
  {
    assert p[..j + 2] == p[..j] + [p[j], p[j + 1]];
    Extend(p[..j], p[j], p[j + 1], c);
    if i < j {
      Chained(p, i, j - 2, c);
      assert Touch(p, j - 2);
    }
  }

  lemma Written(q: seq<nat>, p: seq<nat>, i: nat, j: nat)
    requires Sorted(p) && i % 2 == 0 && j % 2 == 0 && i <= j && j + 1 < |p| && Chain(p, i, j) && p[i] < p[i + 1]
    requires |q| % 2 == 0 && StrictlySorted(q) && (|q| > 0 ==> q[|q| - 1] < p[i])
    requires forall c: nat :: In(q, c) <==> In(p[..i], c)
    ensures StrictlySorted(q + [p[i], p[j + 1]])
    ensures SameSet(q + [p[i], p[j + 1]], p[..j + 2])
  {
    var t := q + [p[i], p[j + 1]];
    forall c: nat ensures In(t, c) <==> In(p[..j + 2], c) {
      Extend(q, p[i], p[j + 1], c);
      Chained(p, i, j, c);
    }
  }

  ghost predicate SameSet(s: seq<nat>, t: seq<nat>)
  {
    forall c: nat :: In(s, c) <==> In(t, c)
  }

  /** The invariant of cr_compress: the first k points stand for the first i of p. */
  ghost predicate Compressed(s: seq<nat>, p: seq<nat>, i: nat, k: nat)
  {
    && k <= i <= |s| == |p| && i % 2 == 0 && k % 2 == 0 && |p| % 2 == 0
    && s[i..] == p[i..]
    && StrictlySorted(s[..k])
    && (k > 0 && i < |p| ==> s[k - 1] < p[i])
    && SameSet(s[..k], p[..i])
    && (forall x :: x in s[..k] ==> x in p)
  }

  lemma CompressedSkip(s: seq<nat>, p: seq<nat>, i: nat, k: nat)
    requires Sorted(p) && Compressed(s, p, i, k) && i + 1 < |p| && s[i] == s[i + 1]
    ensures Compressed(s, p, i + 2, k)
  {
    assert s[i] == s[i..][0] == p[i] && s[i + 1] == s[i..][1] == p[i + 1];
    assert s[i + 2..] == s[i..][2..] && p[i + 2..] == p[i..][2..];
    Skip(p, i);
  }

  lemma CompressedWrite(s: seq<nat>, t: seq<nat>, p: seq<nat>, i: nat, j: nat, k: nat)
    requires Sorted(p) && Compressed(s, p, i, k) && i + 1 < |p| && s[i] != s[i + 1]
    requires i <= j && j % 2 == 0 && j + 1 < |p| && Chain(s, i, j) && (j + 3 < |p| ==> s[j + 1] != s[j + 2])
    requires t == s[k := s[i]][k + 1 := s[j + 1]]
    ensures Compressed(t, p, j + 2, k + 2)
  {
    forall m | i <= m < |p| ensures s[m] == p[m] { assert s[m] == s[i..][m - i]; }
    assert Chain(p, i, j) by {
      forall m: nat | i <= m < j && m % 2 == 0 ensures Touch(p, m) { assert Touch(s, m); }
    }
    Written(s[..k], p, i, j);
    assert t[..k + 2] == s[..k] + [p[i], p[j + 1]];
    assert t[j + 2..] == p[j + 2..];
  }

  predicate Combine(op: Op, x: bool, y: bool)
  {
    match op
    case Union => x || y
    case Inter => x && y
    case Xor => x != y
  }

  /** The invariant of cr_op: the points of a below ai and of b below bi are done. */
  ghost predicate Merged(r: seq<nat>, a: seq<nat>, b: seq<nat>, ai: nat, bi: nat, op: Op)
  {
    && MergeShape(r, a, b, ai, bi)
    && (Odd(|r|) <==> Combine(op, Odd(ai), Odd(bi)))
    && (forall c: nat :: Before(a, ai, c) && Before(b, bi, c) ==> (In(r, c) <==> Combine(op, In(a, c), In(b, c))))
  }

  predicate Odd(n: nat) { n % 2 == 1 }

  /** What is done does not exceed what is not. */
  ghost predicate MergeShape(r: seq<nat>, a: seq<nat>, b: seq<nat>, ai: nat, bi: nat)
  {
    && ai <= |a| && bi <= |b| && Sorted(r)
    && (ai > 0 && bi < |b| ==> a[ai - 1] <= b[bi])
    && (bi > 0 && ai < |a| ==> b[bi - 1] <= a[ai])
    && (|r| > 0 && ai < |a| ==> r[|r| - 1] <= a[ai])
    && (|r| > 0 && bi < |b| ==> r[|r| - 1] <= b[bi])
  }

  /** c lies before the points of s that are not done. */
  ghost predicate Before(s: seq<nat>, i: nat, c: nat)
  {
    i < |s| ==> c < s[i]
  }

  lemma MergeStart(a: seq<nat>, b: seq<nat>, op: Op)
    requires Sorted(a) && Sorted(b)
    ensures Merged([], a, b, 0, 0, op)
  {
    forall c: nat | Before(a, 0, c) && Before(b, 0, c) ensures In([], c) <==> Combine(op, In(a, c), In(b, c)) {
      InAt(a, c, 0);
      InAt(b, c, 0);
    }
  }

  /** How far the merge advances: v is the least point not done. */
  ghost predicate Advances(a: seq<nat>, b: seq<nat>, ai: nat, bi: nat, ai1: nat, bi1: nat, v: nat)
  {
    && ai <= ai1 <= ai + 1 && bi <= bi1 <= bi + 1 && ai1 <= |a| && bi1 <= |b| && ai + bi < ai1 + bi1
    && (ai1 > ai ==> v == a[ai]) && (bi1 > bi ==> v == b[bi])
    && (ai < |a| ==> v <= a[ai]) && (bi < |b| ==> v <= b[bi])
  }

  lemma MergeStep(r: seq<nat>, r1: seq<nat>, a: seq<nat>, b: seq<nat>, ai: nat, bi: nat, ai1: nat, bi1: nat, v: nat, op: Op)
    requires Sorted(a) && Sorted(b) && Merged(r, a, b, ai, bi, op) && Advances(a, b, ai, bi, ai1, bi1, v)
    requires r1 == if Combine(op, Odd(ai1), Odd(bi1)) != Odd(|r|) then r + [v] else r
    ensures Merged(r1, a, b, ai1, bi1, op)
  {
    ShapeStep(r, r1, a, b, ai, bi, ai1, bi1, v);
    ParityStep(r, r1, v, Combine(op, Odd(ai1), Odd(bi1)));
    forall c: nat | Before(a, ai1, c) && Before(b, bi1, c)
      ensures In(r1, c) <==> Combine(op, In(a, c), In(b, c))
    {
      MergeAt(r, r1, a, b, ai, bi, ai1, bi1, v, op, c);
    }
  }

  lemma ParityStep(r: seq<nat>, r1: seq<nat>, v: nat, wanted: bool)
    requires r1 == if wanted != Odd(|r|) then r + [v] else r
    ensures Odd(|r1|) <==> wanted
  {}

  lemma MergeAt(r: seq<nat>, r1: seq<nat>, a: seq<nat>, b: seq<nat>, ai: nat, bi: nat, ai1: nat, bi1: nat, v: nat, op: Op, c: nat)
    requires Sorted(a) && Sorted(b) && Merged(r, a, b, ai, bi, op) && Advances(a, b, ai, bi, ai1, bi1, v)
    requires (r1 == r + [v] || r1 == r) && (Odd(|r1|) <==> Combine(op, Odd(ai1), Odd(bi1)))
    requires (ai1 > 0 ==> a[ai1 - 1] <= v) && (bi1 > 0 ==> b[bi1 - 1] <= v) && (|r1| > 0 ==> r1[|r1| - 1] <= v)
    requires Before(a, ai1, c) && Before(b, bi1, c)
    ensures In(r1, c) <==> Combine(op, In(a, c), In(b, c))
  {
    if c >= v {
      Above(r1, a, b, ai1, bi1, v, c);
    } else {
      NotYet(r, r1, v, c);
      assert Before(a, ai, c) && Before(b, bi, c);
    }
  }

  lemma NotYet(r: seq<nat>, r1: seq<nat>, v: nat, c: nat)
    requires (r1 == r + [v] || r1 == r) && c < v
    ensures In(r1, c) <==> In(r, c)
  {
    assert r1[..|r|] == r;
  }

  lemma ShapeStep(r: seq<nat>, r1: seq<nat>, a: seq<nat>, b: seq<nat>, ai: nat, bi: nat, ai1: nat, bi1: nat, v: nat)
    requires Sorted(a) && Sorted(b) && MergeShape(r, a, b, ai, bi) && Advances(a, b, ai, bi, ai1, bi1, v)
    requires r1 == r + [v] || r1 == r
    ensures MergeShape(r1, a, b, ai1, bi1)
    ensures |r1| > 0 ==> r1[|r1| - 1] <= v
    ensures (ai1 > 0 ==> a[ai1 - 1] <= v) && (bi1 > 0 ==> b[bi1 - 1] <= v)
  {}

  /** From v up to the next point, membership is the parity of what is done. */
  lemma Above(r1: seq<nat>, a: seq<nat>, b: seq<nat>, ai1: nat, bi1: nat, v: nat, c: nat)
    requires Sorted(a) && Sorted(b) && ai1 <= |a| && bi1 <= |b|
    requires (ai1 > 0 ==> a[ai1 - 1] <= v) && (bi1 > 0 ==> b[bi1 - 1] <= v) && (|r1| > 0 ==> r1[|r1| - 1] <= v)
    requires Before(a, ai1, c) && Before(b, bi1, c) && c >= v
    ensures (In(a, c) <==> Odd(ai1)) && (In(b, c) <==> Odd(bi1)) && (In(r1, c) <==> Odd(|r1|))
  {
    InAt(a, c, ai1);
    InAt(b, c, bi1);
    InAt(r1, c, |r1|);
  }

  lemma MergeEnd(r: seq<nat>, a: seq<nat>, b: seq<nat>, op: Op)
    requires Merged(r, a, b, |a|, |b|, op) && |a| % 2 == 0 && |b| % 2 == 0
    ensures Sorted(r) && |r| % 2 == 0
    ensures forall c: nat :: In(r, c) <==> Combine(op, In(a, c), In(b, c))
  {
    forall c: nat ensures In(r, c) <==> Combine(op, In(a, c), In(b, c)) {
      assert Before(a, |a|, c) && Before(b, |b|, c);
    }
  }

  lemma Complement(p: seq<nat>, c: nat)
    requires Sorted(p) && |p| % 2 == 0 && (|p| > 0 ==> p[|p| - 1] <= UINT32_MAX)
    ensures Sorted([0] + p + [UINT32_MAX])
    ensures In([0] + p + [UINT32_MAX], c) <==> c < UINT32_MAX && !In(p, c)
  {
    var s := [0] + p + [UINT32_MAX];
    var n := Count(p, c);
    if c < UINT32_MAX {
      InAt(s, c, n + 1);
    } else {
      InAt(s, c, |s|);
    }
  }

  /** The point list of a range, updated in place. */
  class Range {
    var points: seq<nat>

    constructor ()
      ensures points == []
    {
      points := [];
    }

    /** cr_compress: merges adjacent intervals and removes empty ones. */
    method Compress()
      requires Sorted(points) && |points| % 2 == 0
      modifies this
      ensures Canonical(points)
      ensures SameSet(points, old(points))
      ensures forall x :: x in points ==> x in old(points)
    {
      ghost var p := points;
      var i, k, len := 0, 0, |points|;
      assert SameSet(points[..k], p[..i]);
      while i + 1 < len
        invariant Compressed(points, p, i, k)
      {
        if points[i] == points[i + 1] {
          CompressedSkip(points, p, i, k);
          i := i + 2;
        } else {
          var j := Adjacent(i);
          ghost var before := points;
          points := points[k := points[i]][k + 1 := points[j + 1]];
          CompressedWrite(before, points, p, i, j, k);
          k := k + 2;
          i := j + 2;
        }
      }
      assert p[..i] == p;
      points := points[..k];
    }

    /** The last of the intervals that continue the one at i. */
    method Adjacent(i: nat) returns (j: nat)
      requires i % 2 == 0 && i + 1 < |points| && |points| % 2 == 0
      ensures i <= j && j % 2 == 0 && j + 1 < |points|
      ensures j + 3 < |points| ==> points[j + 1] != points[j + 2]
      ensures Chain(points, i, j)
    {
      j := i;
      while j + 3 < |points| && points[j + 1] == points[j + 2]
        invariant i <= j && j + 1 < |points| && j % 2 == 0 && Chain(points, i, j)
      {
        j := j + 2;
      }
    }

    /** cr_op: the union, intersection or exclusive or of two ranges. */
    method Merge(a: seq<nat>, b: seq<nat>, op: Op)
      requires points == []
      requires Sorted(a) && Sorted(b) && |a| % 2 == 0 && |b| % 2 == 0
      modifies this
      ensures Canonical(points)
      ensures op.Union? ==> forall c: nat :: In(points, c) <==> In(a, c) || In(b, c)
      ensures op.Inter? ==> forall c: nat :: In(points, c) <==> In(a, c) && In(b, c)
      ensures op.Xor? ==> forall c: nat :: In(points, c) <==> (In(a, c) != In(b, c))
    {
      var ai, bi := 0, 0;
      MergeStart(a, b, op);
      while true
        invariant Merged(points, a, b, ai, bi, op)
        decreases |a| - ai + |b| - bi
      {
        ghost var ai0, bi0, r := ai, bi, points;
        var v: nat;
        if ai < |a| && bi < |b| {
          if a[ai] < b[bi] {
            v, ai := a[ai], ai + 1;
          } else if a[ai] == b[bi] {
            v, ai, bi := a[ai], ai + 1, bi + 1;
          } else {
            v, bi := b[bi], bi + 1;
          }
        } else if ai < |a| {
          v, ai := a[ai], ai + 1;
        } else if bi < |b| {
          v, bi := b[bi], bi + 1;
        } else {
          break;
        }
        var isIn := Combine(op, Odd(ai), Odd(bi));
        if isIn != Odd(|points|) {
          points := points + [v];
        }
        MergeStep(r, points, a, b, ai0, bi0, ai, bi, v, op);
      }
      MergeEnd(points, a, b, op);
      Compress();
    }

    /** cr_union1 */
    method UnionWith(b: seq<nat>)
      requires Sorted(points) && Sorted(b) && |points| % 2 == 0 && |b| % 2 == 0
      modifies this
      ensures Canonical(points)
      ensures forall c: nat :: In(points, c) <==> In(old(points), c) || In(b, c)
    {
      var a := points;
      points := [];
      Merge(a, b, Union);
    }

    /** cr_invert: the complement below UINT32_MAX. */
    method Invert()
      requires Sorted(points) && |points| % 2 == 0
      requires |points| > 0 ==> points[|points| - 1] <= UINT32_MAX
      modifies this
      ensures Canonical(points)
      ensures forall c: nat :: In(points, c) <==> c < 0xffff_ffff && !In(old(points), c)
    {
      ghost var p := points;
      points := [0] + points + [UINT32_MAX];
      forall c: nat ensures In(points, c) <==> c < UINT32_MAX && !In(p, c) {
        Complement(p, c);
      }
      Compress();
    }
  }

  // ------------------------------------------------- ranges in the bytecode

  /** The operand of a range instruction: inclusive intervals with 16-bit or 32-bit
      bounds, or a character that never occurs. In 16-bit intervals, 0xffff as the
      last bound means no bound. */
  datatype RangeCode = Never | Range16(pairs: seq<(nat, nat)>) | Range32(pairs: seq<(nat, nat)>)

  /** x - 1; every upper point is positive. */
  function Pred(x: nat): nat
  {
    if x == 0 then 0 else x - 1
  }

  function HighBound(x: nat): nat
  {
    if x == UINT32_MAX then 0xffff else Pred(x)
  }

  /** What the loops of re_emit_range write. */
  function Bounds16(s: seq<nat>, n: nat): (r: seq<(nat, nat)>)
    requires 2 * n <= |s|
    ensures |r| == n
    ensures forall k :: 0 <= k < n ==> r[k] == (s[2 * k], HighBound(s[2 * k + 1]))
  {
    if n == 0 then [] else Bounds16(s, n - 1) + [(s[2 * n - 2], HighBound(s[2 * n - 1]))]
  }

  function Bounds32(s: seq<nat>, n: nat): (r: seq<(nat, nat)>)
    requires 2 * n <= |s|
    ensures |r| == n
    ensures forall k :: 0 <= k < n ==> r[k] == (s[2 * k], Pred(s[2 * k + 1]))
  {
    if n == 0 then [] else Bounds32(s, n - 1) + [(s[2 * n - 2], Pred(s[2 * n - 1]))]
  }

  predicate Fits16(s: seq<nat>)
    requires |s| >= 2
  {
    var last := s[|s| - 1];
    (if last == UINT32_MAX then s[|s| - 2] else last) <= 0xffff
  }

  function RangeOf(s: seq<nat>): RangeCode
    requires Canonical(s)
  {
    if |s| == 0 then Never
    else if Fits16(s) then Range16(Bounds16(s, |s| / 2))
    else Range32(Bounds32(s, |s| / 2))
  }

  /** re_emit_range; None when there are too many intervals. */
  method EmitRange(s: seq<nat>) returns (ok: bool, code: RangeCode)
    requires Canonical(s)
    ensures ok <==> |s| / 2 < 65535
    ensures ok ==> code == RangeOf(s)
  {
    var len := |s| / 2;
    if len >= 65535 { return false, Never; }
    if len == 0 { return true, Never; }
    var high := s[|s| - 1];
    if high == UINT32_MAX { high := s[|s| - 2]; }
    if high <= 0xffff {
      var pairs := Emit16(s);
      return true, Range16(pairs);
    }
    var pairs := Emit32(s);
    return true, Range32(pairs);
  }

  method Emit16(s: seq<nat>) returns (pairs: seq<(nat, nat)>)
    requires Canonical(s)
    ensures pairs == Bounds16(s, |s| / 2)
  {
    pairs := [];
    var i := 0;
    while i < |s|
      invariant 0 <= i <= |s| && i % 2 == 0 && pairs == Bounds16(s, i / 2)
    {
      assert s[i] < s[i + 1];
      var h := s[i + 1] - 1;
      if h == UINT32_MAX - 1 { h := 0xffff; }
      pairs := pairs + [(s[i], h)];
      i := i + 2;
    }
  }

  method Emit32(s: seq<nat>) returns (pairs: seq<(nat, nat)>)
    requires Canonical(s)
    ensures pairs == Bounds32(s, |s| / 2)
  {
    pairs := [];
    var i := 0;
    while i < |s|
      invariant 0 <= i <= |s| && i % 2 == 0 && pairs == Bounds32(s, i / 2)
    {
      assert s[i] < s[i + 1];
      pairs := pairs + [(s[i], s[i + 1] - 1)];
      i := i + 2;
    }
  }

  /** c lies in one of the inclusive intervals. */
  predicate Hit(pairs: seq<(nat, nat)>, c: nat)
  {
    exists k :: 0 <= k < |pairs| && pairs[k].0 <= c <= pairs[k].1
  }

  ghost predicate Ordered(pairs: seq<(nat, nat)>)
  {
    (forall k :: 0 <= k < |pairs| ==> pairs[k].0 <= pairs[k].1)
    && (forall j, k :: 0 <= j < k < |pairs| ==> pairs[j].1 < pairs[k].0)
  }

  /** What REOP_range and REOP_range32 accept. */
  predicate Accepts(code: RangeCode, c: nat)
  {
    match code
    case Never => false
    case Range16(pairs) => Hit(pairs, c) || (|pairs| > 0 && pairs[|pairs| - 1].1 == 0xffff && c >= 0xffff)
    case Range32(pairs) => Hit(pairs, c)
  }

  /** The binary search of the matcher. */
  method Search(pairs: seq<(nat, nat)>, c: nat) returns (found: bool)
    requires |pairs| >= 1 && Ordered(pairs)
    ensures found <==> Hit(pairs, c)
  {
    if c < pairs[0].0 { return false; }
    if c > pairs[|pairs| - 1].1 { return false; }
    var lo, hi := 0, |pairs| - 1;
    while lo <= hi
      invariant 0 <= lo <= hi + 1 <= |pairs|
      invariant forall k :: 0 <= k < |pairs| && (k < lo || k > hi) ==> !(pairs[k].0 <= c <= pairs[k].1)
    {
      var idx := (lo + hi) / 2;
      if c < pairs[idx].0 {
        assert idx > 0;
        hi := idx - 1;
      } else if c > pairs[idx].1 {
        lo := idx + 1;
      } else {
        return true;
      }
    }
    found := false;
  }

  /** The range test of the matcher, for both operand sizes. */
  method Test(code: RangeCode, c: nat) returns (found: bool)
    requires !code.Never? ==> |code.pairs| >= 1 && Ordered(code.pairs)
    ensures found <==> Accepts(code, c)
  {
    match code
    case Never => found := false;
    case Range16(pairs) =>
      if c < pairs[0].0 { return false; }
      if c >= 0xffff && pairs[|pairs| - 1].1 == 0xffff { return true; }
      found := Search(pairs, c);
    case Range32(pairs) =>
      found := Search(pairs, c);
  }

  lemma Ordered16(s: seq<nat>)
    requires Canonical(s) && |s| >= 2 && Fits16(s)
    ensures Ordered(Bounds16(s, |s| / 2))
  {
    var r := Bounds16(s, |s| / 2);
    forall j, k | 0 <= j < k < |r| ensures r[j].1 < r[k].0 {
      assert s[2 * j + 1] < s[2 * k];
    }
  }

  lemma Ordered32(s: seq<nat>)
    requires Canonical(s)
    ensures Ordered(Bounds32(s, |s| / 2))
  {}

  /** Emitted by the compiler and searched by the matcher, a range accepts exactly its
      characters. */
  method EmitThenTest(s: seq<nat>, c: nat) returns (ok: bool, found: bool)
    requires Canonical(s) && c < 0xffff_ffff
    ensures ok <==> |s| / 2 < 65535
    ensures ok ==> (found <==> In(s, c))
  {
    var code;
    ok, code := EmitRange(s);
    found := false;
    if ok {
      if |s| >= 2 && Fits16(s) { Ordered16(s); } else { Ordered32(s); }
      found := Test(code, c);
      EmittedRange(s, c);
    }
  }

  /** Compiled and tested, a range accepts exactly its characters. */
  lemma EmittedRange(s: seq<nat>, c: nat)
    requires Canonical(s) && c < 0xffff_ffff
    ensures Accepts(RangeOf(s), c) <==> In(s, c)
  {
    InMeansContains(s, c);
    if |s| == 0 {
    } else if Fits16(s) {
      Emitted16(s, c);
    } else {
      var r := Bounds32(s, |s| / 2);
      forall k: nat | 2 * k + 1 < |s| && s[2 * k] <= c < s[2 * k + 1] ensures Hit(r, c) {
        assert r[k].0 <= c <= r[k].1;
      }
      forall k | 0 <= k < |r| && r[k].0 <= c <= r[k].1 ensures Contains(s, c) {
        assert s[2 * k] <= c < s[2 * k + 1];
      }
    }
  }

  lemma Emitted16(s: seq<nat>, c: nat)
    requires Canonical(s) && |s| >= 2 && Fits16(s) && c < UINT32_MAX
    ensures Accepts(Range16(Bounds16(s, |s| / 2)), c) <==> Contains(s, c)
  {
    if Contains(s, c) {
      var k: nat :| 2 * k + 1 < |s| && s[2 * k] <= c < s[2 * k + 1];
      Kept16(s, c, k);
    }
    if Accepts(Range16(Bounds16(s, |s| / 2)), c) {
      Nothing16(s, c);
    }
  }

  lemma Kept16(s: seq<nat>, c: nat, k: nat)
    requires Canonical(s) && |s| >= 2 && Fits16(s) && c < UINT32_MAX
    requires 2 * k + 1 < |s| && s[2 * k] <= c < s[2 * k + 1]
    ensures Accepts(Range16(Bounds16(s, |s| / 2)), c)
  {
    var r := Bounds16(s, |s| / 2);
    assert r[k] == (s[2 * k], HighBound(s[2 * k + 1]));
    if s[2 * k + 1] == UINT32_MAX && c >= 0xffff {
      assert 2 * k + 1 == |s| - 1;
    } else {
      assert r[k].0 <= c <= r[k].1;
    }
  }

  lemma Nothing16(s: seq<nat>, c: nat)
    requires Canonical(s) && |s| >= 2 && Fits16(s) && c < UINT32_MAX
    requires Accepts(Range16(Bounds16(s, |s| / 2)), c)
    ensures Contains(s, c)
  {
    var r := Bounds16(s, |s| / 2);
    if Hit(r, c) {
      var k :| 0 <= k < |r| && r[k].0 <= c <= r[k].1;
      assert s[2 * k] <= c < s[2 * k + 1];
    } else {
      var n := |r| - 1;
      assert r[n] == (s[2 * n], HighBound(s[2 * n + 1]));
      assert s[2 * n] <= c < s[2 * n + 1];
    }
  }
}
