/** rqsort (cutils.c, 504-629): a three-way quicksort with its own stack, which falls
    back to heap sort when it gets too deep and leaves small parts to insertion sort. */
module HybridSort {
  import opened Hints
  import opened SortOrder
  import opened SortParts

  // ---------------------------------------------------------------------- the partition

  /** Where x stands relative to the pivot p: below, equal, above. */
  function Side<T>(cmp: (T, T) -> int, p: T, x: T): int
  {
    if cmp(p, x) > 0 then -1 else if cmp(p, x) == 0 then 0 else 1
  }

  ghost predicate Zone<T>(cmp: (T, T) -> int, p: T, s: seq<T>, lo: int, hi: int, side: int)
  {
    forall k :: 0 <= k < |s| && lo <= k < hi ==> Side(cmp, p, s[k]) == side
  }

  /** The four zones while the partition runs: equal, below, not yet seen, above, equal. */
  ghost predicate Zones<T>(cmp: (T, T) -> int, p: T, s: seq<T>, lo: int, lt: int, i: int, j: int, gt: int, hi: int)
  {
    0 <= lo < lt <= i <= j <= gt <= hi <= |s| && s[lo] == p &&
    Zone(cmp, p, s, lo, lt, 0) && Zone(cmp, p, s, lt, i, -1) && Zone(cmp, p, s, j, gt, 1) && Zone(cmp, p, s, gt, hi, 0)
  }

  /** med3: the position of an element between the other two. */
  method Med3<T(!new)>(a: array<T>, x: nat, y: nat, z: nat, cmp: (T, T) -> int) returns (m: nat)
    requires Comparison(cmp) && x < a.Length && y < a.Length && z < a.Length
    ensures m == x || m == y || m == z
    ensures (Le(cmp, a[x], a[m]) || Le(cmp, a[y], a[m])) && (Le(cmp, a[y], a[m]) || Le(cmp, a[z], a[m])) && (Le(cmp, a[x], a[m]) || Le(cmp, a[z], a[m]))
    ensures (Le(cmp, a[m], a[x]) || Le(cmp, a[m], a[y])) && (Le(cmp, a[m], a[y]) || Le(cmp, a[m], a[z])) && (Le(cmp, a[m], a[x]) || Le(cmp, a[m], a[z]))
  {
    m := if cmp(a[x], a[y]) < 0 then
           (if cmp(a[y], a[z]) < 0 then y else if cmp(a[x], a[z]) < 0 then z else x)
         else
           (if cmp(a[y], a[z]) > 0 then y else if cmp(a[x], a[z]) < 0 then x else z);
    CompareFlip(cmp, a[x], a[y]);
    CompareFlip(cmp, a[y], a[z]);
    CompareFlip(cmp, a[x], a[z]);
    CompareSame(cmp, a[x]);
    CompareSame(cmp, a[y]);
    CompareSame(cmp, a[z]);
  }

  lemma GrowEqual<T>(cmp: (T, T) -> int, p: T, s: seq<T>, lo: int, lt: int, i: int, j: int, gt: int, hi: int)
    requires Zones(cmp, p, s, lo, lt, i, j, gt, hi) && i < j && Side(cmp, p, s[i]) == 0
    ensures Zones(cmp, p, Swapped(s, lt, i), lo, lt + 1, i + 1, j, gt, hi)
  {}

  lemma GrowBelow<T>(cmp: (T, T) -> int, p: T, s: seq<T>, lo: int, lt: int, i: int, j: int, gt: int, hi: int)
    requires Zones(cmp, p, s, lo, lt, i, j, gt, hi) && i < j && Side(cmp, p, s[i]) == -1
    ensures Zones(cmp, p, s, lo, lt, i + 1, j, gt, hi)
  {}

  lemma GrowEqualRight<T>(cmp: (T, T) -> int, p: T, s: seq<T>, lo: int, lt: int, i: int, j: int, gt: int, hi: int)
    requires Zones(cmp, p, s, lo, lt, i, j, gt, hi) && i < j && Side(cmp, p, s[j - 1]) == 0
    ensures Zones(cmp, p, Swapped(s, gt - 1, j - 1), lo, lt, i, j - 1, gt - 1, hi)
  {}

  lemma GrowAbove<T>(cmp: (T, T) -> int, p: T, s: seq<T>, lo: int, lt: int, i: int, j: int, gt: int, hi: int)
    requires Zones(cmp, p, s, lo, lt, i, j, gt, hi) && i < j && Side(cmp, p, s[j - 1]) == 1
    ensures Zones(cmp, p, s, lo, lt, i, j - 1, gt, hi)
  {}

  lemma GrowBoth<T>(cmp: (T, T) -> int, p: T, s: seq<T>, lo: int, lt: int, i: int, j: int, gt: int, hi: int)
    requires Zones(cmp, p, s, lo, lt, i, j, gt, hi) && i + 1 < j && Side(cmp, p, s[i]) == 1 && Side(cmp, p, s[j - 1]) == -1
    ensures Zones(cmp, p, Swapped(s, i, j - 1), lo, lt, i + 1, j - 1, gt, hi)
  {}

  /** The first inner loop: forward over elements not above the pivot. */
  method ScanUp<T(!new)>(a: array<T>, cmp: (T, T) -> int, ghost p: T, lo: nat, lt0: nat, i0: nat, j: nat, ghost gt: nat, hi: nat) returns (lt: nat, i: nat)
    requires hi <= a.Length && Zones(cmp, p, a[..], lo, lt0, i0, j, gt, hi)
    modifies a
    ensures i0 <= i && Zones(cmp, p, a[..], lo, lt, i, j, gt, hi)
    ensures i < j ==> Side(cmp, p, a[i]) == 1
    ensures Shuffled(old(a[..]), a[..], lo, hi)
  {
    ghost var s := a[..];
    ShuffledSame(s, lo, hi);
    lt, i := lt0, i0;
    while i < j && cmp(a[lo], a[i]) >= 0
      invariant i0 <= i && Zones(cmp, p, a[..], lo, lt, i, j, gt, hi)
      invariant Shuffled(s, a[..], lo, hi)
    {
      ghost var t := a[..];
      if cmp(a[lo], a[i]) == 0 {
        GrowEqual(cmp, p, t, lo, lt, i, j, gt, hi);
        Swap(a, lt, i, lo, hi);
        ShuffledTrans(s, t, a[..], lo, hi);
        lt := lt + 1;
      } else {
        GrowBelow(cmp, p, t, lo, lt, i, j, gt, hi);
      }
      i := i + 1;
    }
  }

  /** The second inner loop: backward over elements not below the pivot; j is the end of
      what is not yet seen. */
  method ScanDown<T(!new)>(a: array<T>, cmp: (T, T) -> int, ghost p: T, lo: nat, ghost lt: nat, i: nat, j0: nat, gt0: nat, hi: nat) returns (j: nat, gt: nat)
    requires hi <= a.Length && Zones(cmp, p, a[..], lo, lt, i, j0, gt0, hi) && i < j0 && Side(cmp, p, a[i]) == 1
    modifies a
    ensures i < j <= j0 && Zones(cmp, p, a[..], lo, lt, i, j, gt, hi)
    ensures a[i] == old(a[i]) && (i + 1 < j ==> Side(cmp, p, a[j - 1]) == -1)
    ensures Shuffled(old(a[..]), a[..], lo, hi)
  {
    ghost var s := a[..];
    ShuffledSame(s, lo, hi);
    j, gt := j0, gt0;
    while i < j - 1 && cmp(a[lo], a[j - 1]) <= 0
      invariant i < j <= j0 && Zones(cmp, p, a[..], lo, lt, i, j, gt, hi) && a[i] == s[i]
      invariant Shuffled(s, a[..], lo, hi)
    {
      ghost var t := a[..];
      if cmp(a[lo], a[j - 1]) == 0 {
        GrowEqualRight(cmp, p, t, lo, lt, i, j, gt, hi);
        gt := gt - 1;
        Swap(a, gt, j - 1, lo, hi);
        ShuffledTrans(s, t, a[..], lo, hi);
      } else {
        GrowAbove(cmp, p, t, lo, lt, i, j, gt, hi);
      }
      j := j - 1;
    }
  }

  /** The loop of the partition, up to four zones without anything between them. */
  method FourZones<T(!new)>(a: array<T>, cmp: (T, T) -> int, lo: nat, hi: nat) returns (lt: nat, i: nat, gt: nat)
    requires Comparison(cmp) && lo < hi <= a.Length
    modifies a
    ensures Zones(cmp, old(a[lo]), a[..], lo, lt, i, i, gt, hi)
    ensures Shuffled(old(a[..]), a[..], lo, hi)
  {
    ghost var s, p := a[..], a[lo];
    CompareSame(cmp, p);
    ShuffledSame(s, lo, hi);
    lt, i, gt := lo + 1, lo + 1, hi;
    var j := hi;
    while true
      invariant Zones(cmp, p, a[..], lo, lt, i, j, gt, hi)
      invariant Shuffled(s, a[..], lo, hi)
      decreases j - i
    {
      ghost var t := a[..];
      lt, i := ScanUp(a, cmp, p, lo, lt, i, j, gt, hi);
      ShuffledTrans(s, t, a[..], lo, hi);
      if i >= j { break; }
      ghost var u := a[..];
      j, gt := ScanDown(a, cmp, p, lo, lt, i, j, gt, hi);
      ShuffledTrans(s, u, a[..], lo, hi);
      ghost var v := a[..];
      if i + 1 >= j {
        GrowAbove(cmp, p, v, lo, lt, i, j, gt, hi);
        break;
      }
      GrowBoth(cmp, p, v, lo, lt, i, j, gt, hi);
      Swap(a, i, j - 1, lo, hi);
      ShuffledTrans(s, v, a[..], lo, hi);
      i, j := i + 1, j - 1;
    }
  }

  /** Where an element comes from when two blocks are exchanged. */
  function Origin(x: int, y: int, n: int, k: int): int
  {
    if x <= k < x + n then y + k - x else if y <= k < y + n then x + k - y else k
  }

  /** t is s with two blocks of n elements exchanged. */
  ghost predicate Exchanged<T>(s: seq<T>, t: seq<T>, x: int, y: int, n: int)
  {
    0 <= x && 0 <= n && x + n <= y && y + n <= |s| == |t| &&
    forall k {:trigger t[k]} :: 0 <= k < |s| ==> t[k] == s[Origin(x, y, n, k)]
  }

  lemma ExchangeStep<T>(s: seq<T>, t: seq<T>, u: seq<T>, x: int, y: int, n: int)
    requires Exchanged(s, t, x, y, n) && x + n + 1 <= y && y + n + 1 <= |s| && u == Swapped(t, x + n, y + n)
    ensures Exchanged(s, u, x, y, n + 1)
  {
    forall k | 0 <= k < |s| ensures u[k] == s[Origin(x, y, n + 1, k)] {
      var k1 := if k == x + n then y + n else if k == y + n then x + n else k;
      assert u[k] == t[k1];
    }
  }

  method SwapBlock<T(!new)>(a: array<T>, x: nat, y: nat, n: nat, ghost lo: nat, ghost hi: nat)
    requires lo <= x && x + n <= y && y + n <= hi <= a.Length
    modifies a
    ensures Exchanged(old(a[..]), a[..], x, y, n)
    ensures Shuffled(old(a[..]), a[..], lo, hi)
  {
    ghost var s := a[..];
    ShuffledSame(s, lo, hi);
    var k := 0;
    while k < n
      invariant 0 <= k <= n && Exchanged(s, a[..], x, y, k)
      invariant Shuffled(s, a[..], lo, hi)
    {
      ghost var t := a[..];
      Swap(a, x + k, y + k, lo, hi);
      ShuffledTrans(s, t, a[..], lo, hi);
      ExchangeStep(s, t, a[..], x, y, k);
      k := k + 1;
    }
  }

  /** The equal elements of the left end move to the middle. */
  lemma MoveLeft<T>(cmp: (T, T) -> int, p: T, s: seq<T>, t: seq<T>, lo: int, lt: int, i: int, gt: int, hi: int, span: int)
    requires Zones(cmp, p, s, lo, lt, i, i, gt, hi) && span == (if lt - lo <= i - lt then lt - lo else i - lt)
    requires Exchanged(s, t, lo, i - span, span)
    ensures Zone(cmp, p, t, lo, lo + i - lt, -1) && Zone(cmp, p, t, lo + i - lt, i, 0)
    ensures Zone(cmp, p, t, i, gt, 1) && Zone(cmp, p, t, gt, hi, 0)
  {
    forall k | lo <= k < hi ensures t[k] == s[Origin(lo, i - span, span, k)] {}
  }

  lemma MoveRight<T>(cmp: (T, T) -> int, p: T, s: seq<T>, t: seq<T>, lo: int, l: int, i: int, gt: int, hi: int, span: int)
    requires 0 <= lo <= l <= i <= gt <= hi <= |s| && span == (if hi - gt <= gt - i then hi - gt else gt - i)
    requires Zone(cmp, p, s, lo, l, -1) && Zone(cmp, p, s, l, i, 0) && Zone(cmp, p, s, i, gt, 1) && Zone(cmp, p, s, gt, hi, 0)
    requires Exchanged(s, t, i, hi - span, span)
    ensures Zone(cmp, p, t, lo, l, -1) && Zone(cmp, p, t, l, hi - (gt - i), 0) && Zone(cmp, p, t, hi - (gt - i), hi, 1)
  {
    forall k | lo <= k < hi ensures t[k] == s[Origin(i, hi - span, span, k)] {}
  }

  /** Three zones from four: the equal elements of both ends move to the middle. */
  method Gather<T(!new)>(a: array<T>, cmp: (T, T) -> int, ghost p: T, lo: nat, plt: nat, pi: nat, pgt: nat, hi: nat)
    requires hi <= a.Length && Zones(cmp, p, a[..], lo, plt, pi, pi, pgt, hi)
    modifies a
    ensures Zone(cmp, p, a[..], lo, lo + (pi - plt), -1) && Zone(cmp, p, a[..], lo + (pi - plt), hi - (pgt - pi), 0)
    ensures Zone(cmp, p, a[..], hi - (pgt - pi), hi, 1)
    ensures Shuffled(old(a[..]), a[..], lo, hi)
  {
    ghost var u := a[..];
    GatherLeft(a, cmp, p, lo, plt, pi, pgt, hi);
    ghost var v := a[..];
    GatherRight(a, cmp, p, lo, lo + (pi - plt), pi, pgt, hi);
    ShuffledTrans(u, v, a[..], lo, hi);
  }

  method GatherLeft<T(!new)>(a: array<T>, cmp: (T, T) -> int, ghost p: T, lo: nat, plt: nat, pi: nat, ghost pgt: nat, ghost hi: nat)
    requires hi <= a.Length && Zones(cmp, p, a[..], lo, plt, pi, pi, pgt, hi)
    modifies a
    ensures Zone(cmp, p, a[..], lo, lo + (pi - plt), -1) && Zone(cmp, p, a[..], lo + (pi - plt), pi, 0)
    ensures Zone(cmp, p, a[..], pi, pgt, 1) && Zone(cmp, p, a[..], pgt, hi, 0)
    ensures Shuffled(old(a[..]), a[..], lo, hi)
  {
    ghost var u := a[..];
    var span := if plt - lo > pi - plt then pi - plt else plt - lo;
    SwapBlock(a, lo, pi - span, span, lo, hi);
    MoveLeft(cmp, p, u, a[..], lo, plt, pi, pgt, hi, span);
  }

  method GatherRight<T(!new)>(a: array<T>, cmp: (T, T) -> int, ghost p: T, ghost lo: nat, ghost l: nat, pi: nat, pgt: nat, hi: nat)
    requires lo <= l <= pi <= pgt <= hi <= a.Length
    requires Zone(cmp, p, a[..], lo, l, -1) && Zone(cmp, p, a[..], l, pi, 0) && Zone(cmp, p, a[..], pi, pgt, 1) && Zone(cmp, p, a[..], pgt, hi, 0)
    modifies a
    ensures Zone(cmp, p, a[..], lo, l, -1) && Zone(cmp, p, a[..], l, hi - (pgt - pi), 0) && Zone(cmp, p, a[..], hi - (pgt - pi), hi, 1)
    ensures Shuffled(old(a[..]), a[..], lo, hi)
  {
    ghost var v := a[..];
    var span := if hi - pgt > pgt - pi then pgt - pi else hi - pgt;
    SwapBlock(a, pi, hi - span, span, lo, hi);
    MoveRight(cmp, p, v, a[..], lo, l, pi, pgt, hi, span);
  }

  /** The window falls into elements below, equal to and above a pivot; the pivot itself
      is in the middle part. */
  method Partition<T(!new)>(a: array<T>, cmp: (T, T) -> int, lo: nat, n: nat) returns (lt: nat, gt: nat, ghost p: T)
    requires Comparison(cmp) && n > 6 && lo + n <= a.Length
    modifies a
    ensures lt < gt <= n
    ensures Zone(cmp, p, a[..], lo, lo + lt, -1) && Zone(cmp, p, a[..], lo + lt, lo + gt, 0) && Zone(cmp, p, a[..], lo + gt, lo + n, 1)
    ensures Shuffled(old(a[..]), a[..], lo, lo + n)
  {
    ghost var s := a[..];
    var hi := lo + n;
    var m4 := n / 4;
    var m := Med3(a, lo + m4, lo + 2 * m4, lo + 3 * m4, cmp);
    Swap(a, lo, m, lo, hi);
    ghost var t := a[..];
    p := a[lo];
    var plt, pi, pgt := FourZones(a, cmp, lo, hi);
    ghost var u := a[..];
    ShuffledTrans(s, t, u, lo, hi);
    Gather(a, cmp, p, lo, plt, pi, pgt, hi);
    ShuffledTrans(s, u, a[..], lo, hi);
    lt, gt := pi - plt, n - (pgt - pi);
  }

  // --------------------------------------------------------------------- the whole sort

  /** A part of the array that is still to be sorted, and how deep it is. */
  datatype Segment = Segment(base: nat, count: nat, depth: nat)

  ghost predicate Holds(g: Segment, k: int)
  {
    g.base <= k < g.base + g.count
  }

  /** Some segment holds both positions. */
  ghost predicate Together(gs: seq<Segment>, i: int, j: int)
  {
    exists m :: 0 <= m < |gs| && Holds(gs[m], i) && Holds(gs[m], j)
  }

  /** What is left to do lies within the segments. */
  ghost predicate Settled<T>(cmp: (T, T) -> int, s: seq<T>, gs: seq<Segment>)
  {
    forall i, j :: 0 <= i < j < |s| && !Together(gs, i, j) ==> Le(cmp, s[i], s[j])
  }

  ghost predicate Apart(n: nat, gs: seq<Segment>)
  {
    (forall m :: 0 <= m < |gs| ==> gs[m].base + gs[m].count <= n) &&
    (forall l, m, k :: 0 <= l < m < |gs| && Holds(gs[l], k) ==> !Holds(gs[m], k))
  }

  ghost predicate Work<T>(cmp: (T, T) -> int, s: seq<T>, gs: seq<Segment>)
  {
    forall t :: AskFor(Subject.OpenWork, t) ==> Settled(cmp, s, gs) && Apart(|s|, gs)
  }

  /** Rearranging the last segment keeps everything else in order. */
  lemma WorkShuffle<T(!new)>(cmp: (T, T) -> int, s: seq<T>, t: seq<T>, gs: seq<Segment>, g: Segment)
    requires Work(cmp, s, gs + [g]) && Shuffled(s, t, g.base, g.base + g.count)
    ensures Work(cmp, t, gs + [g])
  {
    assert AskFor(Subject.OpenWork, 0);
    var all := gs + [g];
    ShuffledOutside(s, t, g.base, g.base + g.count);
    forall i, j | 0 <= i < j < |t| && !Together(all, i, j) ensures Le(cmp, t[i], t[j]) {
      assert all[|gs|] == g;
      var i1, j1 := i, j;
      if Holds(g, i) { i1 := ShuffledFrom(s, t, g.base, g.base + g.count, i); }
      if Holds(g, j) { j1 := ShuffledFrom(s, t, g.base, g.base + g.count, j); }
      StillApart(|s|, gs, g, i, j, i1, j1);
    }
  }

  lemma StillApart(n: nat, gs: seq<Segment>, g: Segment, i: int, j: int, i1: int, j1: int)
    requires Apart(n, gs + [g]) && !Together(gs + [g], i, j) && !(Holds(g, i) && Holds(g, j))
    requires (if Holds(g, i) then Holds(g, i1) else i1 == i) && (if Holds(g, j) then Holds(g, j1) else j1 == j)
    ensures !Together(gs + [g], i1, j1)
  {
    var all := gs + [g];
    assert all[|gs|] == g;
  }

  /** The last segment is in order. */
  lemma WorkDone<T(!new)>(cmp: (T, T) -> int, s: seq<T>, gs: seq<Segment>, g: Segment)
    requires Work(cmp, s, gs + [g]) && Sorted(cmp, s, g.base, g.base + g.count)
    ensures Work(cmp, s, gs)
  {
    assert AskFor(Subject.OpenWork, 0);
    var all := gs + [g];
    forall m | 0 <= m < |gs| ensures gs[m] == all[m] {}
    assert all[|gs|] == g;
    forall i, j | 0 <= i < j < |s| && !Together(gs, i, j) ensures Le(cmp, s[i], s[j]) {
      if Together(all, i, j) {
        var m :| 0 <= m < |all| && Holds(all[m], i) && Holds(all[m], j);
      }
    }
  }

  /** Elements on different sides of the pivot, or equal to it, are in order. */
  lemma SidesOrdered<T(!new)>(cmp: (T, T) -> int, p: T, x: T, y: T)
    requires Comparison(cmp) && Side(cmp, p, x) <= Side(cmp, p, y) && (Side(cmp, p, x) < Side(cmp, p, y) || Side(cmp, p, x) == 0)
    ensures Le(cmp, x, y)
  {
    CompareFlip(cmp, p, x);
    LeTrans(cmp, x, p, y);
  }

  lemma ApartSplit(n: nat, gs: seq<Segment>, g: Segment, g1: Segment, g2: Segment)
    requires Apart(n, gs + [g]) && g.base <= g1.base && g1.base + g1.count <= g.base + g.count
    requires g.base <= g2.base && g2.base + g2.count <= g.base + g.count
    requires g1.base + g1.count <= g2.base || g2.base + g2.count <= g1.base
    ensures Apart(n, gs + [g1, g2])
  {
    var all, next := gs + [g], gs + [g1, g2];
    assert all[|gs|] == g && next[|gs|] == g1 && next[|gs| + 1] == g2;
    forall l, m, k | 0 <= l < m < |next| && Holds(next[l], k) ensures !Holds(next[m], k) {
      if l < |gs| {
        assert all[l] == next[l];
        assert !Holds(all[if m < |gs| then m else |gs|], k);
      }
    }
    forall m | 0 <= m < |next| ensures next[m].base + next[m].count <= n {
      assert all[if m < |gs| then m else |gs|].base + all[if m < |gs| then m else |gs|].count <= n;
    }
  }

  /** After a partition the parts below and above remain. */
  lemma WorkSplit<T(!new)>(cmp: (T, T) -> int, s: seq<T>, gs: seq<Segment>, g: Segment, p: T, g1: Segment, g2: Segment, lt: nat, gt: nat)
    requires Comparison(cmp) && Work(cmp, s, gs + [g]) && lt < gt <= g.count
    requires Zone(cmp, p, s, g.base, g.base + lt, -1) && Zone(cmp, p, s, g.base + lt, g.base + gt, 0) && Zone(cmp, p, s, g.base + gt, g.base + g.count, 1)
    requires (g1.base == g.base && g1.count == lt && g2.base == g.base + gt && g2.count == g.count - gt) ||
             (g2.base == g.base && g2.count == lt && g1.base == g.base + gt && g1.count == g.count - gt)
    ensures Work(cmp, s, gs + [g1, g2])
  {
    assert AskFor(Subject.OpenWork, 0);
    ApartSplit(|s|, gs, g, g1, g2);
    var all, next := gs + [g], gs + [g1, g2];
    assert all[|gs|] == g && next[|gs|] == g1 && next[|gs| + 1] == g2;
    forall m | 0 <= m < |gs| ensures next[m] == all[m] {}
    forall i, j | 0 <= i < j < |s| && !Together(next, i, j) ensures Le(cmp, s[i], s[j]) {
      if Together(all, i, j) {
        var m :| 0 <= m < |all| && Holds(all[m], i) && Holds(all[m], j);
        SidesOrdered(cmp, p, s[i], s[j]);
      }
    }
  }

  /** A measure of the segments; a partition makes it smaller. */
  ghost function Weight(gs: seq<Segment>): nat
  {
    if gs == [] then 0 else Weight(gs[..|gs| - 1]) + 2 * gs[|gs| - 1].count + 1
  }

  lemma WeightPush(gs: seq<Segment>, g: Segment)
    ensures Weight(gs + [g]) == Weight(gs) + 2 * g.count + 1
  {
    assert (gs + [g])[..|gs|] == gs;
  }

  const STACK_SIZE := 50

  /** The depths on the stack are strictly increasing and at most 50. */
  ghost predicate Depths(gs: seq<Segment>, depth: nat)
  {
    |gs| <= depth <= STACK_SIZE &&
    (forall m :: 0 <= m < |gs| ==> m <= gs[m].depth <= depth) &&
    (forall l, m :: 0 <= l < m < |gs| ==> gs[l].depth < gs[m].depth)
  }

  lemma DepthsPush(gs: seq<Segment>, depth: nat, g: Segment)
    requires Depths(gs, depth) && g.depth == depth + 1 <= STACK_SIZE
    ensures |gs| < STACK_SIZE && Depths(gs + [g], depth + 1)
  {}

  /** One partition: the larger part goes onto the stack, the smaller one is next. */
  method Step<T(!new)>(a: array<T>, cmp: (T, T) -> int, stack: array<Segment>, sp: nat, g: Segment) returns (rest: Segment)
    requires Comparison(cmp) && stack.Length == STACK_SIZE && a as object != stack as object
    requires 6 < g.count && g.base + g.count <= a.Length && sp < STACK_SIZE
    requires Work(cmp, a[..], stack[..sp] + [g])
    modifies a, stack
    ensures stack[..sp] == old(stack[..sp]) && stack[sp].depth == rest.depth == g.depth
    ensures rest.base + rest.count <= a.Length && rest.count + stack[sp].count < g.count && rest.count <= stack[sp].count
    ensures Work(cmp, a[..], (stack[..sp] + [stack[sp]]) + [rest])
    ensures Shuffled(old(a[..]), a[..], 0, a.Length)
  {
    ghost var t, gs := a[..], stack[..sp];
    var lt, gt;
    ghost var p;
    lt, gt, p := Partition(a, cmp, g.base, g.count);
    WorkShuffle(cmp, t, a[..], gs, g);
    var pushed, next := Segment(g.base, lt, g.depth), Segment(g.base + gt, g.count - gt, g.depth);
    if lt <= g.count - gt { pushed, next := next, pushed; }
    WorkSplit(cmp, a[..], gs, g, p, pushed, next, lt, gt);
    ShuffledWiden(t, a[..], g.base, g.base + g.count, 0, a.Length);
    stack[sp] := pushed;
    rest := next;
    assert gs + [pushed, rest] == (gs + [pushed]) + [rest];
  }

  /** A segment is put in order and taken off. */
  method Finish<T(!new)>(a: array<T>, cmp: (T, T) -> int, ghost gs: seq<Segment>, g: Segment, heap: bool)
    requires Comparison(cmp) && g.base + g.count <= a.Length && Work(cmp, a[..], gs + [g])
    modifies a
    ensures Work(cmp, a[..], gs) && Shuffled(old(a[..]), a[..], 0, a.Length)
  {
    ghost var t := a[..];
    if heap {
      HeapSort(a, cmp, g.base, g.count);
    } else {
      InsertionSort(a, cmp, g.base, g.count);
    }
    WorkShuffle(cmp, t, a[..], gs, g);
    WorkDone(cmp, a[..], gs, g);
    ShuffledWiden(t, a[..], g.base, g.base + g.count, 0, a.Length);
  }

  /** The body of the outer loop. It leaves smaller segments of higher depth. */
  /** One round: the segment is split, the larger part goes to the stack. */
  method Deepen<T(!new)>(a: array<T>, cmp: (T, T) -> int, stack: array<Segment>, sp: nat, g: Segment) returns (rest: Segment)
    requires Comparison(cmp) && stack.Length == STACK_SIZE && sp <= STACK_SIZE && a as object != stack as object
    requires 6 < g.count && g.base + g.count <= a.Length && g.depth < STACK_SIZE && Depths(stack[..sp], g.depth)
    requires Work(cmp, a[..], stack[..sp] + [g])
    modifies a, stack
    ensures sp + 1 <= STACK_SIZE && Depths(stack[..sp + 1], rest.depth) && rest.base + rest.count <= a.Length && rest.count < g.count
    ensures Work(cmp, a[..], stack[..sp + 1] + [rest]) && Shuffled(old(a[..]), a[..], 0, a.Length)
    ensures Weight(stack[..sp + 1]) + 2 * rest.count <= Weight(old(stack[..sp])) + 2 * g.count
  {
    ghost var gs := stack[..sp];
    var deeper := Segment(g.base, g.count, g.depth + 1);
    WorkRename(cmp, a[..], gs, g, deeper);
    DepthsPush(gs, g.depth, deeper);
    rest := Step(a, cmp, stack, sp, deeper);
    DepthsPush(gs, rest.depth - 1, stack[sp]);
    WeightPush(gs, stack[sp]);
    assert stack[..sp + 1] == gs + [stack[sp]];
  }

  method SortSegment<T(!new)>(a: array<T>, cmp: (T, T) -> int, stack: array<Segment>, sp0: nat, g0: Segment) returns (sp: nat)
    requires Comparison(cmp) && stack.Length == STACK_SIZE && sp0 <= STACK_SIZE && a as object != stack as object
    requires Depths(stack[..sp0], g0.depth)
    requires g0.base + g0.count <= a.Length && Work(cmp, a[..], stack[..sp0] + [g0])
    modifies a, stack
    ensures sp <= STACK_SIZE && Work(cmp, a[..], stack[..sp])
    ensures Depths(stack[..sp], STACK_SIZE)
    ensures Weight(stack[..sp]) <= Weight(old(stack[..sp0])) + 2 * g0.count
    ensures Shuffled(old(a[..]), a[..], 0, a.Length)
  {
    var g := g0;
    sp := sp0;
    ghost var s, w := a[..], Weight(stack[..sp0]) + 2 * g0.count;
    ShuffledSame(s, 0, a.Length);
    var tooDeep := false;
    while g.count > 6 && !tooDeep
      invariant sp <= STACK_SIZE && Depths(stack[..sp], g.depth) && g.base + g.count <= a.Length
      invariant Work(cmp, a[..], stack[..sp] + [g])
      invariant Weight(stack[..sp]) + 2 * g.count <= w
      invariant Shuffled(s, a[..], 0, a.Length)
      decreases g.count, !tooDeep
    {
      if g.depth + 1 > STACK_SIZE {
        tooDeep := true;
      } else {
        ghost var t := a[..];
        g := Deepen(a, cmp, stack, sp, g);
        ShuffledTrans(s, t, a[..], 0, a.Length);
        sp := sp + 1;
      }
    }
    ghost var t := a[..];
    Finish(a, cmp, stack[..sp], g, tooDeep);
    ShuffledTrans(s, t, a[..], 0, a.Length);
  }

  lemma WorkRename<T>(cmp: (T, T) -> int, s: seq<T>, gs: seq<Segment>, g: Segment, h: Segment)
    requires Work(cmp, s, gs + [g]) && h.base == g.base && h.count == g.count
    ensures Work(cmp, s, gs + [h])
  {
    assert AskFor(Subject.OpenWork, 0);
    var x, y := gs + [g], gs + [h];
    forall m | 0 <= m < |x| ensures x[m].base == y[m].base && x[m].count == y[m].count {}
    forall i, j | Together(x, i, j) ensures Together(y, i, j) {
      var m :| 0 <= m < |x| && Holds(x[m], i) && Holds(x[m], j);
      assert Holds(y[m], i) && Holds(y[m], j);
    }
    forall l, m, k | 0 <= l < m < |y| && Holds(y[l], k) ensures !Holds(y[m], k) {
      assert Holds(x[l], k);
    }
  }

  /** rqsort: a sorted permutation, for every comparison that is a total preorder. */
  method Rqsort<T(!new)>(a: array<T>, cmp: (T, T) -> int)
    requires TotalPreorder(cmp)
    modifies a
    ensures forall i, j :: 0 <= i < j < a.Length ==> cmp(a[i], a[j]) <= 0
    ensures multiset(a[..]) == multiset(old(a[..]))
  {
    if a.Length < 2 { return; }
    SortAll(a, cmp);
    SortedMeans(cmp, a[..]);
    ShuffledMeans(old(a[..]), a[..], 0, a.Length);
    assert a[0..a.Length] == a[..] && old(a[0..a.Length]) == old(a[..]);
  }

  lemma SortedMeans<T>(cmp: (T, T) -> int, s: seq<T>)
    requires Sorted(cmp, s, 0, |s|)
    ensures forall i, j :: 0 <= i < j < |s| ==> cmp(s[i], s[j]) <= 0
  {
    forall i, j | 0 <= i < j < |s| ensures cmp(s[i], s[j]) <= 0 { assert Le(cmp, s[i], s[j]); }
  }

  /** The loop over the stack, which holds at most 50 segments. */
  method SortAll<T(!new)>(a: array<T>, cmp: (T, T) -> int)
    requires Comparison(cmp) && a.Length >= 2
    modifies a
    ensures Sorted(cmp, a[..], 0, a.Length)
    ensures Shuffled(old(a[..]), a[..], 0, a.Length)
  {
    ghost var s := a[..];
    ShuffledSame(s, 0, a.Length);
    var stack := new Segment[STACK_SIZE](_ => Segment(0, 0, 0));
    stack[0] := Segment(0, a.Length, 0);
    var sp := 1;
    WorkStart(cmp, s, stack[..sp]);
    while sp > 0
      invariant 0 <= sp <= STACK_SIZE && Depths(stack[..sp], STACK_SIZE)
      invariant Work(cmp, a[..], stack[..sp])
      invariant Shuffled(s, a[..], 0, a.Length)
      decreases Weight(stack[..sp])
    {
      sp := sp - 1;
      var g := stack[sp];
      ghost var t, gs := a[..], stack[..sp];
      assert stack[..sp + 1] == gs + [g];
      WeightPush(gs, g);
      WorkFits(cmp, t, gs, g);
      DepthsPop(gs, g);
      sp := SortSegment(a, cmp, stack, sp, g);
      ShuffledTrans(s, t, a[..], 0, a.Length);
    }
    assert stack[..sp] == [];
    WorkEnd(cmp, a[..]);
  }

  lemma DepthsPop(gs: seq<Segment>, g: Segment)
    requires Depths(gs + [g], STACK_SIZE)
    ensures Depths(gs, g.depth)
  {
    var all := gs + [g];
    assert all[|gs|] == g;
    forall m | 0 <= m < |gs| ensures gs[m] == all[m] {}
  }

  lemma WorkStart<T>(cmp: (T, T) -> int, s: seq<T>, gs: seq<Segment>)
    requires |gs| == 1 && gs[0].base == 0 && gs[0].count == |s|
    ensures Work(cmp, s, gs)
  {}

  lemma WorkFits<T>(cmp: (T, T) -> int, s: seq<T>, gs: seq<Segment>, g: Segment)
    requires Work(cmp, s, gs + [g])
    ensures g.base + g.count <= |s|
  {
    assert AskFor(Subject.OpenWork, 0);
    assert (gs + [g])[|gs|] == g;
  }

  lemma WorkEnd<T>(cmp: (T, T) -> int, s: seq<T>)
    requires Work(cmp, s, [])
    ensures Sorted(cmp, s, 0, |s|)
  {
    assert AskFor(Subject.OpenWork, 0);
  }
}
