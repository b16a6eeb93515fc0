/** What sorting is about (cutils.c, 470-629): the comparison, sorted windows of an
    array, and rearrangements of a window. */
module SortOrder {
  import opened Hints

  /** The comparison decides an order in which any two elements are comparable. */
  ghost predicate TotalPreorder<T(!new)>(cmp: (T, T) -> int)
  {
    (forall x, y :: cmp(x, y) < 0 <==> cmp(y, x) > 0) &&
    (forall x, y, z :: cmp(x, y) <= 0 && cmp(y, z) <= 0 ==> cmp(x, z) <= 0)
  }

  /** TotalPreorder under a name that proofs do not unfold. */
  ghost predicate Comparison<T(!new)>(cmp: (T, T) -> int)
  {
    forall t :: AskFor(Subject.Comparisons, t) ==> TotalPreorder(cmp)
  }

  predicate Le<T>(cmp: (T, T) -> int, x: T, y: T)
  {
    cmp(x, y) <= 0
  }

  lemma CompareFlip<T(!new)>(cmp: (T, T) -> int, x: T, y: T)
    requires Comparison(cmp)
    ensures cmp(x, y) < 0 <==> cmp(y, x) > 0
    ensures cmp(x, y) > 0 <==> cmp(y, x) < 0
    ensures cmp(x, y) == 0 <==> cmp(y, x) == 0
  {
    assert AskFor(Subject.Comparisons, 0);
  }

  lemma CompareSame<T(!new)>(cmp: (T, T) -> int, x: T)
    requires Comparison(cmp)
    ensures cmp(x, x) == 0
  {
    CompareFlip(cmp, x, x);
  }

  lemma LeTrans<T(!new)>(cmp: (T, T) -> int, x: T, y: T, z: T)
    requires Comparison(cmp) && Le(cmp, x, y) && Le(cmp, y, z)
    ensures Le(cmp, x, z)
  {
    assert AskFor(Subject.Comparisons, 0);
  }

  lemma LeTotal<T(!new)>(cmp: (T, T) -> int, x: T, y: T)
    requires Comparison(cmp) && !Le(cmp, x, y)
    ensures Le(cmp, y, x)
  {
    CompareFlip(cmp, x, y);
  }

  // ---------------------------------------------------------------------- windows

  ghost predicate Sorted<T>(cmp: (T, T) -> int, s: seq<T>, lo: nat, hi: nat)
  {
    forall i, j :: lo <= i < j < hi <= |s| ==> Le(cmp, s[i], s[j])
  }

  /** t is s with the elements of the window [lo, hi) in another order. */
  ghost predicate Shuffle<T>(s: seq<T>, t: seq<T>, lo: nat, hi: nat)
  {
    lo <= hi <= |s| == |t| && s[..lo] == t[..lo] && s[hi..] == t[hi..] && multiset(s[lo..hi]) == multiset(t[lo..hi])
  }

  ghost predicate IsShuffled<T>(s: seq<T>, t: seq<T>, lo: nat, hi: nat, b: bool)
  {
    forall u :: AskFor(Subject.Shuffles, u) ==> (b <==> Shuffle(s, t, lo, hi))
  }

  /** Shuffle under a name that stays folded. */
  ghost predicate Shuffled<T>(s: seq<T>, t: seq<T>, lo: nat, hi: nat)
    ensures IsShuffled(s, t, lo, hi, Shuffled(s, t, lo, hi))
  {
    assert IsShuffled(s, t, lo, hi, Shuffle(s, t, lo, hi));
    var b :| IsShuffled(s, t, lo, hi, b);
    b
  }

  lemma ShuffledMeans<T>(s: seq<T>, t: seq<T>, lo: nat, hi: nat)
    ensures Shuffled(s, t, lo, hi) <==> Shuffle(s, t, lo, hi)
  {
    assert AskFor(Subject.Shuffles, 0);
  }

  lemma ShuffledSame<T>(s: seq<T>, lo: nat, hi: nat)
    requires lo <= hi <= |s|
    ensures Shuffled(s, s, lo, hi)
  {
    ShuffledMeans(s, s, lo, hi);
  }

  lemma ShuffledTrans<T>(s: seq<T>, t: seq<T>, u: seq<T>, lo: nat, hi: nat)
    requires Shuffled(s, t, lo, hi) && Shuffled(t, u, lo, hi)
    ensures Shuffled(s, u, lo, hi)
  {
    ShuffledMeans(s, t, lo, hi);
    ShuffledMeans(t, u, lo, hi);
    ShuffledMeans(s, u, lo, hi);
  }

  lemma ShuffledWiden<T>(s: seq<T>, t: seq<T>, lo: nat, hi: nat, lo1: nat, hi1: nat)
    requires Shuffled(s, t, lo, hi) && lo1 <= lo && hi <= hi1 <= |s|
    ensures Shuffled(s, t, lo1, hi1)
  {
    ShuffledMeans(s, t, lo, hi);
    ShuffledMeans(s, t, lo1, hi1);
    assert s[lo1..hi1] == s[lo1..lo] + s[lo..hi] + s[hi..hi1];
    assert t[lo1..hi1] == t[lo1..lo] + t[lo..hi] + t[hi..hi1];
    assert s[lo1..lo] == s[..lo][lo1..] == t[..lo][lo1..] == t[lo1..lo];
    assert s[hi..hi1] == s[hi..][..hi1 - hi] == t[hi..][..hi1 - hi] == t[hi..hi1];
    assert s[..lo1] == s[..lo][..lo1] == t[..lo1];
    assert s[hi1..] == s[hi..][hi1 - hi..] == t[hi1..];
  }

  /** Outside the window nothing changes. */
  lemma ShuffledOutside<T>(s: seq<T>, t: seq<T>, lo: nat, hi: nat)
    requires Shuffled(s, t, lo, hi)
    ensures lo <= hi <= |s| == |t|
    ensures forall k :: 0 <= k < lo || hi <= k < |s| ==> s[k] == t[k]
  {
    ShuffledMeans(s, t, lo, hi);
    forall k | 0 <= k < lo || hi <= k < |s| ensures s[k] == t[k] {
      if k < lo {
        assert s[k] == s[..lo][k] == t[..lo][k];
      } else {
        assert s[k] == s[hi..][k - hi] == t[hi..][k - hi];
      }
    }
  }

  /** Every element of the window was in the window before. */
  lemma ShuffledFrom<T>(s: seq<T>, t: seq<T>, lo: nat, hi: nat, k: nat) returns (j: nat)
    requires Shuffled(s, t, lo, hi) && lo <= k < hi
    ensures hi <= |s| == |t| && lo <= j < hi && t[k] == s[j]
  {
    ShuffledMeans(s, t, lo, hi);
    assert t[k] == t[lo..hi][k - lo];
    assert t[k] in multiset(s[lo..hi]);
    var i :| 0 <= i < hi - lo && s[lo..hi][i] == t[k];
    j := lo + i;
  }

  ghost function Swapped<T>(s: seq<T>, i: nat, j: nat): (t: seq<T>)
    requires i < |s| && j < |s|
  {
    s[i := s[j]][j := s[i]]
  }

  lemma SwappedShuffles<T>(s: seq<T>, i: nat, j: nat, lo: nat, hi: nat)
    requires lo <= i < hi <= |s| && lo <= j < hi
    ensures Shuffled(s, Swapped(s, i, j), lo, hi)
  {
    var t := Swapped(s, i, j);
    ShuffledMeans(s, t, lo, hi);
    var v, w := s[lo..hi], t[lo..hi];
    assert w == v[i - lo := v[j - lo]][j - lo := v[i - lo]];
    MultisetSwap(v, i - lo, j - lo);
  }

  lemma MultisetSwap<T>(v: seq<T>, i: nat, j: nat)
    requires i < |v| && j < |v|
    ensures multiset(v[i := v[j]][j := v[i]]) == multiset(v)
  {}

  /** Two elements of an array change places. */
  method Swap<T>(a: array<T>, i: nat, j: nat, ghost lo: nat, ghost hi: nat)
    requires lo <= i < hi <= a.Length && lo <= j < hi
    modifies a
    ensures a[..] == Swapped(old(a[..]), i, j)
    ensures Shuffled(old(a[..]), a[..], lo, hi)
  {
    ghost var s := a[..];
    a[i], a[j] := a[j], a[i];
    assert a[..] == Swapped(s, i, j);
    SwappedShuffles(s, i, j, lo, hi);
  }
}
