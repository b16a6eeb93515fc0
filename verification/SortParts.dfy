/** The parts of the hybrid sort: insertion sort, heap sort, and the three-way
    partition (cutils.c, 470-502, 551-599, 623-627). */
module SortParts {
  import opened Hints
  import opened SortOrder

  // ------------------------------------------------------------------ insertion sort

  /** All of the window is in order but for what stands before j. */
  ghost predicate Gap<T>(cmp: (T, T) -> int, s: seq<T>, lo: nat, hi: nat, j: nat)
  {
    forall x, y :: lo <= x < y < hi <= |s| && y != j ==> Le(cmp, s[x], s[y])
  }

  lemma GapStep<T(!new)>(cmp: (T, T) -> int, s: seq<T>, lo: nat, hi: nat, j: nat)
    requires Comparison(cmp) && lo < j < hi <= |s| && Gap(cmp, s, lo, hi, j) && cmp(s[j - 1], s[j]) > 0
    ensures Gap(cmp, Swapped(s, j, j - 1), lo, hi, j - 1)
  {
    var t := Swapped(s, j, j - 1);
    CompareFlip(cmp, s[j - 1], s[j]);
    forall x, y | lo <= x < y < hi && y != j - 1 ensures Le(cmp, t[x], t[y]) {
      var x1 := if x == j then j - 1 else if x == j - 1 then j else x;
      var y1 := if y == j then j - 1 else y;
      assert t[x] == s[x1] && t[y] == s[y1];
    }
  }

  lemma GapEnd<T(!new)>(cmp: (T, T) -> int, s: seq<T>, lo: nat, hi: nat, j: nat)
    requires Comparison(cmp) && lo <= j < hi <= |s| && Gap(cmp, s, lo, hi, j) && (j > lo ==> Le(cmp, s[j - 1], s[j]))
    ensures Sorted(cmp, s, lo, hi)
  {
    forall x, y | lo <= x < y < hi ensures Le(cmp, s[x], s[y]) {
      if y == j && x < j - 1 {
        LeTrans(cmp, s[x], s[j - 1], s[j]);
      }
    }
  }

  method InsertionSort<T(!new)>(a: array<T>, cmp: (T, T) -> int, lo: nat, n: nat)
    requires Comparison(cmp) && lo + n <= a.Length
    modifies a
    ensures Sorted(cmp, a[..], lo, lo + n)
    ensures Shuffled(old(a[..]), a[..], lo, lo + n)
  {
    ghost var s := a[..];
    ShuffledSame(s, lo, lo + n);
    var i := lo + 1;
    while i < lo + n
      invariant lo < i && (i <= lo + n || n == 0) && Sorted(cmp, a[..], lo, i)
      invariant Shuffled(s, a[..], lo, lo + n)
    {
      var j := i;
      while j > lo && cmp(a[j - 1], a[j]) > 0
        invariant lo <= j <= i && Gap(cmp, a[..], lo, i + 1, j)
        invariant Shuffled(s, a[..], lo, lo + n)
      {
        ghost var t := a[..];
        GapStep(cmp, t, lo, i + 1, j);
        Swap(a, j, j - 1, lo, lo + n);
        ShuffledTrans(s, t, a[..], lo, lo + n);
        j := j - 1;
      }
      GapEnd(cmp, a[..], lo, i + 1, j);
      i := i + 1;
    }
  }

  // ------------------------------------------------------------------------ heap sort

  function Parent(c: nat): (p: nat)
    requires c >= 1
    ensures p < c
  {
    (c - 1) / 2
  }

  /** Node c of the heap that starts at lo is not above its parent. */
  ghost predicate Down<T>(cmp: (T, T) -> int, s: seq<T>, lo: nat, c: nat)
    requires c >= 1 && lo + c < |s|
  {
    Le(cmp, s[lo + c], s[lo + Parent(c)])
  }

  /** A heap of n nodes from node k on. */
  ghost predicate Heap<T>(cmp: (T, T) -> int, s: seq<T>, lo: nat, k: nat, n: nat)
    requires lo + n <= |s|
  {
    forall t :: AskFor(Subject.Heaps, t) ==> HeapFrom(cmp, s, lo, k, n)
  }

  ghost predicate HeapFrom<T>(cmp: (T, T) -> int, s: seq<T>, lo: nat, k: nat, n: nat)
    requires lo + n <= |s|
  {
    forall c :: 1 <= c < n && Parent(c) >= k ==> Down(cmp, s, lo, c)
  }

  /** The same, but node r may be below its children; they are not above its parent. */
  ghost predicate Sifting<T>(cmp: (T, T) -> int, s: seq<T>, lo: nat, k: nat, n: nat, r: nat)
    requires lo + n <= |s|
  {
    forall t :: AskFor(Subject.Heaps, t) ==> SiftingAt(cmp, s, lo, k, n, r)
  }

  ghost predicate SiftingAt<T>(cmp: (T, T) -> int, s: seq<T>, lo: nat, k: nat, n: nat, r: nat)
    requires lo + n <= |s|
  {
    r >= k &&
    (forall c :: 1 <= c < n && Parent(c) >= k && Parent(c) != r ==> Down(cmp, s, lo, c)) &&
    (r > k && r < n && Parent(r) >= k ==> forall c :: 1 <= c < n && Parent(c) == r ==> Under(cmp, s, lo, c, Parent(r)))
  }

  ghost predicate Under<T>(cmp: (T, T) -> int, s: seq<T>, lo: nat, c: nat, p: nat)
    requires lo + c < |s| && lo + p < |s|
  {
    Le(cmp, s[lo + c], s[lo + p])
  }

  /** c is the larger child of r. */
  ghost predicate Larger<T>(cmp: (T, T) -> int, s: seq<T>, lo: nat, n: nat, r: nat, c: nat)
    requires lo + n <= |s|
  {
    1 <= c < n && Parent(c) == r && forall t :: AskFor(Subject.Heaps, t) ==> LargestChild(cmp, s, lo, n, r, c)
  }

  ghost predicate LargestChild<T>(cmp: (T, T) -> int, s: seq<T>, lo: nat, n: nat, r: nat, c: nat)
    requires lo + n <= |s| && c < n
  {
    forall d :: 1 <= d < n && Parent(d) == r ==> Under(cmp, s, lo, d, c)
  }

  lemma SiftStep<T(!new)>(cmp: (T, T) -> int, s: seq<T>, lo: nat, k: nat, n: nat, r: nat, c: nat)
    requires Comparison(cmp) && lo + n <= |s| && r < n && Sifting(cmp, s, lo, k, n, r) && Larger(cmp, s, lo, n, r, c)
    requires Le(cmp, s[lo + r], s[lo + c])
    ensures Sifting(cmp, Swapped(s, lo + r, lo + c), lo, k, n, c)
  {
    assert AskFor(Subject.Heaps, 0);
    var t := Swapped(s, lo + r, lo + c);
    forall d | 1 <= d < n && Parent(d) >= k && Parent(d) != c ensures Down(cmp, t, lo, d) {
      SiftOther(cmp, s, lo, k, n, r, c, d);
    }
    forall d | 1 <= d < n && Parent(d) == c ensures Under(cmp, t, lo, d, r) {
      assert Down(cmp, s, lo, d);
    }
  }

  lemma SiftOther<T(!new)>(cmp: (T, T) -> int, s: seq<T>, lo: nat, k: nat, n: nat, r: nat, c: nat, d: nat)
    requires Comparison(cmp) && lo + n <= |s| && r < n && Sifting(cmp, s, lo, k, n, r) && Larger(cmp, s, lo, n, r, c)
    requires Le(cmp, s[lo + r], s[lo + c]) && 1 <= d < n && Parent(d) >= k && Parent(d) != c
    ensures Down(cmp, Swapped(s, lo + r, lo + c), lo, d)
  {
    assert AskFor(Subject.Heaps, 0);
    var t := Swapped(s, lo + r, lo + c);
    if d == c {
      assert t[lo + d] == s[lo + r] && t[lo + r] == s[lo + c];
    } else if d == r {
      assert t[lo + d] == s[lo + c];
      assert Under(cmp, s, lo, c, Parent(r));
    } else if Parent(d) == r {
      assert Under(cmp, s, lo, d, c);
    } else {
      assert Down(cmp, s, lo, d);
    }
  }

  lemma SiftEnd<T(!new)>(cmp: (T, T) -> int, s: seq<T>, lo: nat, k: nat, n: nat, r: nat, c: nat)
    requires Comparison(cmp) && lo + n <= |s| && Sifting(cmp, s, lo, k, n, r)
    requires 2 * r + 1 >= n || (r < n && Larger(cmp, s, lo, n, r, c) && !Le(cmp, s[lo + r], s[lo + c]))
    ensures Heap(cmp, s, lo, k, n)
  {
    assert AskFor(Subject.Heaps, 0);
    forall d | 1 <= d < n && Parent(d) >= k ensures Down(cmp, s, lo, d) {
      if Parent(d) == r {
        LeTotal(cmp, s[lo + r], s[lo + c]);
        assert Under(cmp, s, lo, d, c);
        LeTrans(cmp, s[lo + d], s[lo + c], s[lo + r]);
      }
    }
  }

  lemma ChildIsLarger<T(!new)>(cmp: (T, T) -> int, s: seq<T>, lo: nat, n: nat, r: nat, c: nat)
    requires Comparison(cmp) && lo + n <= |s| && 2 * r + 1 < n
    requires c == if 2 * r + 2 < n && Le(cmp, s[lo + 2 * r + 1], s[lo + 2 * r + 2]) then 2 * r + 2 else 2 * r + 1
    ensures Larger(cmp, s, lo, n, r, c)
  {
    assert AskFor(Subject.Heaps, 0);
    forall d | 1 <= d < n && Parent(d) == r ensures Under(cmp, s, lo, d, c) {
      assert d == 2 * r + 1 || d == 2 * r + 2;
      CompareSame(cmp, s[lo + d]);
      if c == 2 * r + 1 && d == 2 * r + 2 {
        LeTotal(cmp, s[lo + 2 * r + 1], s[lo + 2 * r + 2]);
      }
    }
  }

  lemma SiftStart<T>(cmp: (T, T) -> int, s: seq<T>, lo: nat, k: nat, n: nat)
    requires lo + n <= |s| && Heap(cmp, s, lo, k + 1, n)
    ensures Sifting(cmp, s, lo, k, n, k)
  {
    assert AskFor(Subject.Heaps, 0);
  }

  /** The inner loop of heapsortx. */
  method Sift<T(!new)>(a: array<T>, cmp: (T, T) -> int, lo: nat, k: nat, n: nat)
    requires Comparison(cmp) && k < n && lo + n <= a.Length && Heap(cmp, a[..], lo, k + 1, n)
    modifies a
    ensures Heap(cmp, a[..], lo, k, n)
    ensures Shuffled(old(a[..]), a[..], lo, lo + n)
  {
    ghost var s := a[..];
    ShuffledSame(s, lo, lo + n);
    SiftStart(cmp, s, lo, k, n);
    var r := k;
    var c := 2 * r + 1;
    while c < n
      invariant k <= r < n && c == 2 * r + 1 && Sifting(cmp, a[..], lo, k, n, r)
      invariant Shuffled(s, a[..], lo, lo + n)
      decreases n - r
    {
      if c + 1 < n && cmp(a[lo + c], a[lo + c + 1]) <= 0 { c := c + 1; }
      ghost var t := a[..];
      ChildIsLarger(cmp, t, lo, n, r, c);
      if cmp(a[lo + r], a[lo + c]) > 0 {
        SiftEnd(cmp, t, lo, k, n, r, c);
        return;
      }
      SiftStep(cmp, t, lo, k, n, r, c);
      Swap(a, lo + r, lo + c, lo, lo + n);
      ShuffledTrans(s, t, a[..], lo, lo + n);
      r := c;
      c := 2 * r + 1;
    }
    SiftEnd(cmp, a[..], lo, k, n, r, r);
  }

  /** The root of a heap is its largest element. */
  lemma {:induction false} RootLargest<T(!new)>(cmp: (T, T) -> int, s: seq<T>, lo: nat, n: nat, c: nat)
    requires Comparison(cmp) && lo + n <= |s| && c < n && Heap(cmp, s, lo, 0, n)
    ensures Le(cmp, s[lo + c], s[lo])
    decreases c
  {
    assert AskFor(Subject.Heaps, 0);
    if c == 0 {
      CompareSame(cmp, s[lo]);
    } else {
      RootLargest(cmp, s, lo, n, Parent(c));
      assert Down(cmp, s, lo, c);
      LeTrans(cmp, s[lo + c], s[lo + Parent(c)], s[lo]);
    }
  }

  /** The elements from m to hi are in order and not below those from lo to m. */
  ghost predicate TailDone<T>(cmp: (T, T) -> int, s: seq<T>, lo: nat, m: nat, hi: nat)
  {
    lo <= m <= hi <= |s| && forall x, y :: lo <= x < y < hi && m <= y ==> Le(cmp, s[x], s[y])
  }

  /** The root changes places with the last node, which is then done. */
  lemma TailGrows<T(!new)>(cmp: (T, T) -> int, s: seq<T>, lo: nat, m: nat, hi: nat)
    requires Comparison(cmp) && lo < m && TailDone(cmp, s, lo, m, hi) && Heap(cmp, s, lo, 0, m - lo)
    ensures TailDone(cmp, Swapped(s, lo, m - 1), lo, m - 1, hi)
  {
    var t := Swapped(s, lo, m - 1);
    forall x, y | lo <= x < y < hi && m - 1 <= y ensures Le(cmp, t[x], t[y]) {
      var x1 := if x == lo then m - 1 else if x == m - 1 then lo else x;
      if y == m - 1 {
        RootLargest(cmp, s, lo, m - lo, x1 - lo);
      }
    }
  }

  lemma TailKept<T(!new)>(cmp: (T, T) -> int, s: seq<T>, t: seq<T>, lo: nat, m: nat, hi: nat)
    requires TailDone(cmp, s, lo, m, hi) && Shuffled(s, t, lo, m)
    ensures TailDone(cmp, t, lo, m, hi)
  {
    ShuffledOutside(s, t, lo, m);
    forall x, y | lo <= x < y < hi && m <= y ensures Le(cmp, t[x], t[y]) {
      if x < m {
        var j := ShuffledFrom(s, t, lo, m, x);
      }
    }
  }

  lemma HeapRest<T>(cmp: (T, T) -> int, s: seq<T>, lo: nat, n: nat)
    requires n >= 1 && lo + n <= |s| && Heap(cmp, s, lo, 0, n)
    ensures Heap(cmp, Swapped(s, lo, lo + n - 1), lo, 1, n - 1)
  {
    assert AskFor(Subject.Heaps, 0);
    var t := Swapped(s, lo, lo + n - 1);
    forall c | 1 <= c < n - 1 && Parent(c) >= 1 ensures Down(cmp, t, lo, c) {
      assert Down(cmp, s, lo, c);
    }
  }

  lemma LeavesHeap<T>(cmp: (T, T) -> int, s: seq<T>, lo: nat, n: nat)
    requires lo + n <= |s|
    ensures Heap(cmp, s, lo, n / 2, n)
  {}

  /** heapsortx */
  method HeapSort<T(!new)>(a: array<T>, cmp: (T, T) -> int, lo: nat, n: nat)
    requires Comparison(cmp) && lo + n <= a.Length
    modifies a
    ensures Sorted(cmp, a[..], lo, lo + n)
    ensures Shuffled(old(a[..]), a[..], lo, lo + n)
  {
    ghost var s := a[..];
    ghost var hi := lo + n;
    ShuffledSame(s, lo, hi);
    if n > 1 {
      BuildHeap(a, cmp, lo, n);
      var i := n;
      while i > 1
        invariant 1 <= i <= n && Heap(cmp, a[..], lo, 0, i)
        invariant TailDone(cmp, a[..], lo, lo + i, hi)
        invariant Shuffled(s, a[..], lo, hi)
      {
        i := i - 1;
        ghost var t := a[..];
        TailGrows(cmp, t, lo, lo + i + 1, hi);
        HeapRest(cmp, t, lo, i + 1);
        Swap(a, lo, lo + i, lo, hi);
        ghost var u := a[..];
        ShuffledTrans(s, t, u, lo, hi);
        Sift(a, cmp, lo, 0, i);
        TailKept(cmp, u, a[..], lo, lo + i, hi);
        ShuffledWiden(u, a[..], lo, lo + i, lo, hi);
        ShuffledTrans(s, u, a[..], lo, hi);
      }
    }
  }

  method BuildHeap<T(!new)>(a: array<T>, cmp: (T, T) -> int, lo: nat, n: nat)
    requires Comparison(cmp) && lo + n <= a.Length
    modifies a
    ensures Heap(cmp, a[..], lo, 0, n)
    ensures Shuffled(old(a[..]), a[..], lo, lo + n)
  {
    ghost var s := a[..];
    ShuffledSame(s, lo, lo + n);
    LeavesHeap(cmp, s, lo, n);
    var i := n / 2;
    while i > 0
      invariant 0 <= i <= n / 2 && Heap(cmp, a[..], lo, i, n)
      invariant Shuffled(s, a[..], lo, lo + n)
    {
      i := i - 1;
      ghost var t := a[..];
      Sift(a, cmp, lo, i, n);
      ShuffledTrans(s, t, a[..], lo, lo + n);
    }
  }
}
