/**
 Quicksort with a depth limit: Sort.
 */
module SortQuick {
  import opened SortOrder
  import opened SortData
  import opened SortCost
  import opened SortHeap
  import opened SortPivot
  import SortStable

  /** The elements of a0..a and of b..b0 are in their final places around a..b. */
  ghost predicate Around<T>(rank: T -> int, s: seq<T>, a0: int, a: int, b: int, b0: int)
    requires 0 <= a0 <= a <= b <= b0 <= |s|
  {
    && Sorted(rank, s, a0, a) && AllLe(rank, s, a0, a, a, b0)
    && Sorted(rank, s, b, b0) && AllLe(rank, s, a0, b, b, b0)
  }

  lemma AroundPermuted<T>(rank: T -> int, s: seq<T>, t: seq<T>, a0: int, a: int, b: int, b0: int)
    requires 0 <= a0 <= a <= b <= b0 <= |s|
    requires Around(rank, s, a0, a, b, b0) && Permuted(s, t, a, b)
    ensures Around(rank, t, a0, a, b, b0)
  {
    SortedFrame(rank, s, t, a, b, a0, a);
    SortedFrame(rank, s, t, a, b, b, b0);
    AllLePermuted(rank, s, t, a, b, a0, a, a, b0);
    AllLePermuted(rank, s, t, a, b, a0, b, b, b0);
  }

  lemma AroundStart<T>(rank: T -> int, s: seq<T>, a: int, b: int)
    requires 0 <= a <= b <= |s|
    ensures Around(rank, s, a, a, b, b)
  {
  }

  /** Sorting the part before the pivot leaves the part after it. */
  lemma AroundLeft<T>(rank: T -> int, s: seq<T>, t: seq<T>, a0: int, a: int, mlo: int, mhi: int, b: int, b0: int)
    requires 0 <= a0 <= a <= mlo <= mhi <= b <= b0 <= |s|
    requires Around(rank, s, a0, a, b, b0) && Parted(rank, s, a, mlo, mhi, b)
    requires Permuted(s, t, a, mlo) && Sorted(rank, t, a, mlo)
    ensures Around(rank, t, a0, mhi, b, b0)
  {
    PartedPermuted(rank, s, t, a, mlo, mhi, b, a, mlo);
    PermutedWiden(s, t, a, mlo, a, b);
    AroundPermuted(rank, s, t, a0, a, b, b0);
    SortedJoin(rank, t, a, mlo, mhi);
    SortedJoin(rank, t, a0, a, mhi);
    AllLeSplit(rank, t, a0, a, b, b0, mhi);
  }

  lemma AroundRight<T>(rank: T -> int, s: seq<T>, t: seq<T>, a0: int, a: int, mlo: int, mhi: int, b: int, b0: int)
    requires 0 <= a0 <= a <= mlo <= mhi <= b <= b0 <= |s|
    requires Around(rank, s, a0, a, b, b0) && Parted(rank, s, a, mlo, mhi, b)
    requires Permuted(s, t, mhi, b) && Sorted(rank, t, mhi, b)
    ensures Around(rank, t, a0, a, mlo, b0)
  {
    PartedPermuted(rank, s, t, a, mlo, mhi, b, mhi, b);
    PermutedWiden(s, t, mhi, b, a, b);
    AroundPermuted(rank, s, t, a0, a, b, b0);
    SortedJoin(rank, t, mlo, mhi, b);
    SortedJoin(rank, t, mlo, b, b0);
    AllLeSplit(rank, t, a0, a, b, b0, mlo);
  }

  lemma PartedPermuted<T>(rank: T -> int, s: seq<T>, t: seq<T>, a: int, mlo: int, mhi: int, b: int, p: int, q: int)
    requires 0 <= a <= mlo <= mhi <= b <= |s|
    requires Parted(rank, s, a, mlo, mhi, b)
    requires Permuted(s, t, p, q) && ((p, q) == (a, mlo) || (p, q) == (mhi, b))
    ensures Parted(rank, t, a, mlo, mhi, b)
  {
    AllLePermuted(rank, s, t, p, q, a, mlo, mlo, b);
    AllLePermuted(rank, s, t, p, q, a, mhi, mhi, b);
    AllLePermuted(rank, s, t, p, q, mlo, mhi, mlo, mhi);
  }

  /** A cut inside a..b is a cut of all of a0..b0. */
  lemma AllLeSplit<T>(rank: T -> int, t: seq<T>, a0: int, a: int, b: int, b0: int, m: int)
    requires 0 <= a0 <= a <= m <= b <= b0 <= |t|
    requires Around(rank, t, a0, a, b, b0) && AllLe(rank, t, a, m, m, b)
    ensures AllLe(rank, t, a0, m, m, b0)
  {
  }

  lemma AroundDone<T>(rank: T -> int, s: seq<T>, t: seq<T>, a0: int, a: int, b: int, b0: int)
    requires 0 <= a0 <= a <= b <= b0 <= |s|
    requires Around(rank, s, a0, a, b, b0) && Permuted(s, t, a, b) && Sorted(rank, t, a, b)
    ensures Sorted(rank, t, a0, b0)
  {
    AroundPermuted(rank, s, t, a0, a, b, b0);
    SortedJoin(rank, t, a0, a, b);
    SortedJoin(rank, t, a0, b, b0);
  }

  /** One pass with gap 6, then insertion sort: for at most 12 elements. */
  method SmallSort<T(!new)>(data: Data<T>, a: int, b: int)
    requires data.Valid()
    requires 0 <= a < b <= data.arr.Length && b - a <= 12
    modifies data`calls, data`swaps, data.arr
    ensures data.Valid()
    ensures Permuted(old(data.arr[..]), data.arr[..], a, b)
    ensures data.Ordered() ==> Sorted(data.rank, data.arr[..], a, b)
    ensures data.calls <= old(data.calls) + Triangle(b - a) + (b - a)
    ensures data.swaps <= old(data.swaps) + Triangle(b - a) + (b - a)
  {
    hide *;
    ghost var s := data.arr[..];
    PermutedSame(s, a, b);
    var i := a + 6;
    while i < b
      invariant data.Valid()
      invariant a + 6 <= i
      invariant Permuted(s, data.arr[..], a, b)
      invariant data.calls <= old(data.calls) + (i - a - 6) && data.swaps <= old(data.swaps) + (i - a - 6)
      invariant i <= b || i == a + 6
    {
      ghost var t := data.arr[..];
      var less := data.Less(i, i - 6);
      if less {
        SwappedPermuted(t, i, i - 6, a, b);
        data.Swap(i, i - 6);
        PermutedTransitive(s, t, data.arr[..], a, b);
      }
      i := i + 1;
    }
    ghost var t := data.arr[..];
    SortStable.InsertionSort(data, a, b);
    PermutedTransitive(s, t, data.arr[..], a, b);
  }

  lemma SortedShort<T>(rank: T -> int, s: seq<T>, a: int, b: int)
    requires 0 <= a <= b <= |s| && b - a <= 1
    ensures Sorted(rank, s, a, b)
  {
  }

  lemma PermutedInside<T>(s: seq<T>, t: seq<T>, u: seq<T>, a0: int, a: int, b: int, b0: int)
    requires 0 <= a0 <= a && b <= b0 <= |s|
    requires Permuted(s, t, a0, b0) && Permuted(t, u, a, b)
    ensures Permuted(s, u, a0, b0)
  {
    hide *;
    PermutedSize(s, t, a0, b0);
    PermutedWiden(t, u, a, b, a0, b0);
    PermutedTransitive(s, t, u, a0, b0);
  }

  lemma PermutedSize<T>(s: seq<T>, t: seq<T>, a: int, b: int)
    requires Permuted(s, t, a, b)
    ensures |t| == |s|
  {
  }

  method QuickSort<T(!new)>(data: Data<T>, a0: int, b0: int, maxDepth0: nat, ghost k: nat) returns (ghost depth: nat)
    requires data.Valid()
    requires 0 <= a0 <= b0 <= data.arr.Length && CeilLg(b0 - a0) <= k
    modifies data`calls, data`swaps, data.arr
    ensures data.Valid()
    ensures Permuted(old(data.arr[..]), data.arr[..], a0, b0)
    ensures data.Ordered() ==> Sorted(data.rank, data.arr[..], a0, b0)
    ensures depth <= QuickDepth(b0 - a0)
    ensures data.calls <= old(data.calls) + QuickCost(b0 - a0, maxDepth0, k)
    ensures data.swaps <= old(data.swaps) + QuickCost(b0 - a0, maxDepth0, k)
    decreases b0 - a0
  {
    hide *;
    var a, b, maxDepth := a0, b0, maxDepth0;
    ghost var s := data.arr[..];
    PermutedSame(s, a0, b0);
    AroundStart(data.rank, s, a0, b0);
    depth := 1;
    QuickDepthPositive(b0 - a0);
    while b - a > 12
      invariant data.Valid()
      invariant a0 <= a <= b <= b0
      invariant Permuted(s, data.arr[..], a0, b0)
      invariant data.Ordered() ==> Around(data.rank, data.arr[..], a0, a, b, b0)
      invariant depth <= QuickDepth(b0 - a0)
      invariant data.calls + QuickCost(b - a, maxDepth, k) <= old(data.calls) + QuickCost(b0 - a0, maxDepth0, k)
      invariant data.swaps + QuickCost(b - a, maxDepth, k) <= old(data.swaps) + QuickCost(b0 - a0, maxDepth0, k)
      decreases b - a
    {
      ghost var t := data.arr[..];
      CeilLgMonotone(b - a, b0 - a0);
      if maxDepth == 0 {
        HeapSort(data, a, b);
        PermutedInside(s, t, data.arr[..], a0, a, b, b0);
        if data.Ordered() { AroundDone(data.rank, t, data.arr[..], a0, a, b, b0); }
        QuickCostHeap(b - a, maxDepth, k);
        return;
      }
      maxDepth := maxDepth - 1;
      var mlo, mhi := DoPivot(data, a, b);
      ghost var u := data.arr[..];
      PermutedInside(s, t, u, a0, a, b, b0);
      if data.Ordered() { AroundPermuted(data.rank, t, u, a0, a, b, b0); }
      QuickCostSplit(b - a, mlo - a, b - mhi, maxDepth + 1, k);
      CeilLgMonotone(mlo - a, b0 - a0);
      CeilLgMonotone(b - mhi, b0 - a0);
      ghost var inner;
      if mlo - a < b - mhi {
        QuickDepthHalf(mlo - a, b0 - a0);
        inner := QuickSort(data, a, mlo, maxDepth, k);
        PermutedInside(s, u, data.arr[..], a0, a, mlo, b0);
        if data.Ordered() { AroundLeft(data.rank, u, data.arr[..], a0, a, mlo, mhi, b, b0); }
        a := mhi;
      } else {
        QuickDepthHalf(b - mhi, b0 - a0);
        inner := QuickSort(data, mhi, b, maxDepth, k);
        PermutedInside(s, u, data.arr[..], a0, mhi, b, b0);
        if data.Ordered() { AroundRight(data.rank, u, data.arr[..], a0, a, mlo, mhi, b, b0); }
        b := mlo;
      }
      depth := if depth < 1 + inner then 1 + inner else depth;
    }
    ghost var t := data.arr[..];
    QuickCostSmall(b - a, maxDepth, k);
    if b - a > 1 {
      SmallSort(data, a, b);
      PermutedInside(s, t, data.arr[..], a0, a, b, b0);
    } else {
      PermutedSame(t, a, b);
      SortedShort(data.rank, t, a, b);
    }
    if data.Ordered() { AroundDone(data.rank, t, data.arr[..], a0, a, b, b0); }
  }

  lemma QuickDepthPositive(n: nat)
    ensures 1 <= QuickDepth(n)
  {
  }

  // ---------- The depth limit ----------

  /** Twice the least d with n + 1 <= 2^d. */
  method MaxDepth(n: nat) returns (limit: nat)
    ensures limit == 2 * CeilLg(n + 1)
  {
    var depth := 0;
    var i := n;
    while i > 0
      invariant 0 <= i
      invariant depth + CeilLg(i + 1) == CeilLg(n + 1)
    {
      assert (i + 2) / 2 == i / 2 + 1;
      depth := depth + 1;
      i := i / 2;
    }
    limit := depth * 2;
  }

  /** Whatever the comparator answers, the result is a rearrangement within the documented cost;
      if it is a strict weak order, the result is sorted. */
  method Sort<T(!new)>(data: Data<T>) returns (ghost depth: nat)
    requires data.Valid()
    modifies data`calls, data`swaps, data.arr
    ensures data.Valid()
    ensures multiset(data.arr[..]) == multiset(old(data.arr[..]))
    ensures StrictWeak(data.less) ==> SortedBy(data.less, data.arr[..])
    ensures depth <= QuickDepth(data.arr.Length)
    ensures var n := data.arr.Length;
      && data.calls - old(data.calls) <= n * (19 * CeilLg(n + 1) + 7)
      && data.swaps - old(data.swaps) <= n * (19 * CeilLg(n + 1) + 7)
  {
    hide *;
    var n := data.arr.Length;
    ghost var s := data.arr[..];
    var limit := MaxDepth(n);
    CeilLgMonotone(n, n + 1);
    depth := QuickSort(data, 0, n, limit, CeilLg(n + 1));
    SortCostIs(n, CeilLg(n + 1));
    PermutedWhole(s, data.arr[..], 0, n);
    RankedIsSorted(data);
  }

  lemma SortCostIs(n: nat, k: nat)
    ensures QuickCost(n, 2 * k, k) == n * (19 * k + 7)
  {
  }

  lemma RankedIsSorted<T(!new)>(data: Data<T>)
    requires data.Valid()
    requires data.Ordered() ==> Sorted(data.rank, data.arr[..], 0, data.arr.Length)
    ensures StrictWeak(data.less) ==> SortedBy(data.less, data.arr[..])
  {
    var t := data.arr[..];
    if data.Ordered() {
      forall i, j | 0 <= i < j < |t| ensures !data.less(0, t[j], t[i])
      {
        assert t[i] in t && t[j] in t;
      }
    }
  }
}
