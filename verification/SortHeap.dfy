/**
 Heapsort on a sub-range, the fallback of quicksort.
 */
module SortHeap {
  import opened SortOrder
  import opened SortData
  import opened SortCost
  import opened Powers

  /** The rank of position k of the heap, which is element first + k. */
  ghost function Key<T>(rank: T -> int, s: seq<T>, first: int, k: int): int
    requires 0 <= first + k < |s|
  {
    rank(s[first + k])
  }

  /** Position k is no greater than its parent. */
  ghost predicate Under<T>(rank: T -> int, s: seq<T>, first: int, k: int)
    requires 0 <= first && 1 <= k && first + k < |s|
  {
    Key(rank, s, first, k) <= Key(rank, s, first, (k - 1) / 2)
  }

  /** Every parent at or after lo is no less than its children. */
  ghost predicate Heap<T>(rank: T -> int, s: seq<T>, first: int, lo: int, hi: int)
    requires 0 <= first && first + hi <= |s| && 0 <= lo
  {
    forall k :: 2 * lo + 1 <= k < hi ==> Under(rank, s, first, k)
  }

  /** A heap in which only root may be less than its children, which are no greater than root's parent. */
  ghost predicate Sifting<T>(rank: T -> int, s: seq<T>, first: int, lo: int, hi: int, root: int)
    requires 0 <= first && first + hi <= |s| && 0 <= lo
  {
    && (root == lo || 2 * lo + 1 <= root)
    && (forall k :: 2 * lo + 1 <= k < hi && (k - 1) / 2 != root ==> Under(rank, s, first, k))
    && (forall k :: 2 * root + 1 <= k <= 2 * root + 2 && k < hi && root != lo ==>
          Key(rank, s, first, k) <= Key(rank, s, first, (root - 1) / 2))
  }

  lemma SiftStart<T>(rank: T -> int, s: seq<T>, first: int, lo: int, hi: int)
    requires 0 <= first && first + hi <= |s| && 0 <= lo
    requires Heap(rank, s, first, lo + 1, hi)
    ensures Sifting(rank, s, first, lo, hi, lo)
  {
  }

  lemma SiftEnd<T>(rank: T -> int, s: seq<T>, first: int, lo: int, hi: int, root: int)
    requires 0 <= first && first + hi <= |s| && 0 <= lo <= root
    requires Sifting(rank, s, first, lo, hi, root)
    requires 2 * root + 1 < hi ==> !Lt(rank, s[first + root], s[first + 2 * root + 1])
    requires 2 * root + 2 < hi ==> !Lt(rank, s[first + root], s[first + 2 * root + 2])
    ensures Heap(rank, s, first, lo, hi)
  {
    forall k | 2 * lo + 1 <= k < hi ensures Under(rank, s, first, k)
    {
      if (k - 1) / 2 == root {
        assert k == 2 * root + 1 || k == 2 * root + 2;
      }
    }
  }

  lemma SiftStop<T>(rank: T -> int, s: seq<T>, first: int, lo: int, hi: int, root: int, child: int, other: int)
    requires 0 <= first && first + hi <= |s| && 0 <= lo <= root
    requires Sifting(rank, s, first, lo, hi, root)
    requires child < hi && {child, other} == {2 * root + 1, 2 * root + 2}
    requires other < hi ==> !Lt(rank, s[first + child], s[first + other])
    requires !Lt(rank, s[first + root], s[first + child])
    ensures Heap(rank, s, first, lo, hi)
  {
    assert child == 2 * root + 1 || child == 2 * root + 2;
    assert 2 * root + 1 in {child, other} && 2 * root + 2 in {child, other};
    SiftEnd(rank, s, first, lo, hi, root);
  }

  lemma SiftedKeys<T>(rank: T -> int, s: seq<T>, first: int, hi: int, root: int, child: int)
    requires 0 <= first && first + hi <= |s| && 0 <= root < child < hi
    ensures var t := Swapped(s, first + root, first + child);
      && (forall k :: 0 <= k < hi && k != root && k != child ==> Key(rank, t, first, k) == Key(rank, s, first, k))
      && Key(rank, t, first, root) == Key(rank, s, first, child)
      && Key(rank, t, first, child) == Key(rank, s, first, root)
  {
  }

  lemma SiftStep<T>(rank: T -> int, s: seq<T>, first: int, lo: int, hi: int, root: int, child: int, other: int)
    requires 0 <= first && first + hi <= |s| && 0 <= lo <= root
    requires Sifting(rank, s, first, lo, hi, root)
    requires child < hi && {child, other} == {2 * root + 1, 2 * root + 2}
    requires other < hi ==> !Lt(rank, s[first + child], s[first + other])
    requires Lt(rank, s[first + root], s[first + child])
    ensures Sifting(rank, Swapped(s, first + root, first + child), first, lo, hi, child)
  {
    hide Swapped;
    assert child == 2 * root + 1 || child == 2 * root + 2;
    assert 2 * root + 1 in {child, other} && 2 * root + 2 in {child, other};
    var t := Swapped(s, first + root, first + child);
    SiftedKeys(rank, s, first, hi, root, child);
    forall k | 2 * child + 1 <= k <= 2 * child + 2 && k < hi
      ensures Key(rank, t, first, k) <= Key(rank, t, first, (child - 1) / 2)
    {
      assert Under(rank, s, first, k);
    }
    forall k | 2 * lo + 1 <= k < hi && (k - 1) / 2 != child
      ensures Under(rank, t, first, k)
    {
      if (k - 1) / 2 == root {
        assert k == child || k == other;
      } else if k != root {
        assert Under(rank, s, first, k);
      }
    }
  }

  /** Picks the child of root that is not less than the other one, if there is another. */
  method LargerChild<T(!new)>(data: Data<T>, root: int, hi: int, first: int) returns (child: int, ghost other: int)
    requires data.Valid()
    requires 0 <= first && 0 <= root && 2 * root + 1 < hi && first + hi <= data.arr.Length
    modifies data`calls
    ensures data.Valid()
    ensures data.calls <= old(data.calls) + 1
    ensures child < hi && {child, other} == {2 * root + 1, 2 * root + 2} && root < child
    ensures data.Ordered() && other < hi ==> !Lt(data.rank, data.arr[first + child], data.arr[first + other])
  {
    child := 2 * root + 1;
    other := child + 1;
    if child + 1 < hi {
      var less := data.Less(first + child, first + child + 1);
      if less {
        child := child + 1;
        other := child - 1;
      }
    }
  }

  method SiftDown<T(!new)>(data: Data<T>, lo: int, hi: int, first: int)
    requires data.Valid()
    requires 0 <= first && 0 <= lo && 0 <= hi && first + hi <= data.arr.Length
    modifies data`calls, data`swaps, data.arr
    ensures data.Valid()
    ensures Permuted(old(data.arr[..]), data.arr[..], first, first + hi)
    ensures data.Ordered() && Heap(data.rank, old(data.arr[..]), first, lo + 1, hi) ==>
              Heap(data.rank, data.arr[..], first, lo, hi)
    ensures data.calls <= old(data.calls) + 2 * CeilLg(hi)
    ensures data.swaps <= old(data.swaps) + CeilLg(hi)
  {
    hide *;
    ghost var s := data.arr[..];
    ghost var heap := data.Ordered() && Heap(data.rank, s, first, lo + 1, hi);
    if heap { SiftStart(data.rank, s, first, lo, hi); }
    PermutedSame(s, first, first + hi);
    var root := lo;
    ghost var depth := 0;
    Pow2Step(0);
    while true
      invariant data.Valid()
      invariant lo <= root
      invariant Permuted(s, data.arr[..], first, first + hi)
      invariant heap ==> Sifting(data.rank, data.arr[..], first, lo, hi, root)
      invariant Pow2(depth) <= root + 1
      invariant data.calls <= old(data.calls) + 2 * depth && data.swaps <= old(data.swaps) + depth
      invariant depth <= CeilLg(hi)
      decreases hi - root
    {
      ghost var t := data.arr[..];
      if 2 * root + 1 >= hi {
        if heap { SiftEnd(data.rank, t, first, lo, hi, root); }
        break;
      }
      CeilLgIsLeast(hi, depth);
      Pow2Step(depth);
      ghost var other;
      var child;
      child, other := LargerChild(data, root, hi, first);
      assert t[first + child] == data.arr[first + child] && t[first + root] == data.arr[first + root];
      assert other < hi ==> t[first + other] == data.arr[first + other];
      var less := data.Less(first + root, first + child);
      if !less {
        if heap { SiftStop(data.rank, t, first, lo, hi, root, child, other); }
        return;
      }
      PermutedSwap(s, t, first + root, first + child, first, first + hi);
      if heap { SiftStep(data.rank, t, first, lo, hi, root, child, other); }
      data.Swap(first + root, first + child);
      root := child;
      depth := depth + 1;
    }
  }

  lemma {:induction false} HeapTop<T>(rank: T -> int, s: seq<T>, first: int, hi: int, k: int)
    requires 0 <= first && first + hi <= |s| && 0 <= k < hi
    requires Heap(rank, s, first, 0, hi)
    ensures Key(rank, s, first, k) <= Key(rank, s, first, 0)
    decreases k
  {
    if k > 0 {
      assert Under(rank, s, first, k);
      HeapTop(rank, s, first, hi, (k - 1) / 2);
    }
  }

  /** The invariant of the second phase: a heap below, the largest elements in order above. */
  ghost predicate Popping<T>(rank: T -> int, s: seq<T>, a: int, n: int, b: int)
    requires 0 <= a && 0 <= n && a + n <= b <= |s|
  {
    Heap(rank, s, a, 0, n) && Sorted(rank, s, a + n, b) && AllLe(rank, s, a, a + n, a + n, b)
  }

  lemma PopStart<T>(rank: T -> int, s: seq<T>, a: int, b: int)
    requires 0 <= a <= b <= |s|
    requires Heap(rank, s, a, 0, b - a)
    ensures Popping(rank, s, a, b - a, b)
  {
  }

  lemma PopSwap<T>(rank: T -> int, s: seq<T>, a: int, i: int, b: int)
    requires 0 <= a && 0 <= i && a + i < b <= |s|
    requires Popping(rank, s, a, i + 1, b)
    ensures var t := Swapped(s, a, a + i);
      Heap(rank, t, a, 1, i) && Sorted(rank, t, a + i, b) && AllLe(rank, t, a, a + i, a + i, b)
  {
    var t := Swapped(s, a, a + i);
    forall k | 0 <= k <= i ensures Key(rank, s, a, k) <= Key(rank, s, a, 0)
    {
      HeapTop(rank, s, a, i + 1, k);
    }
    forall k | 3 <= k < i ensures Under(rank, t, a, k)
    {
      assert Under(rank, s, a, k);
    }
    forall p, j | a <= p < a + i && a + i <= j < b ensures rank(t[p]) <= rank(t[j])
    {
      var p' := if p == a then a + i else p;
      assert t[p] == s[p'] && Key(rank, s, a, p' - a) <= Key(rank, s, a, 0);
    }
  }

  lemma PopSift<T>(rank: T -> int, t: seq<T>, u: seq<T>, a: int, i: int, b: int)
    requires 0 <= a && 0 <= i && a + i < b <= |t|
    requires Sorted(rank, t, a + i, b) && AllLe(rank, t, a, a + i, a + i, b)
    requires Permuted(t, u, a, a + i) && Heap(rank, u, a, 0, i)
    ensures Popping(rank, u, a, i, b)
  {
    SortedFrame(rank, t, u, a, a + i, a + i, b);
    AllLePermuted(rank, t, u, a, a + i, a, a + i, a + i, b);
  }

  lemma PopEnd<T>(rank: T -> int, s: seq<T>, a: int, b: int)
    requires 0 <= a <= b <= |s| && Popping(rank, s, a, 0, b)
    ensures Sorted(rank, s, a, b)
  {
  }

  lemma HeapNone<T>(rank: T -> int, s: seq<T>, first: int, hi: int)
    requires 0 <= first && 0 <= hi && first + hi <= |s|
    ensures Heap(rank, s, first, (if hi == 0 then 0 else (hi - 1) / 2) + 1, hi)
  {
  }

  method HeapSort<T(!new)>(data: Data<T>, a: int, b: int)
    requires data.Valid()
    requires 0 <= a <= b <= data.arr.Length
    modifies data`calls, data`swaps, data.arr
    ensures data.Valid()
    ensures Permuted(old(data.arr[..]), data.arr[..], a, b)
    ensures data.Ordered() ==> Sorted(data.rank, data.arr[..], a, b)
    ensures data.calls <= old(data.calls) + 2 * Times(2 * (b - a + 1), CeilLg(b - a))
    ensures data.swaps <= old(data.swaps) + Times(2 * (b - a + 1), CeilLg(b - a)) + (b - a)
  {
    hide *;
    ghost var s := data.arr[..];
    PermutedSame(s, a, b);
    var first := a;
    var lo := 0;
    var hi := b - a;
    ghost var k := CeilLg(hi);

    var i := if hi == 0 then 0 else (hi - 1) / 2;
    HeapNone(data.rank, s, first, hi);
    ghost var sifts := 0;
    TimesStep(0, k);
    while i >= 0
      invariant data.Valid()
      invariant -1 <= i && 2 * (sifts + i) <= hi
      invariant Permuted(s, data.arr[..], a, b)
      invariant data.Ordered() ==> Heap(data.rank, data.arr[..], first, i + 1, hi)
      invariant data.calls <= old(data.calls) + 2 * Times(sifts, k) && data.swaps <= old(data.swaps) + Times(sifts, k)
    {
      ghost var t := data.arr[..];
      SiftDown(data, i, hi, first);
      PermutedTransitive(s, t, data.arr[..], a, b);
      TimesStep(sifts, k);
      sifts := sifts + 1;
      i := i - 1;
    }

    i := hi - 1;
    if data.Ordered() { PopStart(data.rank, data.arr[..], a, b); }
    while i >= 0
      invariant data.Valid()
      invariant -1 <= i < hi || i == -1
      invariant Permuted(s, data.arr[..], a, b)
      invariant data.Ordered() ==> Popping(data.rank, data.arr[..], a, i + 1, b)
      invariant data.calls <= old(data.calls) + 2 * Times(sifts, k)
      invariant data.swaps <= old(data.swaps) + Times(sifts, k) + (hi - 1 - i)
      invariant sifts + i <= hi + hi / 2 + 1
    {
      ghost var t := data.arr[..];
      data.Swap(first, first + i);
      ghost var u := data.arr[..];
      if data.Ordered() { PopSwap(data.rank, t, a, i, b); }
      SiftDown(data, lo, i, first);
      if data.Ordered() { PopSift(data.rank, u, data.arr[..], a, i, b); }
      PopPermuted(s, t, data.arr[..], a, i, b);
      CeilLgMonotone(i, hi);
      TimesStep(sifts, k);
      sifts := sifts + 1;
      i := i - 1;
    }
    if data.Ordered() { PopEnd(data.rank, data.arr[..], a, b); }
    TimesMonotone(sifts, 2 * (hi + 1), k);
  }

  lemma PopPermuted<T>(s: seq<T>, t: seq<T>, u: seq<T>, a: int, i: int, b: int)
    requires 0 <= a && 0 <= i && a + i < b <= |s|
    requires |t| == |s| && Permuted(s, t, a, b) && Permuted(Swapped(t, a, a + i), u, a, a + i)
    ensures Permuted(s, u, a, b)
  {
    hide *;
    SwappedPermuted(t, a, a + i, a, b);
    PermutedWiden(Swapped(t, a, a + i), u, a, a + i, a, b);
    PermutedTransitive(s, t, Swapped(t, a, a + i), a, b);
    PermutedTransitive(s, Swapped(t, a, a + i), u, a, b);
  }
}
