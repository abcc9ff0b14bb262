/**
 Logarithms and sums that bound how often the sorting routines ask and exchange.
 */
module SortCost {
  import opened Powers

  /** The least k with n <= 2^k. */
  ghost function CeilLg(n: nat): nat
  {
    if n <= 1 then 0 else 1 + CeilLg((n + 1) / 2)
  }

  lemma {:induction false} CeilLgIsLeast(n: nat, k: nat)
    ensures CeilLg(n) <= k <==> n <= Pow2(k)
    decreases k
  {
    if n > 1 && k > 0 {
      CeilLgIsLeast((n + 1) / 2, k - 1);
    }
  }

  lemma {:induction false} CeilLgMonotone(m: nat, n: nat)
    requires m <= n
    ensures CeilLg(m) <= CeilLg(n)
  {
    CeilLgIsLeast(n, CeilLg(n));
    CeilLgIsLeast(m, CeilLg(n));
  }

  /** 0 + 1 + ... + (n-1). */
  ghost function Triangle(n: nat): nat
  {
    if n == 0 then 0 else Triangle(n - 1) + n - 1
  }

  lemma {:induction false} TriangleClosed(n: nat)
    ensures 2 * Triangle(n) == n * (n - 1)
  {
    if n > 0 {
      TriangleClosed(n - 1);
    }
  }

  lemma {:induction false} CeilLgBound(n: nat)
    requires n >= 1
    ensures CeilLg(n) <= n - 1
  {
    if n > 1 {
      CeilLgBound((n + 1) / 2);
    }
  }

  lemma {:induction false} CeilLgSuccessor(n: nat)
    requires n >= 1
    ensures CeilLg(n) <= CeilLg(n + 1) <= CeilLg(n) + 1
  {
    if n > 1 {
      if n % 2 == 0 {
        CeilLgSuccessor(n / 2);
        assert (n + 1) / 2 == n / 2 && (n + 2) / 2 == n / 2 + 1;
      } else {
        assert (n + 2) / 2 == (n + 1) / 2;
      }
    }
  }

  /** Halving the distance to search costs one question. */
  lemma SearchHalves(w: nat, v: nat)
    requires 0 <= v <= w / 2 && w >= 1
    ensures 1 + CeilLg(v + 1) <= CeilLg(w + 1)
  {
    CeilLgMonotone(v + 1, (w + 2) / 2);
  }

  /** What one merge of n elements may ask. */
  ghost function MergeCalls(n: nat): int
  {
    3 * n - 2 * CeilLg(n) - 3
  }

  /** What one merge of n elements may exchange. */
  ghost function MergeSwaps(n: nat): nat
  {
    n * CeilLg(n)
  }

  lemma MergeLeaf(n: nat)
    requires n >= 2
    ensures 1 <= CeilLg(n) <= MergeCalls(n)
    ensures n <= MergeSwaps(n)
  {
    CeilLgBound(n);
    assert n * CeilLg(n) >= n * 1;
  }

  lemma CeilLgHalves(n: nat)
    requires n >= 4
    ensures 1 + CeilLg(n - n / 2) == CeilLg(n)
    ensures CeilLg(n) <= 2 + CeilLg(n / 2) <= 1 + CeilLg(n)
    ensures n % 2 == 0 ==> CeilLg(n / 2) + 1 == CeilLg(n)
    ensures CeilLg(n) >= if n % 2 == 0 then 2 else 3
  {
    assert n - n / 2 == (n + 1) / 2;
    CeilLgMonotone(n / 2, n - n / 2);
    CeilLgSuccessor(n / 2);
    CeilLgMonotone(if n % 2 == 0 then 4 else 5, n);
    assert CeilLg(5) == 3 && CeilLg(4) == 2 by { assert CeilLg(3) == 2 && CeilLg(2) == 1; }
  }

  lemma SwapsSplit(f: nat, c: nat, j: nat, k: nat)
    requires j <= k
    ensures f + c + f * j + c * k <= (f + c) * (k + 1)
  {
    assert f * j <= f * k;
  }

  lemma MergeSwapsHalves(n: nat)
    requires n >= 4
    ensures n + MergeSwaps(n / 2) + MergeSwaps(n - n / 2) <= MergeSwaps(n)
  {
    CeilLgHalves(n);
    SwapsSplit(n / 2, n - n / 2, CeilLg(n / 2), CeilLg(n) - 1);
  }

  lemma MergeHalves(n: nat)
    requires n >= 4
    ensures CeilLg(n / 2 + 1) + MergeCalls(n / 2) + MergeCalls(n - n / 2) <= MergeCalls(n)
    ensures MergeCalls(n / 2) >= 0 && MergeCalls(n - n / 2) >= 0
    ensures 1 + CeilLg(n / 2) <= CeilLg(n) && 1 + CeilLg(n - n / 2) <= CeilLg(n)
  {
    CeilLgMonotone(n / 2 + 1, n);
    CeilLgHalves(n);
    CeilLgBound(n / 2);
    CeilLgBound(n - n / 2);
  }

  /** A merge of n of the elements adds at most so much to a pass over all of them. */
  lemma PassCost(a: nat, n: nat, all: nat)
    requires n >= 2 && a + n <= all
    ensures MergeCalls(n) <= 3 * n
    ensures a * CeilLg(all) + MergeSwaps(n) <= (a + n) * CeilLg(all)
  {
    CeilLgMonotone(n, all);
    MultiplesMerge(a, n, CeilLg(n), CeilLg(all));
  }

  lemma MultiplesMerge(a: nat, n: nat, j: nat, k: nat)
    requires j <= k
    ensures a * k + n * j <= (a + n) * k
  {
    assert n * j <= n * k;
  }

  lemma Pow2Step(k: nat)
    ensures Pow2(0) == 1 && Pow2(k + 1) == 2 * Pow2(k)
  {
  }

  ghost function Times(n: nat, k: nat): nat
  {
    n * k
  }

  lemma TimesStep(n: nat, k: nat)
    ensures Times(0, k) == 0
    ensures Times(n + 1, k) == Times(n, k) + k
  {
  }

  lemma TimesMonotone(m: nat, n: nat, k: nat)
    requires m <= n
    ensures Times(m, k) <= Times(n, k)
  {
  }

  /** The greatest k with 2^k <= n, for n >= 1. */
  ghost function FloorLg(n: nat): nat
  {
    if n <= 1 then 0 else 1 + FloorLg(n / 2)
  }

  lemma {:induction false} FloorLgIsGreatest(n: nat, k: nat)
    requires n >= 1
    ensures k <= FloorLg(n) <==> Pow2(k) <= n
    decreases k
  {
    if n > 1 && k > 0 {
      FloorLgIsGreatest(n / 2, k - 1);
    }
  }

  /** The deepest stack that quicksort needs for n elements. */
  ghost function QuickDepth(n: nat): nat
  {
    if n < 2 then 1 else FloorLg(n)
  }

  lemma {:induction false} FloorLgMonotone(m: nat, n: nat)
    requires 1 <= m <= n
    ensures FloorLg(m) <= FloorLg(n)
  {
    FloorLgIsGreatest(m, FloorLg(m));
    FloorLgIsGreatest(n, FloorLg(m));
  }

  lemma QuickDepthHalf(m: nat, n: nat)
    requires m <= n / 2 && n > 12
    ensures 1 + QuickDepth(m) <= QuickDepth(n)
  {
    assert FloorLg(2) == 1;
    FloorLgMonotone(2, n / 2);
    if m >= 2 { FloorLgMonotone(m, n / 2); }
  }

  /** What quicksort may ask, or exchange, for n elements with d levels left before it falls back on
      heapsort, if k bounds the logarithm of the size. */
  ghost function QuickCost(n: nat, d: nat, k: nat): nat
  {
    n * (7 * (d + 1) + 5 * k)
  }

  lemma QuickCostSplit(n: nat, m: nat, l: nat, d: nat, k: nat)
    requires m + l <= n && d >= 1
    ensures 7 * n + QuickCost(m, d - 1, k) + QuickCost(l, d - 1, k) <= QuickCost(n, d, k)
  {
    var c := 7 * d + 5 * k;
    assert m * c + l * c == (m + l) * c <= n * c;
    assert n * (c + 7) == n * c + 7 * n;
  }

  lemma QuickCostSum(n: nat, d: nat, k: nat)
    ensures QuickCost(n, d, k) >= 7 * n + 5 * (n * k)
  {
    assert n * (7 * (d + 1) + 5 * k) == n * (7 * (d + 1)) + 5 * (n * k);
    assert n * (7 * (d + 1)) >= n * 7;
  }

  lemma QuickCostHeap(n: nat, d: nat, k: nat)
    requires n >= 4 && CeilLg(n) <= k
    ensures 2 * Times(2 * (n + 1), CeilLg(n)) + n <= QuickCost(n, d, k)
  {
    hide *;
    HeapProduct(n, CeilLg(n), k);
    QuickCostSum(n, d, k);
  }

  lemma HeapProduct(n: nat, l: nat, k: nat)
    requires n >= 4 && l <= k
    ensures 2 * Times(2 * (n + 1), l) <= 5 * (n * k)
  {
    assert Times(2 * (n + 1), l) == 2 * (n * l + l);
    assert n * l <= n * k;
    assert 4 * l <= n * l;
  }

  lemma SmallProduct(n: nat)
    requires n <= 12
    ensures n * (n - 1) <= 12 * n
  {
  }

  lemma QuickCostSmall(n: nat, d: nat, k: nat)
    requires n <= 12
    ensures Triangle(n) + n <= QuickCost(n, d, k)
  {
    hide *;
    TriangleClosed(n);
    SmallProduct(n);
    QuickCostSum(n, d, k);
  }
}
