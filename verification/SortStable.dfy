/**
 The stable in-place sort: insertion-sorted blocks, merged by SymMerge and block rotation.
 */
module SortStable {
  import opened SortOrder
  import opened SortData
  import opened SortCost
  import opened Powers

  // ---------- Insertion sort ----------

  /** Every element of s[j..i] ranks above s[i]. */
  ghost predicate AllAbove<T>(rank: T -> int, s: seq<T>, j: int, i: int)
    requires 0 <= j <= i < |s|
  {
    forall k :: j <= k < i ==> Lt(rank, s[i], s[k])
  }

  lemma AllAboveStep<T>(rank: T -> int, s: seq<T>, j: int, i: int)
    requires 0 <= j <= i < |s|
    ensures AllAbove(rank, s, i, i)
    ensures j > 0 && AllAbove(rank, s, j, i) && Lt(rank, s[i], s[j - 1]) ==> AllAbove(rank, s, j - 1, i)
  {
  }

  lemma InsertSorted<T>(rank: T -> int, s: seq<T>, a: int, j: int, i: int)
    requires 0 <= a <= j <= i < |s|
    requires Sorted(rank, s, a, i)
    requires AllAbove(rank, s, j, i)
    requires j > a ==> !Lt(rank, s[i], s[j - 1])
    ensures Sorted(rank, Rotated(s, j, i, i + 1), a, i + 1)
    ensures Stable(rank, s, Rotated(s, j, i, i + 1))
  {
    RotatedStable(rank, s, j, i, i + 1);
  }

  lemma InsertPermuted<T>(s: seq<T>, a: int, j: int, i: int)
    requires 0 <= a <= j <= i < |s|
    ensures Permuted(s, Rotated(s, j, i, i + 1), a, i + 1)
  {
    RotatedPermuted(s, j, i, i + 1);
    PermutedWiden(s, Rotated(s, j, i, i + 1), j, i + 1, a, i + 1);
  }

  lemma RotateNothing<T>(s: seq<T>, i: int)
    requires 0 <= i < |s|
    ensures Rotated(s, i, i, i + 1) == s
  {
  }

  lemma RotateOneMore<T>(s: seq<T>, j: int, i: int)
    requires 0 < j <= i < |s|
    ensures Rotated(s, j, i, i + 1)[j] == s[i] && Rotated(s, j, i, i + 1)[j - 1] == s[j - 1]
    ensures Swapped(Rotated(s, j, i, i + 1), j, j - 1) == Rotated(s, j - 1, i, i + 1)
  {
  }

  /** Moves element i down to its place among the sorted elements before it. */
  method Insert<T(!new)>(data: Data<T>, a: int, i: int)
    requires data.Valid()
    requires 0 <= a < i < data.arr.Length
    modifies data`calls, data`swaps, data.arr
    ensures data.Valid()
    ensures Permuted(old(data.arr[..]), data.arr[..], a, i + 1)
    ensures data.Ordered() && Sorted(data.rank, old(data.arr[..]), a, i) ==>
              && Sorted(data.rank, data.arr[..], a, i + 1)
              && Stable(data.rank, old(data.arr[..]), data.arr[..])
    ensures data.calls <= old(data.calls) + i - a
    ensures data.swaps <= old(data.swaps) + i - a
  {
    hide *;
    ghost var s := data.arr[..];
    var j := i;
    RotateNothing(s, i);
    AllAboveStep(data.rank, s, i, i);
    while j > a
      invariant data.Valid()
      invariant a <= j <= i
      invariant data.arr[..] == Rotated(s, j, i, i + 1)
      invariant data.Ordered() ==> AllAbove(data.rank, s, j, i)
      invariant data.calls <= old(data.calls) + i - j && data.swaps <= old(data.swaps) + i - j
    {
      RotateOneMore(s, j, i);
      AllAboveStep(data.rank, s, j, i);
      assert data.arr[j] == data.arr[..][j] && data.arr[j - 1] == data.arr[..][j - 1];
      var less := data.Less(j, j - 1);
      if !less { break; }
      data.Swap(j, j - 1);
      j := j - 1;
    }
    InsertPermuted(s, a, j, i);
    if data.Ordered() && Sorted(data.rank, s, a, i) {
      InsertSorted(data.rank, s, a, j, i);
    }
  }

  method InsertionSort<T(!new)>(data: Data<T>, a: int, b: int)
    requires data.Valid()
    requires 0 <= a <= b <= data.arr.Length
    modifies data`calls, data`swaps, data.arr
    ensures data.Valid()
    ensures Permuted(old(data.arr[..]), data.arr[..], a, b)
    ensures data.Ordered() ==> Sorted(data.rank, data.arr[..], a, b)
    ensures data.Ordered() ==> Stable(data.rank, old(data.arr[..]), data.arr[..])
    ensures data.calls <= old(data.calls) + Triangle(b - a)
    ensures data.swaps <= old(data.swaps) + Triangle(b - a)
  {
    hide Permuted, Stable, StrictWeak, Respects;
    ghost var s := data.arr[..];
    PermutedSame(s, a, b);
    StableSame(data.rank, s);
    var i := a + 1;
    while i < b
      invariant data.Valid()
      invariant a < i && (i <= b || i == a + 1)
      invariant Permuted(s, data.arr[..], a, b)
      invariant data.Ordered() && i <= b ==> Sorted(data.rank, data.arr[..], a, i)
      invariant Stable(data.rank, s, data.arr[..]) || !data.Ordered()
      invariant data.calls <= old(data.calls) + Triangle(i - a)
      invariant data.swaps <= old(data.swaps) + Triangle(i - a)
    {
      ghost var t := data.arr[..];
      Insert(data, a, i);
      PermutedWiden(t, data.arr[..], a, i + 1, a, b);
      PermutedTransitive(s, t, data.arr[..], a, b);
      if data.Ordered() { StableTransitive(data.rank, s, t, data.arr[..]); }
      i := i + 1;
    }
  }

  // ---------- Rotation ----------

  ghost function BlocksSwapped<T>(s: seq<T>, a: int, b: int, n: int): (t: seq<T>)
    requires 0 <= n && 0 <= a && a + n <= b && b + n <= |s|
    ensures |t| == |s|
  {
    seq(|s|, k requires 0 <= k < |s| =>
      if a <= k < a + n then s[k + (b - a)] else if b <= k < b + n then s[k - (b - a)] else s[k])
  }

  method SwapRange<T(!new)>(data: Data<T>, a: int, b: int, n: int)
    requires data.Valid()
    requires 0 <= n && 0 <= a && a + n <= b && b + n <= data.arr.Length
    modifies data`swaps, data.arr
    ensures data.Valid()
    ensures data.swaps == old(data.swaps) + n
    ensures data.arr[..] == BlocksSwapped(old(data.arr[..]), a, b, n)
  {
    ghost var s := data.arr[..];
    var i := 0;
    while i < n
      invariant data.Valid()
      invariant 0 <= i <= n
      invariant data.swaps == old(data.swaps) + i
      invariant data.arr[..] == BlocksSwapped(s, a, b, i)
    {
      data.Swap(a + i, b + i);
      assert Swapped(BlocksSwapped(s, a, b, i), a + i, b + i) == BlocksSwapped(s, a, b, i + 1);
      i := i + 1;
    }
  }

  /** One step of the block-swap rotation when the left block is the longer one. */
  lemma RotateLongLeft<T>(s: seq<T>, m: int, i: int, j: int)
    requires 0 < j < i <= m && m + j <= |s|
    ensures Rotated(BlocksSwapped(s, m - i, m, j), m - i + j, m, m + j) == Rotated(s, m - i, m, m + j)
  {
  }

  lemma RotateLongRight<T>(s: seq<T>, m: int, i: int, j: int)
    requires 0 < i < j && i <= m && m + j <= |s|
    ensures Rotated(BlocksSwapped(s, m - i, m + j - i, i), m - i, m, m + j - i) == Rotated(s, m - i, m, m + j)
  {
  }

  lemma RotateEven<T>(s: seq<T>, m: int, i: int)
    requires 0 < i <= m && m + i <= |s|
    ensures BlocksSwapped(s, m - i, m, i) == Rotated(s, m - i, m, m + i)
  {
  }

  method Rotate<T(!new)>(data: Data<T>, a: int, m: int, b: int)
    requires data.Valid()
    requires 0 <= a < m < b <= data.arr.Length
    modifies data`swaps, data.arr
    ensures data.Valid()
    ensures data.arr[..] == Rotated(old(data.arr[..]), a, m, b)
    ensures data.swaps <= old(data.swaps) + (b - a)
  {
    hide *;
    var i := m - a;
    var j := b - m;
    ghost var t := Rotated(data.arr[..], a, m, b);
    while i != j
      invariant data.Valid()
      invariant 0 < i <= m - a && 0 < j <= b - m
      invariant Rotated(data.arr[..], m - i, m, m + j) == t
      invariant data.swaps + i + j <= old(data.swaps) + (b - a)
      decreases i + j
    {
      if i > j {
        RotateLongLeft(data.arr[..], m, i, j);
        SwapRange(data, m - i, m, j);
        i := i - j;
      } else {
        RotateLongRight(data.arr[..], m, i, j);
        SwapRange(data, m - i, m + j - i, i);
        j := j - i;
      }
    }
    RotateEven(data.arr[..], m, i);
    SwapRange(data, m - i, m, i);
  }

  // ---------- Binary search ----------

  /** q holds on lo..i and fails on j..hi. */
  ghost predicate Cut(q: int -> bool, lo: int, i: int, j: int, hi: int)
  {
    && (forall k :: lo <= k < i ==> q(k))
    && (forall k :: j <= k < hi ==> !q(k))
  }

  /** Once q fails it goes on failing. */
  ghost predicate Falls(q: int -> bool, lo: int, hi: int)
  {
    forall c, d :: lo <= c < d < hi && q(d) ==> q(c)
  }

  lemma CutStart(q: int -> bool, lo: int, hi: int)
    ensures Cut(q, lo, lo, hi, hi)
  {
  }

  lemma CutStep(q: int -> bool, lo: int, i: int, h: int, j: int, hi: int)
    requires Falls(q, lo, hi) && Cut(q, lo, i, j, hi)
    requires lo <= i <= h < j <= hi
    ensures q(h) ==> Cut(q, lo, h + 1, j, hi)
    ensures !q(h) ==> Cut(q, lo, i, h, hi)
  {
  }

  lemma CutRead(q: int -> bool, lo: int, i: int, hi: int)
    requires lo <= i <= hi && Cut(q, lo, i, i, hi)
    ensures lo < i ==> q(i - 1)
    ensures i < hi ==> !q(i)
  {
  }

  /** Element k sorts before x. */
  ghost function Before<T>(rank: T -> int, s: seq<T>, x: T): int -> bool
  {
    k => 0 <= k < |s| && Lt(rank, s[k], x)
  }

  /** x does not sort before element k. */
  ghost function NotAfter<T>(rank: T -> int, s: seq<T>, x: T): int -> bool
  {
    k => 0 <= k < |s| && !Lt(rank, x, s[k])
  }

  /** Elements c and p - c are not out of order. */
  ghost function InOrder<T>(rank: T -> int, s: seq<T>, p: int): int -> bool
  {
    c => 0 <= c < |s| && 0 <= p - c < |s| && !Lt(rank, s[p - c], s[c])
  }

  lemma BeforeFalls<T>(rank: T -> int, s: seq<T>, x: T, lo: int, hi: int)
    requires 0 <= lo <= hi <= |s| && Sorted(rank, s, lo, hi)
    ensures Falls(Before(rank, s, x), lo, hi)
  {
  }

  lemma BeforeAt<T>(rank: T -> int, s: seq<T>, x: T, k: int)
    requires 0 <= k < |s|
    ensures Before(rank, s, x)(k) == Lt(rank, s[k], x)
    ensures NotAfter(rank, s, x)(k) == !Lt(rank, x, s[k])
  {
  }

  lemma NotAfterFalls<T>(rank: T -> int, s: seq<T>, x: T, lo: int, hi: int)
    requires 0 <= lo <= hi <= |s| && Sorted(rank, s, lo, hi)
    ensures Falls(NotAfter(rank, s, x), lo, hi)
  {
  }

  // ---------- Merging one element into a sorted run ----------

  lemma RotateFirst<T>(s: seq<T>, a: int, k: int)
    requires 0 <= a <= k < |s|
    ensures Rotated(s, a, a + 1, a + 1) == s
    ensures k + 1 < |s| ==> Swapped(Rotated(s, a, a + 1, k + 1), k, k + 1) == Rotated(s, a, a + 1, k + 2)
  {
  }

  lemma InsertFirstMerges<T>(rank: T -> int, s: seq<T>, a: int, i: int, b: int)
    requires 0 <= a < i <= b <= |s|
    ensures Permuted(s, Rotated(s, a, a + 1, i), a, b)
    ensures Sorted(rank, s, a + 1, b) && Cut(Before(rank, s, s[a]), a + 1, i, i, b) ==>
              Sorted(rank, Rotated(s, a, a + 1, i), a, b) && Stable(rank, s, Rotated(s, a, a + 1, i))
  {
    RotatedPermuted(s, a, a + 1, i);
    PermutedWiden(s, Rotated(s, a, a + 1, i), a, i, a, b);
    if Sorted(rank, s, a + 1, b) && Cut(Before(rank, s, s[a]), a + 1, i, i, b) {
      forall k | a + 1 <= k < b ensures k < i <==> Lt(rank, s[k], s[a]) { BeforeAt(rank, s, s[a], k); }
      RotatedStable(rank, s, a, a + 1, i);
    }
  }

  /** Moves element a up to just before the first element of a+1..b that does not sort before it. */
  method InsertFirst<T(!new)>(data: Data<T>, a: int, b: int)
    requires data.Valid()
    requires 0 <= a && a + 1 < b <= data.arr.Length
    modifies data`calls, data`swaps, data.arr
    ensures data.Valid()
    ensures Permuted(old(data.arr[..]), data.arr[..], a, b)
    ensures data.Ordered() && Sorted(data.rank, old(data.arr[..]), a + 1, b) ==>
              Sorted(data.rank, data.arr[..], a, b) && Stable(data.rank, old(data.arr[..]), data.arr[..])
    ensures data.calls <= old(data.calls) + CeilLg(b - a)
    ensures data.swaps <= old(data.swaps) + (b - a)
  {
    hide *;
    ghost var s := data.arr[..];
    ghost var q := Before(data.rank, s, s[a]);
    ghost var sorted := data.Ordered() && Sorted(data.rank, s, a + 1, b);
    if sorted { BeforeFalls(data.rank, s, s[a], a + 1, b); }
    CutStart(q, a + 1, b);
    var i := a + 1;
    var j := b;
    while i < j
      invariant data.Valid()
      invariant a + 1 <= i <= j <= b
      invariant data.arr[..] == s
      invariant sorted ==> Cut(q, a + 1, i, j, b)
      invariant data.calls + CeilLg(j - i + 1) <= old(data.calls) + CeilLg(b - a)
      invariant data.swaps == old(data.swaps)
    {
      var h := i + (j - i) / 2;
      assert data.arr[h] == s[h] && data.arr[a] == s[a];
      var less := data.Less(h, a);
      BeforeAt(data.rank, s, s[a], h);
      if sorted { CutStep(q, a + 1, i, h, j, b); }
      SearchHalves(j - i, j - h - 1);
      SearchHalves(j - i, h - i);
      if less {
        i := h + 1;
      } else {
        j := h;
      }
    }
    var k := a;
    RotateFirst(s, a, a);
    while k < i - 1
      invariant data.Valid()
      invariant a <= k < i
      invariant data.arr[..] == Rotated(s, a, a + 1, k + 1)
      invariant data.swaps == old(data.swaps) + k - a
      invariant data.calls <= old(data.calls) + CeilLg(b - a)
    {
      RotateFirst(s, a, k);
      data.Swap(k, k + 1);
      k := k + 1;
    }
    InsertFirstMerges(data.rank, s, a, i, b);
  }

  lemma InsertLastMerges<T>(rank: T -> int, s: seq<T>, a: int, i: int, m: int)
    requires 0 <= a <= i <= m < |s|
    ensures Permuted(s, Rotated(s, i, m, m + 1), a, m + 1)
    ensures Sorted(rank, s, a, m) && Cut(NotAfter(rank, s, s[m]), a, i, i, m) ==>
              Sorted(rank, Rotated(s, i, m, m + 1), a, m + 1) && Stable(rank, s, Rotated(s, i, m, m + 1))
  {
    InsertPermuted(s, a, i, m);
    if Sorted(rank, s, a, m) && Cut(NotAfter(rank, s, s[m]), a, i, i, m) {
      forall k | a <= k < m ensures k < i <==> !Lt(rank, s[m], s[k]) { BeforeAt(rank, s, s[m], k); }
      InsertSorted(rank, s, a, i, m);
    }
  }

  /** Moves element m down to just before the first element of a..m that sorts after it. */
  method InsertLast<T(!new)>(data: Data<T>, a: int, m: int)
    requires data.Valid()
    requires 0 <= a < m < data.arr.Length
    modifies data`calls, data`swaps, data.arr
    ensures data.Valid()
    ensures Permuted(old(data.arr[..]), data.arr[..], a, m + 1)
    ensures data.Ordered() && Sorted(data.rank, old(data.arr[..]), a, m) ==>
              Sorted(data.rank, data.arr[..], a, m + 1) && Stable(data.rank, old(data.arr[..]), data.arr[..])
    ensures data.calls <= old(data.calls) + CeilLg(m + 1 - a)
    ensures data.swaps <= old(data.swaps) + (m + 1 - a)
  {
    hide *;
    ghost var s := data.arr[..];
    ghost var q := NotAfter(data.rank, s, s[m]);
    ghost var sorted := data.Ordered() && Sorted(data.rank, s, a, m);
    if sorted { NotAfterFalls(data.rank, s, s[m], a, m); }
    CutStart(q, a, m);
    var i := a;
    var j := m;
    while i < j
      invariant data.Valid()
      invariant a <= i <= j <= m
      invariant data.arr[..] == s
      invariant sorted ==> Cut(q, a, i, j, m)
      invariant data.calls + CeilLg(j - i + 1) <= old(data.calls) + CeilLg(m + 1 - a)
      invariant data.swaps == old(data.swaps)
    {
      var h := i + (j - i) / 2;
      assert data.arr[h] == s[h] && data.arr[m] == s[m];
      var less := data.Less(m, h);
      BeforeAt(data.rank, s, s[m], h);
      if sorted { CutStep(q, a, i, h, j, m); }
      SearchHalves(j - i, j - h - 1);
      SearchHalves(j - i, h - i);
      if !less {
        i := h + 1;
      } else {
        j := h;
      }
    }
    var k := m;
    RotateNothing(s, m);
    while k > i
      invariant data.Valid()
      invariant i <= k <= m
      invariant data.arr[..] == Rotated(s, k, m, m + 1)
      invariant data.swaps == old(data.swaps) + m - k
      invariant data.calls <= old(data.calls) + CeilLg(m + 1 - a)
    {
      RotateOneMore(s, k, m);
      data.Swap(k, k - 1);
      k := k - 1;
    }
    InsertLastMerges(data.rank, s, a, i, m);
  }

  // ---------- SymMerge ----------

  lemma InOrderFalls<T>(rank: T -> int, s: seq<T>, a: int, m: int, b: int, p: int, lo: int, hi: int)
    requires 0 <= a <= m <= b <= |s|
    requires Sorted(rank, s, a, m) && Sorted(rank, s, m, b)
    requires a <= lo <= hi <= m && m <= p - hi + 1 && p - lo < b
    ensures Falls(InOrder(rank, s, p), lo, hi)
  {
    var q := InOrder(rank, s, p);
    forall c, d | lo <= c < d < hi && q(d) ensures q(c)
    {
      assert rank(s[c]) <= rank(s[d]) <= rank(s[p - d]) <= rank(s[p - c]);
    }
  }

  lemma InOrderAt<T>(rank: T -> int, s: seq<T>, p: int, c: int)
    requires 0 <= c < |s| && 0 <= p - c < |s|
    ensures InOrder(rank, s, p)(c) == !Lt(rank, s[p - c], s[c])
  {
  }

  /** After the rotation the lower half is below the upper half, and each consists of two sorted runs. */
  ghost predicate Split<T>(rank: T -> int, t: seq<T>, a: int, start: int, mid: int, end: int, b: int)
  {
    && 0 <= a <= start <= mid <= end <= b <= |t|
    && Sorted(rank, t, a, start) && Sorted(rank, t, start, mid)
    && Sorted(rank, t, mid, end) && Sorted(rank, t, end, b)
    && AllLe(rank, t, a, mid, mid, b)
  }

  lemma SymMergeSplit<T>(rank: T -> int, s: seq<T>, a: int, start: int, m: int, end: int, b: int)
    requires 0 <= a <= start <= m <= end <= b <= |s|
    requires Sorted(rank, s, a, m) && Sorted(rank, s, m, b)
    requires a < start && end < b ==> !Lt(rank, s[end], s[start - 1])
    requires start < m < end ==> Lt(rank, s[end - 1], s[start])
    ensures Split(rank, Rotated(s, start, m, end), a, start, start + end - m, end, b)
  {
    SymMergeCrossed(rank, s, a, start, m, end, b);
  }

  /** The two blocks that the rotation exchanges are strictly out of order; the two others are in order. */
  lemma SymMergeCrossed<T>(rank: T -> int, s: seq<T>, a: int, start: int, m: int, end: int, b: int)
    requires 0 <= a <= start <= m <= end <= b <= |s|
    requires Sorted(rank, s, a, m) && Sorted(rank, s, m, b)
    requires a < start && end < b ==> !Lt(rank, s[end], s[start - 1])
    requires start < m < end ==> Lt(rank, s[end - 1], s[start])
    ensures forall i, j :: start <= i < m && m <= j < end ==> rank(s[j]) < rank(s[i])
    ensures forall i, j :: a <= i < start && end <= j < b ==> rank(s[i]) <= rank(s[j])
  {
    forall i, j | start <= i < m && m <= j < end ensures rank(s[j]) < rank(s[i])
    {
      assert rank(s[j]) <= rank(s[end - 1]) < rank(s[start]) <= rank(s[i]);
    }
    forall i, j | a <= i < start && end <= j < b ensures rank(s[i]) <= rank(s[j])
    {
      assert rank(s[i]) <= rank(s[start - 1]) <= rank(s[end]) <= rank(s[j]);
    }
  }

  lemma SymMergeStable<T>(rank: T -> int, s: seq<T>, a: int, start: int, m: int, end: int, b: int)
    requires 0 <= a <= start <= m <= end <= b <= |s|
    requires Sorted(rank, s, a, m) && Sorted(rank, s, m, b)
    requires a < start && end < b ==> !Lt(rank, s[end], s[start - 1])
    requires start < m < end ==> Lt(rank, s[end - 1], s[start])
    ensures Stable(rank, s, Rotated(s, start, m, end))
  {
    SymMergeCrossed(rank, s, a, start, m, end, b);
    RotatedStable(rank, s, start, m, end);
  }

  lemma SymMergeRead<T>(rank: T -> int, s: seq<T>, a: int, m: int, b: int, lo: int, start: int, hi: int, n: int)
    requires 0 <= a < m < b <= |s| && n == a + (b - a) / 2 + m
    requires (lo, hi) == if m > n - m then (n - b, n - m) else (a, m)
    requires lo <= start <= hi && Cut(InOrder(rank, s, n - 1), lo, start, start, hi)
    ensures a <= start <= m <= n - start <= b
    ensures a < start && n - start < b ==> !Lt(rank, s[n - start], s[start - 1])
    ensures start < m < n - start ==> Lt(rank, s[n - start - 1], s[start])
  {
    hide *;
    CutRead(InOrder(rank, s, n - 1), lo, start, hi);
    if a < start && n - start < b {
      InOrderAt(rank, s, n - 1, start - 1);
    }
    if start < m < n - start {
      InOrderAt(rank, s, n - 1, start);
    }
  }

  lemma SymMergeFound<T>(rank: T -> int, s: seq<T>, a: int, m: int, b: int, lo: int, start: int, hi: int, n: int)
    requires 0 <= a < m < b <= |s| && n == a + (b - a) / 2 + m
    requires Sorted(rank, s, a, m) && Sorted(rank, s, m, b)
    requires (lo, hi) == if m > n - m then (n - b, n - m) else (a, m)
    requires lo <= start <= hi && Cut(InOrder(rank, s, n - 1), lo, start, start, hi)
    ensures a <= start <= m <= n - start <= b
    ensures Split(rank, Rotated(s, start, m, n - start), a, start, n - m, n - start, b)
    ensures Stable(rank, s, Rotated(s, start, m, n - start))
  {
    hide *;
    SymMergeRead(rank, s, a, m, b, lo, start, hi, n);
    SymMergeSplit(rank, s, a, start, m, n - start, b);
    SymMergeStable(rank, s, a, start, m, n - start, b);
  }

  /** Finds how many elements of the left run belong to the lower half of the merge. */
  method SymMergeSearch<T(!new)>(data: Data<T>, a: int, m: int, b: int) returns (start: int)
    requires data.Valid()
    requires 0 <= a && a + 2 <= m && m + 2 <= b <= data.arr.Length
    modifies data`calls
    ensures data.Valid()
    ensures a <= start <= m <= a + (b - a) / 2 + m - start <= b
    ensures data.Ordered() && Sorted(data.rank, data.arr[..], a, m) && Sorted(data.rank, data.arr[..], m, b) ==>
              var end := a + (b - a) / 2 + m - start;
              var t := Rotated(data.arr[..], start, m, end);
              Split(data.rank, t, a, start, a + (b - a) / 2, end, b) && Stable(data.rank, data.arr[..], t)
    ensures data.calls <= old(data.calls) + CeilLg((b - a) / 2 + 1)
  {
    hide *;
    var mid := a + (b - a) / 2;
    var n := mid + m;
    var r;
    if m > mid {
      start := n - b;
      r := mid;
    } else {
      start := a;
      r := m;
    }
    var p := n - 1;
    ghost var lo, hi := start, r;
    ghost var s := data.arr[..];
    ghost var q := InOrder(data.rank, s, p);
    ghost var sorted := data.Ordered() && Sorted(data.rank, s, a, m) && Sorted(data.rank, s, m, b);
    if sorted { InOrderFalls(data.rank, s, a, m, b, p, lo, hi); }
    CutStart(q, lo, hi);
    CeilLgMonotone(hi - lo + 1, (b - a) / 2 + 1);
    while start < r
      invariant data.Valid()
      invariant lo <= start <= r <= hi
      invariant data.arr[..] == s
      invariant sorted ==> Cut(q, lo, start, r, hi)
      invariant data.calls + CeilLg(r - start + 1) <= old(data.calls) + CeilLg((b - a) / 2 + 1)
    {
      var c := start + (r - start) / 2;
      assert data.arr[c] == s[c] && data.arr[p - c] == s[p - c];
      var less := data.Less(p - c, c);
      InOrderAt(data.rank, s, p, c);
      if sorted { CutStep(q, lo, start, c, r, hi); }
      SearchHalves(r - start, r - c - 1);
      SearchHalves(r - start, c - start);
      if !less {
        start := c + 1;
      } else {
        r := c;
      }
    }
    if sorted { SymMergeFound(data.rank, s, a, m, b, lo, start, hi, n); }
  }

  lemma RotatedTrivially<T>(s: seq<T>, a: int, m: int, b: int)
    requires 0 <= a <= m <= b <= |s| && (a == m || m == b)
    ensures Rotated(s, a, m, b) == s
  {
  }

  lemma SplitLower<T>(rank: T -> int, t: seq<T>, a: int, start: int, mid: int, end: int, b: int)
    requires Split(rank, t, a, start, mid, end, b)
    ensures Sorted(rank, t, a, start) && Sorted(rank, t, start, mid)
    ensures start == a || start == mid ==> Sorted(rank, t, a, mid)
  {
  }

  lemma SplitUpper<T>(rank: T -> int, t: seq<T>, u: seq<T>, a: int, start: int, mid: int, end: int, b: int)
    requires Split(rank, t, a, start, mid, end, b)
    requires Permuted(t, u, a, mid)
    ensures Sorted(rank, u, mid, end) && Sorted(rank, u, end, b) && AllLe(rank, u, a, mid, mid, b)
    ensures mid == end || end == b ==> Sorted(rank, u, mid, b)
  {
    SortedFrame(rank, t, u, a, mid, mid, end);
    SortedFrame(rank, t, u, a, mid, end, b);
    AllLePermuted(rank, t, u, a, mid, a, mid, mid, b);
  }

  lemma SplitMerged<T>(rank: T -> int, u: seq<T>, v: seq<T>, a: int, mid: int, b: int)
    requires 0 <= a <= mid <= b <= |u|
    requires Sorted(rank, u, a, mid) && AllLe(rank, u, a, mid, mid, b)
    requires Permuted(u, v, mid, b) && Sorted(rank, v, mid, b)
    ensures Sorted(rank, v, a, b)
  {
    SortedFrame(rank, u, v, mid, b, a, mid);
    AllLePermuted(rank, u, v, mid, b, a, mid, mid, b);
    SortedJoin(rank, v, a, mid, b);
  }

  lemma SplitPermuted<T>(s: seq<T>, u: seq<T>, v: seq<T>, a: int, start: int, m: int, end: int, b: int)
    requires 0 <= a <= start <= m <= end <= b <= |s| && a <= start + end - m
    requires Permuted(Rotated(s, start, m, end), u, a, start + end - m) && Permuted(u, v, start + end - m, b)
    ensures Permuted(s, v, a, b)
  {
    hide *;
    var t, mid := Rotated(s, start, m, end), start + end - m;
    RotatedPermuted(s, start, m, end);
    PermutedWiden(s, t, start, end, a, b);
    PermutedWiden(t, u, a, mid, a, b);
    PermutedWiden(u, v, mid, b, a, b);
    PermutedTransitive(s, t, u, a, b);
    PermutedTransitive(s, u, v, a, b);
  }

  method SymMerge<T(!new)>(data: Data<T>, a: int, m: int, b: int) returns (ghost depth: nat)
    requires data.Valid()
    requires 0 <= a < m < b <= data.arr.Length
    modifies data`calls, data`swaps, data.arr
    ensures data.Valid()
    ensures Permuted(old(data.arr[..]), data.arr[..], a, b)
    ensures data.Ordered() && Sorted(data.rank, old(data.arr[..]), a, m) && Sorted(data.rank, old(data.arr[..]), m, b) ==>
              Sorted(data.rank, data.arr[..], a, b) && Stable(data.rank, old(data.arr[..]), data.arr[..])
    ensures depth <= CeilLg(b - a)
    ensures data.calls <= old(data.calls) + MergeCalls(b - a)
    ensures data.swaps <= old(data.swaps) + MergeSwaps(b - a)
    decreases b - a
  {
    hide *;
    MergeLeaf(b - a);
    if m - a == 1 {
      InsertFirst(data, a, b);
      return 1;
    }
    if b - m == 1 {
      InsertLast(data, a, m);
      return 1;
    }
    ghost var s := data.arr[..];
    ghost var sorted := data.Ordered() && Sorted(data.rank, s, a, m) && Sorted(data.rank, s, m, b);
    MergeHalves(b - a);
    MergeSwapsHalves(b - a);

    var start := SymMergeSearch(data, a, m, b);
    var mid := a + (b - a) / 2;
    var end := mid + m - start;
    if start < m && m < end {
      Rotate(data, start, m, end);
    } else {
      RotatedTrivially(s, start, m, end);
    }

    ghost var t := data.arr[..];
    ghost var lower, upper := 0, 0;
    if sorted { SplitLower(data.rank, t, a, start, mid, end, b); }
    PermutedSame(t, a, mid);
    StableSame(data.rank, t);
    if a < start && start < mid {
      lower := SymMerge(data, a, start, mid);
    }

    ghost var u := data.arr[..];
    if sorted { SplitUpper(data.rank, t, u, a, start, mid, end, b); }
    PermutedSame(u, mid, b);
    StableSame(data.rank, u);
    if mid < end && end < b {
      upper := SymMerge(data, mid, end, b);
    }

    depth := 1 + if lower > upper then lower else upper;
    SplitPermuted(s, u, data.arr[..], a, start, m, end, b);
    if sorted {
      SplitMerged(data.rank, u, data.arr[..], a, mid, b);
      StableTransitive(data.rank, s, t, u);
      StableTransitive(data.rank, s, u, data.arr[..]);
    }
  }

  // ---------- The bottom-up merge sort ----------

  /** From a on, s consists of sorted runs of length w; the last may be shorter. */
  ghost predicate Runs<T>(rank: T -> int, s: seq<T>, a: int, w: nat)
    requires 0 <= a <= |s| && w > 0
    decreases |s| - a
  {
    if |s| - a <= w then Sorted(rank, s, a, |s|) else Sorted(rank, s, a, a + w) && Runs(rank, s, a + w, w)
  }

  /** Up to a, s consists of full sorted runs of length w. */
  ghost predicate FullRuns<T>(rank: T -> int, s: seq<T>, a: int, w: nat)
    requires a <= |s| && w > 0
    decreases a
  {
    a == 0 || (a >= w && Sorted(rank, s, a - w, a) && FullRuns(rank, s, a - w, w))
  }

  lemma {:induction false} RunsJoin<T>(rank: T -> int, s: seq<T>, a: int, w: nat)
    requires 0 <= a <= |s| && w > 0
    requires FullRuns(rank, s, a, w) && Runs(rank, s, a, w)
    ensures Runs(rank, s, 0, w)
    decreases a
  {
    if a > 0 {
      assert Runs(rank, s, a - w, w);
      RunsJoin(rank, s, a - w, w);
    }
  }

  lemma {:induction false} FullRunsFrame<T>(rank: T -> int, s: seq<T>, t: seq<T>, a: int, p: int, q: int, w: nat)
    requires 0 <= a <= p && w > 0 && Permuted(s, t, p, q)
    requires FullRuns(rank, s, a, w)
    ensures FullRuns(rank, t, a, w)
    decreases a
  {
    if a > 0 {
      SortedFrame(rank, s, t, p, q, a - w, a);
      FullRunsFrame(rank, s, t, a - w, p, q, w);
    }
  }

  lemma {:induction false} RunsFrame<T>(rank: T -> int, s: seq<T>, t: seq<T>, a: int, p: int, q: int, w: nat)
    requires 0 <= q <= a <= |s| && w > 0 && Permuted(s, t, p, q)
    requires Runs(rank, s, a, w)
    ensures Runs(rank, t, a, w)
    decreases |s| - a
  {
    if |s| - a <= w {
      SortedFrame(rank, s, t, p, q, a, |s|);
    } else {
      SortedFrame(rank, s, t, p, q, a, a + w);
      RunsFrame(rank, s, t, a + w, p, q, w);
    }
  }

  /** What the sort has done so far: s became t by a stable rearrangement. */
  ghost predicate Rearranged<T(!new)>(data: Data<T>, s: seq<T>, t: seq<T>)
  {
    Permuted(s, t, 0, |s|) && (data.Ordered() ==> Stable(data.rank, s, t))
  }

  lemma RearrangedSame<T(!new)>(data: Data<T>, s: seq<T>)
    ensures Rearranged(data, s, s)
  {
  }

  lemma RearrangedStep<T(!new)>(data: Data<T>, s: seq<T>, t: seq<T>, u: seq<T>, a: int, b: int)
    requires Rearranged(data, s, t) && Permuted(t, u, a, b)
    requires data.Ordered() ==> Stable(data.rank, t, u)
    ensures Rearranged(data, s, u)
  {
    PermutedWiden(t, u, a, b, 0, |s|);
  }

  lemma RunsEnd<T>(rank: T -> int, s: seq<T>, a: int, w: nat)
    requires 0 <= a <= |s| < a + w
    requires FullRuns(rank, s, a, w) && Sorted(rank, s, a, |s|)
    ensures Runs(rank, s, 0, w)
  {
    RunsJoin(rank, s, a, w);
  }

  lemma BlockCost(a: nat, n: nat, w: nat)
    requires n <= w
    ensures a * (w - 1) + 2 * Triangle(n) <= (a + n) * (w - 1)
  {
    TriangleClosed(n);
    assert n == 0 || n * (n - 1) <= n * (w - 1);
    assert (a + n) * (w - 1) == a * (w - 1) + n * (w - 1);
  }

  method InsertionSortBlocks<T(!new)>(data: Data<T>, n: int, blockSize: nat)
    requires data.Valid()
    requires n == data.arr.Length && blockSize > 0
    modifies data`calls, data`swaps, data.arr
    ensures data.Valid()
    ensures Rearranged(data, old(data.arr[..]), data.arr[..])
    ensures data.Ordered() ==> Runs(data.rank, data.arr[..], 0, blockSize)
    ensures 2 * data.calls <= 2 * old(data.calls) + n * (blockSize - 1)
    ensures 2 * data.swaps <= 2 * old(data.swaps) + n * (blockSize - 1)
  {
    hide Permuted, Stable, StrictWeak, Respects, Sorted, Rearranged, Runs;
    ghost var s := data.arr[..];
    RearrangedSame(data, s);
    var a, b := 0, blockSize;
    while b <= n
      invariant data.Valid()
      invariant 0 <= a <= n && b == a + blockSize
      invariant Rearranged(data, s, data.arr[..])
      invariant data.Ordered() ==> FullRuns(data.rank, data.arr[..], a, blockSize)
      invariant 2 * data.calls <= 2 * old(data.calls) + a * (blockSize - 1)
      invariant 2 * data.swaps <= 2 * old(data.swaps) + a * (blockSize - 1)
    {
      ghost var t := data.arr[..];
      InsertionSort(data, a, b);
      RearrangedStep(data, s, t, data.arr[..], a, b);
      if data.Ordered() { FullRunsFrame(data.rank, t, data.arr[..], a, a, b, blockSize); }
      BlockCost(a, b - a, blockSize);
      a := b;
      b := b + blockSize;
    }
    ghost var t := data.arr[..];
    InsertionSort(data, a, n);
    RearrangedStep(data, s, t, data.arr[..], a, n);
    if data.Ordered() {
      FullRunsFrame(data.rank, t, data.arr[..], a, a, n, blockSize);
      RunsEnd(data.rank, data.arr[..], a, blockSize);
    }
    BlockCost(a, n - a, blockSize);
  }

  lemma RunsPeel<T>(rank: T -> int, s: seq<T>, a: int, w: nat)
    requires 0 <= a <= |s| && w > 0 && Runs(rank, s, a, w)
    ensures a + 2 * w <= |s| ==>
              && Sorted(rank, s, a, a + w) && Sorted(rank, s, a + w, a + 2 * w)
              && Runs(rank, s, a + 2 * w, w)
    ensures a + w < |s| <= a + 2 * w ==> Sorted(rank, s, a, a + w) && Sorted(rank, s, a + w, |s|)
    ensures |s| <= a + w ==> Sorted(rank, s, a, |s|)
  {
    if a + w < |s| {
      assert Runs(rank, s, a + w, w);
    }
  }

  lemma FullRunsMore<T>(rank: T -> int, s: seq<T>, t: seq<T>, a: int, b: int, w: nat)
    requires 0 <= a && b == a + w && w > 0 && Permuted(s, t, a, b)
    requires FullRuns(rank, s, a, w) && Sorted(rank, t, a, b)
    ensures FullRuns(rank, t, b, w)
  {
    FullRunsFrame(rank, s, t, a, a, b, w);
  }

  /** Merges neighbouring sorted runs of length blockSize into runs of twice that length. */
  method MergePass<T(!new)>(data: Data<T>, n: int, blockSize: nat)
    requires data.Valid()
    requires n == data.arr.Length && blockSize > 0
    requires data.Ordered() ==> Runs(data.rank, data.arr[..], 0, blockSize)
    modifies data`calls, data`swaps, data.arr
    ensures data.Valid()
    ensures Rearranged(data, old(data.arr[..]), data.arr[..])
    ensures data.Ordered() ==> Runs(data.rank, data.arr[..], 0, 2 * blockSize)
    ensures data.calls <= old(data.calls) + 3 * n
    ensures data.swaps <= old(data.swaps) + n * CeilLg(n)
  {
    hide *;
    ghost var s := data.arr[..];
    ghost var sorted := data.Ordered();
    RearrangedSame(data, s);
    FullRunsNone(data.rank, s, 2 * blockSize);
    var a, b := 0, 2 * blockSize;
    while b <= n
      invariant data.Valid()
      invariant 0 <= a <= n && b == a + 2 * blockSize
      invariant Rearranged(data, s, data.arr[..])
      invariant sorted ==> FullRuns(data.rank, data.arr[..], a, 2 * blockSize) && Runs(data.rank, data.arr[..], a, blockSize)
      invariant data.calls <= old(data.calls) + 3 * a
      invariant data.swaps <= old(data.swaps) + a * CeilLg(n)
    {
      ghost var t := data.arr[..];
      if sorted { RunsPeel(data.rank, t, a, blockSize); }
      ghost var depth := SymMerge(data, a, a + blockSize, b);
      RearrangedStep(data, s, t, data.arr[..], a, b);
      if sorted {
        FullRunsMore(data.rank, t, data.arr[..], a, b, 2 * blockSize);
        RunsFrame(data.rank, t, data.arr[..], b, a, b, blockSize);
      }
      PassCost(a, b - a, n);
      a := b;
      b := b + 2 * blockSize;
    }
    ghost var t := data.arr[..];
    if sorted { RunsPeel(data.rank, t, a, blockSize); }
    var m := a + blockSize;
    if m < n {
      ghost var depth := SymMerge(data, a, m, n);
      RearrangedStep(data, s, t, data.arr[..], a, n);
      if sorted { FullRunsFrame(data.rank, t, data.arr[..], a, a, n, 2 * blockSize); }
      PassCost(a, n - a, n);
    }
    PassRest(a, n, CeilLg(n));
    if sorted { RunsEnd(data.rank, data.arr[..], a, 2 * blockSize); }
  }

  lemma PassRest(a: nat, n: nat, k: nat)
    requires a <= n
    ensures a * k <= n * k
  {
  }

  lemma FullRunsNone<T>(rank: T -> int, s: seq<T>, w: nat)
    requires w > 0
    ensures FullRuns(rank, s, 0, w)
  {
  }

  lemma RunsWhole<T>(rank: T -> int, s: seq<T>, w: nat)
    requires |s| <= w && w > 0 && Runs(rank, s, 0, w)
    ensures Sorted(rank, s, 0, |s|)
  {
  }

  lemma OnePassMore(n: nat, p: nat, k: nat, blockSize: nat)
    requires Pow2(p) <= blockSize < n && k == CeilLg(n)
    ensures p < k && Pow2(p + 1) <= 2 * blockSize
    ensures (p + 1) * (3 * n) == p * (3 * n) + 3 * n
    ensures (p + 1) * (n * k) == p * (n * k) + n * k
  {
    CeilLgIsLeast(n, p);
  }

  lemma StableCost(n: nat, p: nat, k: nat)
    requires p <= k
    ensures 19 * n + 2 * (p * (3 * n)) <= n * (19 + 6 * k)
    ensures 19 * n + 2 * (p * (n * k)) <= n * (19 + 2 * k * k)
  {
    assert p * (3 * n) <= k * (3 * n) == n * (3 * k);
    assert p * (n * k) <= k * (n * k) == n * (k * k);
  }

  method StableRanked<T(!new)>(data: Data<T>, n: int)
    requires data.Valid()
    requires n == data.arr.Length
    modifies data`calls, data`swaps, data.arr
    ensures data.Valid()
    ensures Rearranged(data, old(data.arr[..]), data.arr[..])
    ensures data.Ordered() ==> Sorted(data.rank, data.arr[..], 0, n)
    ensures 2 * (data.calls - old(data.calls)) <= n * (19 + 6 * CeilLg(n))
    ensures 2 * (data.swaps - old(data.swaps)) <= n * (19 + 2 * CeilLg(n) * CeilLg(n))
  {
    hide Permuted, Stable, StrictWeak, Respects, Sorted, Rearranged, Runs, CeilLg, FullRuns;
    ghost var s := data.arr[..];
    var blockSize := 20;
    InsertionSortBlocks(data, n, blockSize);
    ghost var p, k := 0, CeilLg(n);
    while blockSize < n
      invariant data.Valid()
      invariant Rearranged(data, s, data.arr[..])
      invariant blockSize > 0 && p <= k && Pow2(p) <= blockSize
      invariant data.Ordered() ==> Runs(data.rank, data.arr[..], 0, blockSize)
      invariant 2 * (data.calls - old(data.calls)) <= 19 * n + 2 * (p * (3 * n))
      invariant 2 * (data.swaps - old(data.swaps)) <= 19 * n + 2 * (p * (n * k))
      decreases n - blockSize
    {
      OnePassMore(n, p, k, blockSize);
      ghost var t := data.arr[..];
      MergePass(data, n, blockSize);
      RearrangedTransitive(data, s, t, data.arr[..]);
      blockSize := 2 * blockSize;
      p := p + 1;
    }
    StableCost(n, p, k);
    if data.Ordered() { RunsWhole(data.rank, data.arr[..], blockSize); }
  }

  lemma RearrangedTransitive<T(!new)>(data: Data<T>, s: seq<T>, t: seq<T>, u: seq<T>)
    requires Rearranged(data, s, t) && Rearranged(data, t, u)
    ensures Rearranged(data, s, u)
  {
    RearrangedStep(data, s, t, u, 0, |s|);
  }

  // ---------- What the caller sees ----------

  /** t is s sorted, with equivalent elements in the order in which s has them. */
  ghost predicate StablySorted<T(!new)>(less: (nat, T, T) -> bool, s: seq<T>, t: seq<T>)
  {
    && SortedBy(less, t)
    && forall x :: x in s ==> Equivalents(less, t, x) == Equivalents(less, s, x)
  }

  lemma {:induction false} EquivalentsAreClass<T(!new)>(less: (nat, T, T) -> bool, rank: T -> int, s: seq<T>, t: seq<T>, x: T)
    requires Respects(less, rank, s) && x in s
    requires forall y :: y in t ==> y in s
    ensures Equivalents(less, t, x) == Class(rank, t, rank(x))
  {
    if t != [] {
      assert t[0] in t;
      assert less(0, t[0], x) == (rank(t[0]) < rank(x)) && less(0, x, t[0]) == (rank(x) < rank(t[0]));
      assert forall y :: y in t[1..] ==> y in t;
      EquivalentsAreClass(less, rank, s, t[1..], x);
    }
  }

  lemma RankedIsStablySorted<T(!new)>(less: (nat, T, T) -> bool, rank: T -> int, s: seq<T>, t: seq<T>)
    requires Respects(less, rank, t)
    requires Permuted(s, t, 0, |s|) && Stable(rank, s, t) && Sorted(rank, t, 0, |t|)
    ensures StablySorted(less, s, t)
  {
    PermutedWhole(s, t, 0, |s|);
    forall i, j | 0 <= i < j < |t| ensures !less(0, t[j], t[i])
    {
      assert t[i] in t && t[j] in t;
    }
    forall x | x in s ensures Equivalents(less, t, x) == Equivalents(less, s, x)
    {
      EquivalentsAreClass(less, rank, t, t, x);
      EquivalentsAreClass(less, rank, t, s, x);
    }
  }

  /** Whatever the comparator answers, the result is a rearrangement within the documented cost;
      if it is a strict weak order, the result is the stably sorted sequence. */
  method StableSort<T(!new)>(data: Data<T>)
    requires data.Valid()
    modifies data`calls, data`swaps, data.arr
    ensures data.Valid()
    ensures multiset(data.arr[..]) == multiset(old(data.arr[..]))
    ensures StrictWeak(data.less) ==> StablySorted(data.less, old(data.arr[..]), data.arr[..])
    ensures var n := data.arr.Length;
      && 2 * (data.calls - old(data.calls)) <= n * (19 + 6 * CeilLg(n))
      && 2 * (data.swaps - old(data.swaps)) <= n * (19 + 2 * CeilLg(n) * CeilLg(n))
  {
    ghost var s := data.arr[..];
    StableRanked(data, data.arr.Length);
    PermutedWhole(s, data.arr[..], 0, |s|);
    if StrictWeak(data.less) {
      RankedIsStablySorted(data.less, data.rank, s, data.arr[..]);
    }
  }
}
