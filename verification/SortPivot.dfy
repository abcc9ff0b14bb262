/**
 Pivot choice and three-way partition, with the protection against many duplicates.
 */
module SortPivot {
  import opened SortOrder
  import opened SortData

  // ---------- Median of three ----------

  lemma SwappedAt<T>(s: seq<T>, i: int, j: int, k: int)
    requires 0 <= i < |s| && 0 <= j < |s| && 0 <= k < |s| && k != i && k != j
    ensures var t := Swapped(s, i, j); t[i] == s[j] && t[j] == s[i] && t[k] == s[k]
  {
  }

  /** Exchanges elements i and j of the range lo..hi if they are out of order. */
  method Order<T(!new)>(data: Data<T>, i: int, j: int, ghost lo: int, ghost hi: int) returns (swapped: bool)
    requires data.Valid()
    requires 0 <= lo <= i < hi <= data.arr.Length && lo <= j < hi
    modifies data`calls, data`swaps, data.arr
    ensures data.Valid()
    ensures Permuted(old(data.arr[..]), data.arr[..], lo, hi)
    ensures data.arr[..] == if swapped then Swapped(old(data.arr[..]), i, j) else old(data.arr[..])
    ensures data.Ordered() ==> swapped == Lt(data.rank, old(data.arr[i]), old(data.arr[j]))
    ensures data.calls == old(data.calls) + 1 && data.swaps <= old(data.swaps) + 1
  {
    hide *;
    ghost var s := data.arr[..];
    PermutedSame(s, lo, hi);
    SwappedPermuted(s, i, j, lo, hi);
    swapped := data.Less(i, j);
    if swapped {
      data.Swap(i, j);
    }
  }

  lemma MedianDone<T>(rank: T -> int, s: seq<T>, m1: int, m0: int, m2: int, b1: bool, b2: bool, b3: bool)
    requires 0 <= m0 < |s| && 0 <= m1 < |s| && 0 <= m2 < |s|
    requires m0 != m1 && m1 != m2 && m0 != m2
    requires b1 == Lt(rank, s[m1], s[m0])
    ensures
      var t := if b1 then Swapped(s, m1, m0) else s;
      b2 == Lt(rank, t[m2], t[m1]) ==>
      var u := if b2 then Swapped(t, m2, m1) else t;
      b3 == (b2 && Lt(rank, u[m1], u[m0])) ==>
      var v := if b3 then Swapped(u, m1, m0) else u;
      !Lt(rank, v[m1], v[m0]) && !Lt(rank, v[m2], v[m1])
  {
    var t := if b1 then Swapped(s, m1, m0) else s;
    SwappedAt(s, m1, m0, m2);
    var u := if b2 then Swapped(t, m2, m1) else t;
    SwappedAt(t, m2, m1, m0);
    SwappedAt(u, m1, m0, m2);
  }

  /** Moves the median of elements m0, m1, m2, all in lo..hi, to m1. */
  method MedianOfThree<T(!new)>(data: Data<T>, m1: int, m0: int, m2: int, ghost lo: int, ghost hi: int)
    requires data.Valid()
    requires 0 <= lo <= hi <= data.arr.Length
    requires lo <= m0 < hi && lo <= m1 < hi && lo <= m2 < hi
    requires m0 != m1 && m1 != m2 && m0 != m2
    modifies data`calls, data`swaps, data.arr
    ensures data.Valid()
    ensures Permuted(old(data.arr[..]), data.arr[..], lo, hi)
    ensures data.Ordered() ==> !Lt(data.rank, data.arr[m1], data.arr[m0]) && !Lt(data.rank, data.arr[m2], data.arr[m1])
    ensures data.calls <= old(data.calls) + 3 && data.swaps <= old(data.swaps) + 3
  {
    hide *;
    ghost var s := data.arr[..];
    assert data.arr[m1] == s[m1] && data.arr[m0] == s[m0];
    var b1 := Order(data, m1, m0, lo, hi);
    ghost var t := data.arr[..];
    assert data.arr[m2] == t[m2] && data.arr[m1] == t[m1];
    var b2 := Order(data, m2, m1, lo, hi);
    ghost var u := data.arr[..];
    PermutedTransitive(s, t, u, lo, hi);
    assert data.arr[m1] == u[m1] && data.arr[m0] == u[m0];
    var b3 := false;
    if b2 {
      b3 := Order(data, m1, m0, lo, hi);
      PermutedTransitive(s, u, data.arr[..], lo, hi);
    }
    ghost var v := data.arr[..];
    assert data.arr[m0] == v[m0] && data.arr[m1] == v[m1] && data.arr[m2] == v[m2];
    if data.Ordered() { MedianDone(data.rank, s, m1, m0, m2, b1, b2, b3); }
  }

  /** Puts an element that is not above the last one of the range at its start. */
  method ChoosePivot<T(!new)>(data: Data<T>, lo: int, hi: int) returns (m: int)
    requires data.Valid()
    requires 0 <= lo && lo + 12 < hi <= data.arr.Length
    modifies data`calls, data`swaps, data.arr
    ensures data.Valid()
    ensures m == lo + (hi - lo) / 2
    ensures Permuted(old(data.arr[..]), data.arr[..], lo, hi)
    ensures data.Ordered() ==> !Lt(data.rank, data.arr[hi - 1], data.arr[lo])
    ensures data.calls <= old(data.calls) + 12 && data.swaps <= old(data.swaps) + 12
  {
    hide *;
    ghost var s := data.arr[..];
    PermutedSame(s, lo, hi);
    m := lo + (hi - lo) / 2;
    if hi - lo > 40 {
      var d := (hi - lo) / 8;
      MedianOfThree(data, lo, lo + d, lo + 2 * d, lo, hi);
      ghost var t := data.arr[..];
      MedianOfThree(data, m, m - d, m + d, lo, hi);
      PermutedTransitive(s, t, data.arr[..], lo, hi);
      t := data.arr[..];
      MedianOfThree(data, hi - 1, hi - 1 - d, hi - 1 - 2 * d, lo, hi);
      PermutedTransitive(s, t, data.arr[..], lo, hi);
    }
    ghost var t := data.arr[..];
    MedianOfThree(data, lo, m, hi - 1, lo, hi);
    PermutedTransitive(s, t, data.arr[..], lo, hi);
  }

  // ---------- Partition ----------

  /** With the pivot at lo: below it up to a, not above it up to b, above it from c on;
      the last element is not below it. */
  ghost predicate Scanned<T>(rank: T -> int, s: seq<T>, lo: int, a: int, b: int, c: int, hi: int)
    requires 0 <= lo < a <= b <= c < hi <= |s|
  {
    && (forall k :: lo < k < a ==> rank(s[k]) < rank(s[lo]))
    && (forall k :: a <= k < b ==> rank(s[k]) <= rank(s[lo]))
    && (forall k :: c <= k < hi - 1 ==> rank(s[lo]) < rank(s[k]))
    && rank(s[lo]) <= rank(s[hi - 1])
  }

  lemma ScanStart<T>(rank: T -> int, s: seq<T>, lo: int, hi: int)
    requires 0 <= lo && lo + 1 < hi <= |s|
    requires !Lt(rank, s[hi - 1], s[lo])
    ensures Scanned(rank, s, lo, lo + 1, lo + 1, hi - 1, hi)
  {
  }

  lemma ScanStep<T>(rank: T -> int, s: seq<T>, lo: int, a: int, b: int, c: int, hi: int)
    requires 0 <= lo < a <= b < c < hi <= |s|
    requires Scanned(rank, s, lo, a, b, c, hi)
    ensures a == b && Lt(rank, s[a], s[lo]) ==> Scanned(rank, s, lo, a + 1, a + 1, c, hi)
    ensures !Lt(rank, s[lo], s[b]) ==> Scanned(rank, s, lo, a, b + 1, c, hi)
    ensures Lt(rank, s[lo], s[c - 1]) ==> Scanned(rank, s, lo, a, b, c - 1, hi)
    ensures Lt(rank, s[lo], s[b]) && !Lt(rank, s[lo], s[c - 1]) ==>
              b + 1 <= c - 1 && Scanned(rank, Swapped(s, b, c - 1), lo, a, b + 1, c - 1, hi)
  {
  }

  /** Moves b up past the elements that are not above the pivot. */
  method ScanUp<T(!new)>(data: Data<T>, lo: int, ghost a: int, from: int, c: int, ghost hi: int) returns (b: int)
    requires data.Valid()
    requires 0 <= lo < a <= from <= c + 1 && lo < c < hi <= data.arr.Length
    requires data.Ordered() ==> from <= c && Scanned(data.rank, data.arr[..], lo, a, from, c, hi)
    modifies data`calls
    ensures data.Valid()
    ensures from <= b && (b <= c || b == from)
    ensures data.Ordered() ==> b <= c && Scanned(data.rank, data.arr[..], lo, a, b, c, hi)
    ensures data.Ordered() && b < c ==> Lt(data.rank, data.arr[lo], data.arr[b])
    ensures data.calls <= old(data.calls) + (b - from) + if b < c then 1 else 0
  {
    hide *;
    ghost var s := data.arr[..];
    b := from;
    while b < c
      invariant data.Valid()
      invariant from <= b && (b <= c || b == from)
      invariant data.Ordered() ==> b <= c && Scanned(data.rank, s, lo, a, b, c, hi)
      invariant data.calls <= old(data.calls) + (b - from)
    {
      assert data.arr[b] == s[b] && data.arr[lo] == s[lo];
      var less := data.Less(lo, b);
      if less { return; }
      if data.Ordered() { ScanStep(data.rank, s, lo, a, b, c, hi); }
      b := b + 1;
    }
  }

  /** Moves c down past the elements that are above the pivot. */
  method ScanDown<T(!new)>(data: Data<T>, lo: int, ghost a: int, b: int, from: int, ghost hi: int) returns (c: int)
    requires data.Valid()
    requires 0 <= lo < a <= b <= from + 1 && lo < from < hi <= data.arr.Length
    requires data.Ordered() ==> b <= from && Scanned(data.rank, data.arr[..], lo, a, b, from, hi)
    modifies data`calls
    ensures data.Valid()
    ensures lo < c <= from && (b <= c || c == from)
    ensures data.Ordered() ==> b <= c && Scanned(data.rank, data.arr[..], lo, a, b, c, hi)
    ensures data.Ordered() && b < c ==> !Lt(data.rank, data.arr[lo], data.arr[c - 1])
    ensures data.calls <= old(data.calls) + (from - c) + if b < c then 1 else 0
  {
    hide *;
    ghost var s := data.arr[..];
    c := from;
    while b < c
      invariant data.Valid()
      invariant lo < c <= from && (b <= c || c == from)
      invariant data.Ordered() ==> b <= c && Scanned(data.rank, s, lo, a, b, c, hi)
      invariant data.calls <= old(data.calls) + (from - c)
    {
      assert data.arr[c - 1] == s[c - 1] && data.arr[lo] == s[lo];
      var less := data.Less(lo, c - 1);
      if !less { return; }
      if data.Ordered() { ScanStep(data.rank, s, lo, a, b, c, hi); }
      c := c - 1;
    }
  }

  /** Finds the first element after the pivot that is not below it. */
  method ScanBelow<T(!new)>(data: Data<T>, lo: int, c: int, ghost hi: int) returns (a: int)
    requires data.Valid()
    requires 0 <= lo && lo + 1 < hi <= data.arr.Length && c == hi - 1
    requires data.Ordered() ==> !Lt(data.rank, data.arr[hi - 1], data.arr[lo])
    modifies data`calls
    ensures data.Valid()
    ensures lo < a <= c
    ensures data.Ordered() ==> Scanned(data.rank, data.arr[..], lo, a, a, c, hi)
    ensures data.calls <= old(data.calls) + (a - lo)
  {
    hide *;
    ghost var s := data.arr[..];
    a := lo + 1;
    assert s[hi - 1] == data.arr[hi - 1] && s[lo] == data.arr[lo];
    if data.Ordered() { ScanStart(data.rank, s, lo, hi); }
    while a < c
      invariant data.Valid()
      invariant lo < a <= c
      invariant data.Ordered() ==> Scanned(data.rank, s, lo, a, a, c, hi)
      invariant data.calls <= old(data.calls) + (a - lo - 1)
    {
      assert data.arr[a] == s[a] && data.arr[lo] == s[lo];
      var less := data.Less(a, lo);
      if !less { break; }
      if data.Ordered() { ScanStep(data.rank, s, lo, a, a, c, hi); }
      a := a + 1;
    }
  }

  /** Lines the elements up around the pivot at lo.  Only a contradictory comparator can make
      b and c pass each other. */
  method Partition<T(!new)>(data: Data<T>, lo: int, hi: int) returns (a: int, b: int, c: int)
    requires data.Valid()
    requires 0 <= lo && lo + 12 < hi <= data.arr.Length
    requires data.Ordered() ==> !Lt(data.rank, data.arr[hi - 1], data.arr[lo])
    modifies data`calls, data`swaps, data.arr
    ensures data.Valid()
    ensures Permuted(old(data.arr[..]), data.arr[..], lo, hi)
    ensures lo < a <= b <= c + 1 && lo < c < hi && c <= b
    ensures data.Ordered() ==> b == c && Scanned(data.rank, data.arr[..], lo, a, b, c, hi)
    ensures data.calls <= old(data.calls) + 3 * (hi - lo) && data.swaps <= old(data.swaps) + (hi - lo)
  {
    hide *;
    a, c := lo + 1, hi - 1;
    ghost var s := data.arr[..];
    PermutedSame(s, lo, hi);
    a := ScanBelow(data, lo, c, hi);
    b := a;
    while true
      invariant data.Valid()
      invariant lo < a <= b <= c + 1 && lo < c < hi
      invariant Permuted(s, data.arr[..], lo, hi)
      invariant data.Ordered() ==> b <= c && Scanned(data.rank, data.arr[..], lo, a, b, c, hi)
      invariant data.calls <= old(data.calls) + (b - lo) + (hi - 1 - c)
      invariant data.swaps <= old(data.swaps) + (b - a)
      decreases c - b + 1
    {
      b := ScanUp(data, lo, a, b, c, hi);
      c := ScanDown(data, lo, a, b, c, hi);
      if b >= c { break; }
      ghost var t := data.arr[..];
      assert data.arr[lo] == t[lo] && data.arr[b] == t[b] && data.arr[c - 1] == t[c - 1];
      if data.Ordered() { ScanStep(data.rank, t, lo, a, b, c, hi); }
      PermutedSwap(s, t, b, c - 1, lo, hi);
      data.Swap(b, c - 1);
      b := b + 1;
      c := c - 1;
    }
  }

  // ---------- Many duplicates ----------

  /** With the pivot at lo: below it up to a, not above it up to b, equal to it up to c, not below it from c on. */
  ghost predicate Banded<T>(rank: T -> int, s: seq<T>, lo: int, a: int, b: int, c: int, hi: int)
    requires 0 <= lo < a <= b <= c <= hi <= |s|
  {
    && (forall k :: lo < k < a ==> rank(s[k]) < rank(s[lo]))
    && (forall k :: a <= k < b ==> rank(s[k]) <= rank(s[lo]))
    && (forall k :: b <= k < c ==> rank(s[k]) == rank(s[lo]))
    && (forall k :: c <= k < hi ==> rank(s[lo]) <= rank(s[k]))
  }

  lemma BandStart<T>(rank: T -> int, s: seq<T>, lo: int, a: int, b: int, hi: int)
    requires 0 <= lo < a <= b < hi <= |s|
    requires Scanned(rank, s, lo, a, b, b, hi)
    ensures Banded(rank, s, lo, a, b, b, hi)
    ensures !Lt(rank, s[lo], s[hi - 1]) ==> Banded(rank, Swapped(s, b, hi - 1), lo, a, b, b + 1, hi)
  {
  }

  lemma BandStep<T>(rank: T -> int, s: seq<T>, lo: int, a: int, b: int, c: int, hi: int)
    requires 0 <= lo < a <= b <= c <= hi <= |s|
    requires Banded(rank, s, lo, a, b, c, hi)
    ensures lo < b - 1 && !Lt(rank, s[b - 1], s[lo]) ==> a < b && Banded(rank, s, lo, a, b - 1, c, hi)
    ensures a < b && Lt(rank, s[a], s[lo]) ==> Banded(rank, s, lo, a + 1, b, c, hi)
  {
  }

  /** An element equal to the pivot, at m, may be exchanged with the last one that is not above it. */
  lemma BandSkim<T>(rank: T -> int, s: seq<T>, lo: int, a: int, b: int, c: int, hi: int, m: int)
    requires 0 <= lo < a <= b <= c <= hi <= |s|
    requires Banded(rank, s, lo, a, b, c, hi)
    requires lo < m < b && !Lt(rank, s[m], s[lo])
    ensures a < b && Banded(rank, Swapped(s, m, b - 1), lo, a, b - 1, c, hi)
  {
  }

  lemma BandSwap<T>(rank: T -> int, s: seq<T>, lo: int, a: int, b: int, c: int, hi: int)
    requires 0 <= lo < a < b <= c <= hi <= |s|
    requires Banded(rank, s, lo, a, b, c, hi)
    requires !Lt(rank, s[a], s[lo]) && Lt(rank, s[b - 1], s[lo])
    ensures a + 1 <= b - 1 && Banded(rank, Swapped(s, a, b - 1), lo, a + 1, b - 1, c, hi)
  {
  }

  /** If the last element equals the pivot, it joins the middle. */
  method SkimLast<T(!new)>(data: Data<T>, lo: int, ghost a: int, ghost b: int, c0: int, hi: int) returns (c: int)
    requires data.Valid()
    requires 0 <= lo < a <= b && lo < c0 < hi <= data.arr.Length
    requires data.Ordered() ==> b == c0 && Scanned(data.rank, data.arr[..], lo, a, b, c0, hi)
    modifies data`calls, data`swaps, data.arr
    ensures data.Valid()
    ensures Permuted(old(data.arr[..]), data.arr[..], lo, hi)
    ensures c0 <= c <= c0 + 1
    ensures data.Ordered() ==> b <= c && Banded(data.rank, data.arr[..], lo, a, b, c, hi)
    ensures data.calls == old(data.calls) + 1 && data.swaps == old(data.swaps) + (c - c0)
  {
    hide *;
    c := c0;
    ghost var s := data.arr[..];
    PermutedSame(s, lo, hi);
    assert data.arr[hi - 1] == s[hi - 1] && data.arr[lo] == s[lo];
    if data.Ordered() { BandStart(data.rank, s, lo, a, b, hi); }
    var less := data.Less(lo, hi - 1);
    if !less {
      data.Swap(c, hi - 1);
      SwappedPermuted(s, c, hi - 1, lo, hi);
      c := c + 1;
    }
  }

  /** If the element at m equals the pivot, it joins the middle. */
  method SkimMiddle<T(!new)>(data: Data<T>, lo: int, ghost a: int, b0: int, ghost c: int, ghost hi: int, m: int) returns (b: int)
    requires data.Valid()
    requires 0 <= lo < a && lo < m < b0 <= hi <= data.arr.Length
    requires data.Ordered() ==> a <= b0 <= c <= hi && Banded(data.rank, data.arr[..], lo, a, b0, c, hi)
    modifies data`calls, data`swaps, data.arr
    ensures data.Valid()
    ensures Permuted(old(data.arr[..]), data.arr[..], lo, hi)
    ensures b0 - 1 <= b <= b0
    ensures data.Ordered() ==> a <= b <= c && Banded(data.rank, data.arr[..], lo, a, b, c, hi)
    ensures data.calls == old(data.calls) + 1 && data.swaps == old(data.swaps) + (b0 - b)
  {
    hide *;
    b := b0;
    ghost var s := data.arr[..];
    PermutedSame(s, lo, hi);
    assert data.arr[m] == s[m] && data.arr[lo] == s[lo];
    var less := data.Less(m, lo);
    if !less {
      if data.Ordered() { BandSkim(data.rank, s, lo, a, b, c, hi, m); }
      data.Swap(m, b - 1);
      SwappedPermuted(s, m, b - 1, lo, hi);
      b := b - 1;
    }
  }

  /** Looks at three elements; those equal to the pivot join the middle. */
  method SkimDuplicates<T(!new)>(data: Data<T>, lo: int, ghost a: int, b0: int, c0: int, hi: int, m: int)
    returns (b: int, c: int, dups: int)
    requires data.Valid()
    requires 0 <= lo < a <= b0 && lo + 12 < hi <= data.arr.Length
    requires c0 <= b0 <= c0 + 1 && c0 < hi && hi - c0 < (hi - lo) / 4 && m == lo + (hi - lo) / 2
    requires data.Ordered() ==> b0 == c0 && Scanned(data.rank, data.arr[..], lo, a, b0, c0, hi)
    modifies data`calls, data`swaps, data.arr
    ensures data.Valid()
    ensures Permuted(old(data.arr[..]), data.arr[..], lo, hi)
    ensures lo < b <= b0 && c0 <= c <= c0 + 1 && dups == (b0 - b) + (c - c0)
    ensures data.Ordered() ==> a <= b <= c && Banded(data.rank, data.arr[..], lo, a, b, c, hi)
    ensures data.calls == old(data.calls) + 3 && data.swaps <= old(data.swaps) + 2
  {
    hide *;
    b, c, dups := b0, c0, 0;
    ghost var s := data.arr[..];
    c := SkimLast(data, lo, a, b, c, hi);
    dups := dups + (c - c0);

    ghost var t := data.arr[..];
    assert data.arr[b - 1] == t[b - 1] && data.arr[lo] == t[lo];
    if data.Ordered() { BandStep(data.rank, t, lo, a, b, c, hi); }
    var less := data.Less(b - 1, lo);
    if !less {
      b := b - 1;
      dups := dups + 1;
    }

    var b1 := b;
    b := SkimMiddle(data, lo, a, b, c, hi, m);
    PermutedTransitive(s, t, data.arr[..], lo, hi);
    dups := dups + (b1 - b);
  }

  /** Moves b down past the elements that are not below the pivot. */
  method GatherDown<T(!new)>(data: Data<T>, lo: int, a: int, from: int, ghost c: int, ghost hi: int) returns (b: int)
    requires data.Valid()
    requires 0 <= lo < a && lo < from <= hi <= data.arr.Length
    requires data.Ordered() ==> a <= from <= c <= hi && Banded(data.rank, data.arr[..], lo, a, from, c, hi)
    modifies data`calls
    ensures data.Valid()
    ensures lo < b <= from && (a <= b || b == from)
    ensures data.Ordered() ==> a <= b <= c && Banded(data.rank, data.arr[..], lo, a, b, c, hi)
    ensures data.Ordered() && a < b ==> Lt(data.rank, data.arr[b - 1], data.arr[lo])
    ensures data.calls <= old(data.calls) + (from - b) + if a < b then 1 else 0
  {
    hide *;
    ghost var s := data.arr[..];
    b := from;
    while a < b
      invariant data.Valid()
      invariant lo < b <= from && (a <= b || b == from)
      invariant data.Ordered() ==> a <= b <= c && Banded(data.rank, s, lo, a, b, c, hi)
      invariant data.calls <= old(data.calls) + (from - b)
    {
      assert data.arr[b - 1] == s[b - 1] && data.arr[lo] == s[lo];
      var less := data.Less(b - 1, lo);
      if less { return; }
      if data.Ordered() { BandStep(data.rank, s, lo, a, b, c, hi); }
      b := b - 1;
    }
  }

  /** Moves a up past the elements below the pivot. */
  method GatherUp<T(!new)>(data: Data<T>, lo: int, from: int, b: int, ghost c: int, ghost hi: int) returns (a: int)
    requires data.Valid()
    requires 0 <= lo < from && b <= hi <= data.arr.Length
    requires data.Ordered() ==> from <= b <= c <= hi && Banded(data.rank, data.arr[..], lo, from, b, c, hi)
    modifies data`calls
    ensures data.Valid()
    ensures from <= a && (a <= b || a == from)
    ensures data.Ordered() ==> a <= b && Banded(data.rank, data.arr[..], lo, a, b, c, hi)
    ensures data.Ordered() && a < b ==> !Lt(data.rank, data.arr[a], data.arr[lo])
    ensures data.calls <= old(data.calls) + (a - from) + if a < b then 1 else 0
  {
    hide *;
    ghost var s := data.arr[..];
    a := from;
    while a < b
      invariant data.Valid()
      invariant from <= a && (a <= b || a == from)
      invariant data.Ordered() ==> a <= b && Banded(data.rank, s, lo, a, b, c, hi)
      invariant data.calls <= old(data.calls) + (a - from)
    {
      assert data.arr[a] == s[a] && data.arr[lo] == s[lo];
      var less := data.Less(a, lo);
      if !less { return; }
      if data.Ordered() { BandStep(data.rank, s, lo, a, b, c, hi); }
      a := a + 1;
    }
  }

  /** Moves the elements equal to the pivot, among those not above it, to the middle. */
  method GatherDuplicates<T(!new)>(data: Data<T>, lo: int, a0: int, b0: int, ghost c: int, ghost hi: int) returns (b: int)
    requires data.Valid()
    requires 0 <= lo < a0 <= hi && lo < b0 <= hi <= data.arr.Length
    requires data.Ordered() ==> a0 <= b0 <= c <= hi && Banded(data.rank, data.arr[..], lo, a0, b0, c, hi)
    modifies data`calls, data`swaps, data.arr
    ensures data.Valid()
    ensures Permuted(old(data.arr[..]), data.arr[..], lo, hi)
    ensures lo < b <= b0
    ensures data.Ordered() ==> b <= c && Banded(data.rank, data.arr[..], lo, b, b, c, hi)
    ensures data.calls <= old(data.calls) + (hi - lo) && data.swaps <= old(data.swaps) + (hi - lo)
  {
    hide *;
    var a := a0;
    b := b0;
    ghost var s := data.arr[..];
    PermutedSame(s, lo, hi);
    while true
      invariant data.Valid()
      invariant a0 <= a && lo < b <= b0 && (a <= b + 1 || a == a0)
      invariant Permuted(s, data.arr[..], lo, hi)
      invariant data.Ordered() ==> a <= b <= c && Banded(data.rank, data.arr[..], lo, a, b, c, hi)
      invariant data.calls <= old(data.calls) + (a - a0) + (b0 - b) && data.swaps <= old(data.swaps) + (b0 - b)
      decreases b - a + 1
    {
      b := GatherDown(data, lo, a, b, c, hi);
      a := GatherUp(data, lo, a, b, c, hi);
      if a >= b { break; }
      ghost var t := data.arr[..];
      assert data.arr[a] == t[a] && data.arr[b - 1] == t[b - 1] && data.arr[lo] == t[lo];
      if data.Ordered() { BandSwap(data.rank, t, lo, a, b, c, hi); }
      PermutedSwap(s, t, a, b - 1, lo, hi);
      data.Swap(a, b - 1);
      a := a + 1;
      b := b - 1;
    }
  }

  /** If there may be many elements equal to the pivot, gathers them in the middle. */
  method Protect<T(!new)>(data: Data<T>, lo: int, a0: int, b0: int, c0: int, hi: int, m: int) returns (b: int, c: int, a: int)
    requires data.Valid()
    requires 0 <= lo < a0 <= b0 && lo + 12 < hi <= data.arr.Length
    requires c0 <= b0 <= c0 + 1 && lo < c0 < hi && m == lo + (hi - lo) / 2
    requires data.Ordered() ==> b0 == c0 && Scanned(data.rank, data.arr[..], lo, a0, b0, c0, hi)
    modifies data`calls, data`swaps, data.arr
    ensures data.Valid()
    ensures Permuted(old(data.arr[..]), data.arr[..], lo, hi)
    ensures lo < b <= b0 && c0 <= c <= c0 + 1
    ensures data.Ordered() ==> lo < a <= b <= c && Banded(data.rank, data.arr[..], lo, a, b, c, hi)
    ensures data.calls <= old(data.calls) + 3 + (hi - lo) && data.swaps <= old(data.swaps) + 2 + (hi - lo)
  {
    hide *;
    ghost var s := data.arr[..];
    PermutedSame(s, lo, hi);
    a, b, c := a0, b0, c0;
    if data.Ordered() { BandStart(data.rank, s, lo, a, b, hi); }
    var protect := hi - c < 5;
    if !protect && hi - c < (hi - lo) / 4 {
      var dups;
      b, c, dups := SkimDuplicates(data, lo, a, b, c, hi, m);
      protect := dups > 1;
    }
    if protect {
      ghost var t := data.arr[..];
      b := GatherDuplicates(data, lo, a, b, c, hi);
      PermutedTransitive(s, t, data.arr[..], lo, hi);
      a := b;
    }
  }

  // ---------- The pivot step ----------

  /** Up to mlo nothing is above the rest, from mhi on nothing is below the rest, and mlo..mhi is all equal. */
  ghost predicate Parted<T>(rank: T -> int, s: seq<T>, lo: int, mlo: int, mhi: int, hi: int)
    requires 0 <= lo <= mlo <= mhi <= hi <= |s|
  {
    && AllLe(rank, s, lo, mlo, mlo, hi)
    && AllLe(rank, s, lo, mhi, mhi, hi)
    && AllLe(rank, s, mlo, mhi, mlo, mhi)
  }

  lemma BandParted<T>(rank: T -> int, s: seq<T>, lo: int, a: int, b: int, c: int, hi: int)
    requires 0 <= lo < a <= b <= c <= hi <= |s|
    requires Banded(rank, s, lo, a, b, c, hi)
    ensures Parted(rank, Swapped(s, lo, b - 1), lo, b - 1, c, hi)
  {
    var t := Swapped(s, lo, b - 1);
    var pivot := rank(s[lo]);
    assert forall k :: lo <= k < b - 1 ==> rank(t[k]) <= pivot;
    assert forall k :: b - 1 <= k < c ==> rank(t[k]) == pivot;
    assert forall k :: c <= k < hi ==> pivot <= rank(t[k]);
  }

  /** Whatever the comparator answers, the two ranges left to sort do not overlap and are strictly
      smaller; for a strict weak order, everything in between is in its final place. */
  method DoPivot<T(!new)>(data: Data<T>, lo: int, hi: int) returns (midlo: int, midhi: int)
    requires data.Valid()
    requires 0 <= lo && lo + 12 < hi <= data.arr.Length
    modifies data`calls, data`swaps, data.arr
    ensures data.Valid()
    ensures Permuted(old(data.arr[..]), data.arr[..], lo, hi)
    ensures lo <= midlo <= midhi <= hi && midlo < hi && lo < midhi
    ensures data.Ordered() ==> midlo < midhi && Parted(data.rank, data.arr[..], lo, midlo, midhi, hi)
    ensures data.calls <= old(data.calls) + 7 * (hi - lo) && data.swaps <= old(data.swaps) + 7 * (hi - lo)
  {
    hide *;
    ghost var s := data.arr[..];
    var m := ChoosePivot(data, lo, hi);
    ghost var t := data.arr[..];
    var a, b, c := Partition(data, lo, hi);
    PermutedTransitive(s, t, data.arr[..], lo, hi);
    t := data.arr[..];
    b, c, a := Protect(data, lo, a, b, c, hi, m);
    PermutedTransitive(s, t, data.arr[..], lo, hi);
    t := data.arr[..];
    if data.Ordered() { BandParted(data.rank, t, lo, a, b, c, hi); }
    PermutedSwap(s, t, lo, b - 1, lo, hi);
    data.Swap(lo, b - 1);
    return b - 1, c;
  }
}
