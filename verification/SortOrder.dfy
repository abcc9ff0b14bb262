/**
 Comparators, orders and the sequence vocabulary of the sort package.

 A comparator is asked one question after another.  less(k, x, y) is its answer to
 question number k, "does x sort before y?", so a comparator that contradicts itself,
 or answers at random, is simply one whose answer depends on k.
 */
module SortOrder {

  /** The comparators for which sorting means something: the answer does not depend on
      when the question is asked, and it is a strict weak order. */
  ghost predicate StrictWeak<T(!new)>(less: (nat, T, T) -> bool)
  {
    && (forall k: nat, x, y :: less(k, x, y) == less(0, x, y))
    && (forall x :: !less(0, x, x))
    && (forall x, y, z :: less(0, x, y) && less(0, y, z) ==> less(0, x, z))
    && (forall x, y, z :: less(0, x, y) ==> less(0, x, z) || less(0, z, y))
  }

  /** No element sorts before one that precedes it. */
  ghost predicate SortedBy<T(!new)>(less: (nat, T, T) -> bool, s: seq<T>)
  {
    forall i, j :: 0 <= i < j < |s| ==> !less(0, s[j], s[i])
  }

  /** The elements of s that are equivalent to x, in the order in which s has them. */
  ghost function Equivalents<T>(less: (nat, T, T) -> bool, s: seq<T>, x: T): seq<T>
  {
    if s == [] then [] else
    (if !less(0, s[0], x) && !less(0, x, s[0]) then [s[0]] else []) + Equivalents(less, s[1..], x)
  }

  // ---------- A strict weak order, on the elements of one sequence, is a ranking ----------

  /** How many elements of s sort before x. */
  ghost function Below<T>(less: (nat, T, T) -> bool, s: seq<T>, x: T): nat
  {
    if s == [] then 0 else (if less(0, s[0], x) then 1 else 0) + Below(less, s[1..], x)
  }

  lemma {:induction false} BelowMonotone<T>(less: (nat, T, T) -> bool, s: seq<T>, x: T, y: T)
    requires forall z :: z in s && less(0, z, x) ==> less(0, z, y)
    ensures Below(less, s, x) <= Below(less, s, y)
    ensures (exists z :: z in s && less(0, z, y) && !less(0, z, x)) ==> Below(less, s, x) < Below(less, s, y)
  {
    if s != [] {
      assert s[0] in s;
      assert forall z :: z in s <==> z == s[0] || z in s[1..];
      BelowMonotone(less, s[1..], x, y);
    }
  }

  /** rank orders the elements of s exactly as the comparator does. */
  ghost predicate Respects<T(!new)>(less: (nat, T, T) -> bool, rank: T -> int, s: seq<T>)
  {
    forall k: nat, x, y :: x in s && y in s ==> less(k, x, y) == (rank(x) < rank(y))
  }

  ghost function RankOf<T>(less: (nat, T, T) -> bool, s: seq<T>): T -> int
  {
    x => Below(less, s, x)
  }

  lemma RankOfRespects<T(!new)>(less: (nat, T, T) -> bool, s: seq<T>)
    requires StrictWeak(less)
    ensures Respects(less, RankOf(less, s), s)
  {
    var rank := RankOf(less, s);
    forall k: nat, x, y | x in s && y in s
      ensures less(k, x, y) == (rank(x) < rank(y))
    {
      assert less(k, x, y) == less(0, x, y);
      if less(0, x, y) {
        BelowMonotone(less, s, x, y);
      } else {
        BelowMonotone(less, s, y, x);
      }
    }
  }

  // ---------- Ranked sequences ----------

  ghost predicate Lt<T>(rank: T -> int, x: T, y: T)
  {
    rank(x) < rank(y)
  }

  /** s[a..b] is in rank order. */
  ghost predicate Sorted<T>(rank: T -> int, s: seq<T>, a: int, b: int)
    requires 0 <= a <= b <= |s|
  {
    forall i, j :: a <= i < j < b ==> rank(s[i]) <= rank(s[j])
  }

  /** No element of s[a..b] ranks above an element of s[c..d]. */
  ghost predicate AllLe<T>(rank: T -> int, s: seq<T>, a: int, b: int, c: int, d: int)
    requires 0 <= a <= b <= |s| && 0 <= c <= d <= |s|
  {
    forall i, j :: a <= i < b && c <= j < d ==> rank(s[i]) <= rank(s[j])
  }

  /** The elements of s of rank r, in the order in which s has them. */
  ghost function Class<T>(rank: T -> int, s: seq<T>, r: int): seq<T>
  {
    if s == [] then [] else (if rank(s[0]) == r then [s[0]] else []) + Class(rank, s[1..], r)
  }

  /** t has the elements of s, and elements of equal rank are in the same order in both. */
  ghost predicate Stable<T>(rank: T -> int, s: seq<T>, t: seq<T>)
  {
    forall r :: Class(rank, s, r) == Class(rank, t, r)
  }

  lemma StableSame<T>(rank: T -> int, s: seq<T>)
    ensures Stable(rank, s, s)
  {
  }

  lemma StableTransitive<T>(rank: T -> int, s: seq<T>, t: seq<T>, u: seq<T>)
    requires Stable(rank, s, t) && Stable(rank, t, u)
    ensures Stable(rank, s, u)
  {
    forall r ensures Class(rank, s, r) == Class(rank, u, r)
    {
      assert Class(rank, s, r) == Class(rank, t, r);
    }
  }

  lemma {:induction false} ClassConcat<T>(rank: T -> int, s: seq<T>, t: seq<T>, r: int)
    ensures Class(rank, s + t, r) == Class(rank, s, r) + Class(rank, t, r)
  {
    if s == [] {
      assert s + t == t;
    } else {
      var head := if rank(s[0]) == r then [s[0]] else [];
      assert (s + t)[0] == s[0] && (s + t)[1..] == s[1..] + t;
      ClassConcat(rank, s[1..], t, r);
      assert head + (Class(rank, s[1..], r) + Class(rank, t, r)) == head + Class(rank, s[1..], r) + Class(rank, t, r);
    }
  }

  lemma {:induction false} ClassEmpty<T>(rank: T -> int, s: seq<T>, r: int)
    requires forall i :: 0 <= i < |s| ==> rank(s[i]) != r
    ensures Class(rank, s, r) == []
  {
    if s != [] {
      ClassEmpty(rank, s[1..], r);
    }
  }

  // ---------- Rearrangements ----------

  /** t rearranges s[a..b] and leaves the rest of s alone. */
  ghost predicate Permuted<T>(s: seq<T>, t: seq<T>, a: int, b: int)
  {
    && 0 <= a <= b <= |s| == |t|
    && t[..a] == s[..a]
    && t[b..] == s[b..]
    && multiset(t[a..b]) == multiset(s[a..b])
  }

  lemma PermutedSame<T>(s: seq<T>, a: int, b: int)
    requires 0 <= a <= b <= |s|
    ensures Permuted(s, s, a, b)
  {
  }

  lemma PermutedTransitive<T>(s: seq<T>, t: seq<T>, u: seq<T>, a: int, b: int)
    requires Permuted(s, t, a, b) && Permuted(t, u, a, b)
    ensures Permuted(s, u, a, b)
  {
  }

  lemma SliceOfThree<T>(s: seq<T>, a: int, c: int, d: int, b: int)
    requires 0 <= a <= c <= d <= b <= |s|
    ensures s[..a] == s[..c][..a] && s[b..] == s[d..][b - d..]
    ensures s[a..b] == s[..c][a..] + s[c..d] + s[d..][..b - d]
  {
  }

  lemma PermutedWiden<T>(s: seq<T>, t: seq<T>, c: int, d: int, a: int, b: int)
    requires Permuted(s, t, c, d)
    requires 0 <= a <= c && d <= b <= |s|
    ensures Permuted(s, t, a, b)
  {
    SliceOfThree(s, a, c, d, b);
    SliceOfThree(t, a, c, d, b);
  }

  lemma PermutedWhole<T>(s: seq<T>, t: seq<T>, a: int, b: int)
    requires Permuted(s, t, a, b)
    ensures multiset(s) == multiset(t)
    ensures forall x :: x in s <==> x in t
    ensures forall i :: 0 <= i < a || b <= i < |s| ==> t[i] == s[i]
  {
    PermutedWiden(s, t, a, b, 0, |s|);
    assert s[0..|s|] == s && t[0..|t|] == t;
    forall x ensures x in s <==> x in t
    {
      assert x in s <==> x in multiset(s);
      assert x in t <==> x in multiset(t);
    }
    forall i | 0 <= i < a || b <= i < |s| ensures t[i] == s[i]
    {
      if i < a { assert t[..a][i] == s[..a][i]; } else { assert t[b..][i - b] == s[b..][i - b]; }
    }
  }

  /** Every element of a rearranged range comes from that range. */
  lemma PermutedSource<T>(s: seq<T>, t: seq<T>, a: int, b: int, i: int) returns (j: int)
    requires Permuted(s, t, a, b)
    requires a <= i < b
    ensures a <= j < b && t[i] == s[j]
  {
    assert t[i] == t[a..b][i - a];
    assert t[i] in multiset(t[a..b]);
    assert t[i] in s[a..b];
    var k :| 0 <= k < |s[a..b]| && s[a..b][k] == t[i];
    j := a + k;
  }

  /** Rearranging inside two ranges keeps one of them below the other. */
  lemma AllLePermuted<T>(rank: T -> int, s: seq<T>, t: seq<T>, p: int, q: int, a: int, b: int, c: int, d: int)
    requires Permuted(s, t, p, q)
    requires 0 <= a <= b <= |s| && 0 <= c <= d <= |s|
    requires a <= p <= q <= b || q <= a || b <= p
    requires c <= p <= q <= d || q <= c || d <= p
    requires AllLe(rank, s, a, b, c, d)
    ensures AllLe(rank, t, a, b, c, d)
  {
    PermutedWhole(s, t, p, q);
    forall i, j | a <= i < b && c <= j < d
      ensures rank(t[i]) <= rank(t[j])
    {
      var i' := i;
      if p <= i < q { i' := PermutedSource(s, t, p, q, i); }
      var j' := j;
      if p <= j < q { j' := PermutedSource(s, t, p, q, j); }
      assert rank(s[i']) <= rank(s[j']);
    }
  }

  lemma SortedFrame<T>(rank: T -> int, s: seq<T>, t: seq<T>, p: int, q: int, a: int, b: int)
    requires Permuted(s, t, p, q)
    requires 0 <= a <= b <= |s| && (b <= p || q <= a)
    requires Sorted(rank, s, a, b)
    ensures Sorted(rank, t, a, b)
  {
    PermutedWhole(s, t, p, q);
  }

  lemma SortedJoin<T>(rank: T -> int, s: seq<T>, a: int, m: int, b: int)
    requires 0 <= a <= m <= b <= |s|
    requires Sorted(rank, s, a, m) && Sorted(rank, s, m, b) && AllLe(rank, s, a, m, m, b)
    ensures Sorted(rank, s, a, b)
  {
  }

  ghost function Swapped<T>(s: seq<T>, i: int, j: int): (t: seq<T>)
    requires 0 <= i < |s| && 0 <= j < |s|
    ensures |t| == |s|
  {
    s[i := s[j]][j := s[i]]
  }

  lemma SwappedPermuted<T>(s: seq<T>, i: int, j: int, a: int, b: int)
    requires 0 <= a <= i < b <= |s| && a <= j < b
    ensures Permuted(s, Swapped(s, i, j), a, b)
  {
    var t := Swapped(s, i, j);
    assert t[a..b] == s[a..b][i - a := s[j]][j - a := s[i]];
    assert t[..a] == s[..a] && t[b..] == s[b..];
  }

  lemma PermutedSwap<T>(s: seq<T>, t: seq<T>, i: int, j: int, a: int, b: int)
    requires Permuted(s, t, a, b) && a <= i < b && a <= j < b
    ensures Permuted(s, Swapped(t, i, j), a, b)
  {
    SwappedPermuted(t, i, j, a, b);
  }

  /** x u v y becomes x v u y, where u is s[a..m] and v is s[m..b]. */
  ghost function Rotated<T>(s: seq<T>, a: int, m: int, b: int): (t: seq<T>)
    requires 0 <= a <= m <= b <= |s|
    ensures |t| == |s|
  {
    seq(|s|, k requires 0 <= k < |s| =>
      if a <= k < a + b - m then s[k + m - a] else if a + b - m <= k < b then s[k - (b - m)] else s[k])
  }

  lemma RotatedBlocks<T>(s: seq<T>, a: int, m: int, b: int)
    requires 0 <= a <= m <= b <= |s|
    ensures Rotated(s, a, m, b) == s[..a] + s[m..b] + s[a..m] + s[b..]
  {
  }

  lemma RotatedPermuted<T>(s: seq<T>, a: int, m: int, b: int)
    requires 0 <= a <= m <= b <= |s|
    ensures Permuted(s, Rotated(s, a, m, b), a, b)
  {
    var t := Rotated(s, a, m, b);
    RotatedBlocks(s, a, m, b);
    assert s[a..b] == s[a..m] + s[m..b];
    assert t[a..b] == s[m..b] + s[a..m];
    assert t[..a] == s[..a] && t[b..] == s[b..];
  }

  lemma ClassOfFour<T>(rank: T -> int, x: seq<T>, u: seq<T>, v: seq<T>, y: seq<T>, r: int)
    ensures Class(rank, x + u + v + y, r)
         == Class(rank, x, r) + (Class(rank, u, r) + Class(rank, v, r)) + Class(rank, y, r)
  {
    ClassConcat(rank, x + u + v, y, r);
    ClassConcat(rank, x + u, v, r);
    ClassConcat(rank, x, u, r);
  }

  /** Exchanging two neighbouring blocks is stable when no rank occurs in both. */
  lemma RotatedStable<T>(rank: T -> int, s: seq<T>, a: int, m: int, b: int)
    requires 0 <= a <= m <= b <= |s|
    requires forall i, j :: a <= i < m && m <= j < b ==> rank(s[i]) != rank(s[j])
    ensures Stable(rank, s, Rotated(s, a, m, b))
  {
    hide Class, Rotated;
    var x, u, v, y := s[..a], s[a..m], s[m..b], s[b..];
    assert s == x + u + v + y;
    RotatedBlocks(s, a, m, b);
    forall r ensures Class(rank, s, r) == Class(rank, Rotated(s, a, m, b), r)
    {
      ClassOfFour(rank, x, u, v, y, r);
      ClassOfFour(rank, x, v, u, y, r);
      assert Class(rank, u, r) == [] || Class(rank, v, r) == [] by {
        if i: int :| 0 <= i < |u| && rank(u[i]) == r {
          assert u[i] == s[a + i];
          ClassEmpty(rank, v, r);
        } else {
          ClassEmpty(rank, u, r);
        }
      }
    }
  }
}
