/**
 The collection that the sorting routines see: they may only ask Less and call Swap.
 */
module SortData {
  import opened SortOrder

  class Data<T(!new)> {
    const arr: array<T>
    const less: (nat, T, T) -> bool
    /** For a strict weak order, a numbering of the elements that the comparator follows. */
    ghost const rank: T -> int
    /** The number of questions asked, and of exchanges made, so far. */
    var calls: nat
    var swaps: nat

    constructor (arr: array<T>, less: (nat, T, T) -> bool)
      ensures Valid() && this.arr == arr && this.less == less && calls == swaps == 0
    {
      this.arr := arr;
      this.less := less;
      rank := RankOf(less, arr[..]);
      calls, swaps := 0, 0;
      new;
      if StrictWeak(less) {
        RankOfRespects(less, arr[..]);
      }
    }

    ghost predicate Ordered()
    {
      StrictWeak(less)
    }

    ghost predicate Valid()
      reads this, arr
    {
      Ordered() ==> Respects(less, rank, arr[..])
    }

    method Less(i: int, j: int) returns (b: bool)
      requires Valid()
      requires 0 <= i < arr.Length && 0 <= j < arr.Length
      modifies this`calls
      ensures Valid()
      ensures calls == old(calls) + 1
      ensures b == less(old(calls), arr[i], arr[j])
      ensures Ordered() ==> b == Lt(rank, arr[i], arr[j])
    {
      b := less(calls, arr[i], arr[j]);
      calls := calls + 1;
      assert arr[i] in arr[..] && arr[j] in arr[..];
    }

    method Swap(i: int, j: int)
      requires Valid()
      requires 0 <= i < arr.Length && 0 <= j < arr.Length
      modifies arr, this`swaps
      ensures Valid()
      ensures swaps == old(swaps) + 1
      ensures arr[..] == Swapped(old(arr[..]), i, j)
    {
      ghost var s := arr[..];
      arr[i], arr[j] := arr[j], arr[i];
      swaps := swaps + 1;
      assert arr[..] == Swapped(s, i, j);
      forall x | x in arr[..] ensures x in s
      {
        var k :| 0 <= k < |arr[..]| && arr[..][k] == x;
        assert x == s[if k == i then j else if k == j then i else k];
      }
    }
  }
}
