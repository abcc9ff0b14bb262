/**
 What a byte replacer computes: a left-to-right rewrite without overlapping matches, in
 which the earliest pair that matches wins.
 */
module ReplaceSpec {
  import opened Wrappers
  import opened Bytes

  datatype Pair = Pair(key: seq<Byte>, val: seq<Byte>)

  /** A pair matches where its key is a prefix of what is left, except that the empty key
      does not match right after an empty match. */
  ghost predicate Matches(p: Pair, s: seq<Byte>, ignoreEmpty: bool)
  {
    p.key <= s && !(ignoreEmpty && p.key == [])
  }

  /** The earliest pair, from pair i on, that matches. */
  ghost function FirstMatch(pairs: seq<Pair>, i: nat, s: seq<Byte>, ignoreEmpty: bool): (m: Option<nat>)
    requires i <= |pairs|
    ensures m.Some? ==> i <= m.value < |pairs| && Matches(pairs[m.value], s, ignoreEmpty)
    ensures m.Some? ==> forall j :: i <= j < m.value ==> !Matches(pairs[j], s, ignoreEmpty)
    ensures m.None? ==> forall j :: i <= j < |pairs| ==> !Matches(pairs[j], s, ignoreEmpty)
    decreases |pairs| - i
  {
    if i == |pairs| then None
    else if Matches(pairs[i], s, ignoreEmpty) then Some(i)
    else FirstMatch(pairs, i + 1, s, ignoreEmpty)
  }

  ghost function Rewrite(pairs: seq<Pair>, s: seq<Byte>, prevEmpty: bool): seq<Byte>
    decreases |s|, if prevEmpty then 0 else 1
  {
    match FirstMatch(pairs, 0, s, prevEmpty)
    case Some(i) => pairs[i].val + Rewrite(pairs, s[|pairs[i].key|..], pairs[i].key == [])
    case None => if s == [] then [] else [s[0]] + Rewrite(pairs, s[1..], false)
  }

  /** By how much the replacements lengthen s, not counting what other replacements shorten. */
  ghost function Growth(pairs: seq<Pair>, s: seq<Byte>, prevEmpty: bool): nat
    decreases |s|, if prevEmpty then 0 else 1
  {
    match FirstMatch(pairs, 0, s, prevEmpty)
    case Some(i) =>
      Excess(|pairs[i].val|, |pairs[i].key|) + Growth(pairs, s[|pairs[i].key|..], pairs[i].key == [])
    case None => if s == [] then 0 else Growth(pairs, s[1..], false)
  }

  ghost function Excess(m: nat, n: nat): nat
  {
    if m > n then m - n else 0
  }

  lemma FirstMatchIs(pairs: seq<Pair>, s: seq<Byte>, ignoreEmpty: bool, i: nat)
    requires i < |pairs| && Matches(pairs[i], s, ignoreEmpty)
    requires forall j :: 0 <= j < i ==> !Matches(pairs[j], s, ignoreEmpty)
    ensures FirstMatch(pairs, 0, s, ignoreEmpty) == Some(i)
  {
  }

  lemma FirstMatchFits(pairs: seq<Pair>, s: seq<Byte>, ignoreEmpty: bool)
    ensures match FirstMatch(pairs, 0, s, ignoreEmpty)
      case Some(i) => i < |pairs| && pairs[i].key <= s && (ignoreEmpty ==> pairs[i].key != [])
      case None => true
  {
  }
}
