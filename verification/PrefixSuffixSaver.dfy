/**
 A writer that remembers both ends of its output, up to N bytes each.
 */
module PrefixSuffixSaver {
  import opened Bytes
  import ParseUint

  /** The first n bytes, or all if there are fewer. */
  function First(s: Str, n: nat): Str
  {
    s[..Least(n, |s|)]
  }

  /** The last n bytes, or all if there are fewer. */
  function Last(s: Str, n: nat): Str
  {
    s[|s| - Least(n, |s|)..]
  }

  /** What is behind the first n bytes. */
  function Behind(s: Str, n: nat): Str
  {
    s[Least(n, |s|)..]
  }

  /** A ring buffer, beginning with its oldest byte. */
  function Unrotated(ring: Str, at: nat): Str
    requires at <= |ring|
  {
    ring[at..] + ring[..at]
  }

  function Decimal(n: nat): Str
  {
    if n < 10 then [48 + n] else Decimal(n / 10) + [48 + n % 10]
  }

  /** The digits of a number mean the number, and there are no more of them than needed. */
  lemma {:induction false} DecimalMeans(n: nat)
    ensures ParseUint.AllDigits(Decimal(n), 10) && ParseUint.Value(Decimal(n), 10) == n
    ensures n > 0 ==> Decimal(n)[0] != '0' as int
    ensures n == 0 ==> Decimal(n) == Ascii("0")
  {
    var s := Decimal(n);
    if n < 10 {
      assert s[..0] == [];
    } else {
      DecimalMeans(n / 10);
      assert s[..|s| - 1] == Decimal(n / 10);
      assert forall i :: 0 <= i < |s| - 1 ==> s[i] == Decimal(n / 10)[i];
    }
  }

  const OMITTING: Str := Ascii("\n... omitting ")
  const BYTES: Str := Ascii(" bytes ...\n")

  /** All of what was written, or both its ends and how much is between them.
      A saver that keeps nothing does not say so. */
  function Retained(written: Str, n: nat): Str
  {
    if n == 0 then []
    else if |written| <= 2 * n then written
    else First(written, n) + OMITTING + Decimal(|written| - 2 * n) + BYTES + Last(written, n)
  }

  class PrefixSuffixSaver {
    const N: nat
    var prefix: Str
    var suffix: Str // a ring buffer once it has length N
    var suffixOff: nat
    var skipped: nat
    ghost var written: Str

    ghost predicate Valid()
      reads this
    {
      && prefix == First(written, N)
      && RingOf(Behind(written, N))
    }

    constructor (n: nat)
      ensures Valid() && N == n && written == []
    {
      N := n;
      prefix, suffix, suffixOff, skipped := [], [], 0, 0;
      written := [];
    }

    /** Appends what fits to dst, and returns the rest. */
    method Fill(dst: Str, p: Str) returns (filled: Str, rest: Str)
      requires |dst| <= N
      ensures filled == dst + First(p, N - |dst|) && rest == Behind(p, N - |dst|)
    {
      filled, rest := dst, p;
      var remain := N - |dst|;
      if remain > 0 {
        var add := Least(|p|, remain);
        filled := dst + p[..add];
        rest := p[add..];
      } else {
        assert First(p, 0) == [] && dst + [] == dst;
      }
    }

    method Write(p: Str) returns (n: nat)
      requires Valid()
      modifies this
      ensures Valid() && written == old(written) + p && n == |p|
    {
      hide First, Behind, Last, Unrotated;
      n := |p|;
      var rest := WritePrefix(p);
      WriteSuffix(rest, Behind(written, N));
      written := written + p;
    }

    /** What belongs to the prefix, and the rest. */
    method WritePrefix(p: Str) returns (rest: Str)
      requires prefix == First(written, N)
      modifies this`prefix
      ensures prefix == First(written + p, N)
      ensures Behind(written + p, N) == Behind(written, N) + rest
    {
      FillPrefix(written, p, N);
      FirstSize(written, N);
      hide First, Behind;
      prefix, rest := Fill(prefix, p);
    }

    /** The ring holds the last bytes of tail, and the rest of tail was skipped. */
    ghost predicate RingOf(tail: Str)
      reads this
    {
      && suffixOff <= |suffix| && (suffixOff == 0 || suffixOff < |suffix|)
      && Unrotated(suffix, suffixOff) == Last(tail, N)
      && (suffixOff > 0 ==> |suffix| == N)
      && skipped == (if |tail| > N then |tail| - N else 0)
      && (skipped == 0 ==> suffixOff == 0)
    }

    /** Writes what does not belong to the prefix. */
    method WriteSuffix(more: Str, ghost tail: Str)
      requires RingOf(tail)
      modifies this`suffix, this`suffixOff, this`skipped
      ensures RingOf(tail + more)
    {
      hide First, Behind, Last, Unrotated;
      RingSize(suffix, suffixOff, tail, N);
      var q := more;
      var overage := |q| - N;
      if overage > 0 {
        q := q[overage..];
        skipped := skipped + overage;
      }
      LastOfLast(tail, more, q, N);
      FillRing(suffix, suffixOff, q, N);
      FillSizes(suffix, q, N);
      suffix, q := Fill(suffix, q);
      var _ := Circle(q);
    }

    /** Overwrites a full ring with q, going around at most once. */
    method Circle(q: Str) returns (ghost rounds: nat)
      requires suffixOff <= |suffix| <= N && (suffixOff == 0 || suffixOff < |suffix|)
      requires |q| <= N && (|suffix| == N || (q == [] && suffixOff == 0))
      modifies this`suffix, this`suffixOff, this`skipped
      ensures suffixOff <= |suffix| <= N && (suffixOff == 0 || suffixOff < |suffix|)
      ensures |suffix| == old(|suffix|) && (q == [] ==> suffixOff == old(suffixOff))
      ensures Unrotated(suffix, suffixOff) == Last(old(Unrotated(suffix, suffixOff)) + q, N)
      ensures skipped == old(skipped) + |q| && rounds <= 2
    {
      hide First, Behind, Last, Unrotated;
      ghost var goal := Last(Unrotated(suffix, suffixOff) + q, N);
      rounds := 0;
      var p := q;
      while |p| > 0
        invariant suffixOff <= |suffix| == old(|suffix|) && (suffixOff == 0 || suffixOff < |suffix|)
        invariant |suffix| == N || (p == [] && suffixOff == 0)
        invariant Last(Unrotated(suffix, suffixOff) + p, N) == goal
        invariant skipped + |p| == old(skipped) + |q| && (q == [] ==> suffixOff == old(suffixOff))
        invariant |p| <= N && rounds <= 2 && (rounds == 1 ==> p == [] || suffixOff == 0) && (rounds == 2 ==> p == [])
        decreases |p|
      {
        var n := Least(|suffix| - suffixOff, |p|);
        Overwrite(suffix, suffixOff, p, n);
        suffix := suffix[..suffixOff] + p[..n] + suffix[suffixOff + n..];
        p := p[n..];
        skipped := skipped + n;
        suffixOff := suffixOff + n;
        if suffixOff == N {
          suffixOff := 0;
        }
        rounds := rounds + 1;
      }
      LastOfShort(suffix, suffixOff, p, N);
    }

    /** What is kept, in terms of what was written. */
    lemma Kept()
      requires Valid()
      ensures prefix == First(written, N)
      ensures Unrotated(suffix, suffixOff) == Last(written[|prefix|..], N)
      ensures skipped == if |written| > 2 * N then |written| - 2 * N else 0
      ensures |written| <= 2 * N ==> prefix + suffix == written
    {
      BehindSize(written, N);
    }

    /** All of what was written if it was not too much, or what is left of it, with a note. */
    method Bytes() returns (r: Str)
      requires Valid()
      ensures r == Retained(written, N)
    {
      BehindSize(written, N);
      if |suffix| == 0 {
        return prefix;
      }
      if skipped == 0 {
        assert suffix == Unrotated(suffix, 0);
        return prefix + suffix;
      }
      r := prefix;
      r := r + OMITTING;
      r := r + Decimal(skipped);
      r := r + BYTES;
      r := r + suffix[suffixOff..];
      r := r + suffix[..suffixOff];
      AppendTwice(prefix + OMITTING + Decimal(skipped) + BYTES, suffix[suffixOff..], suffix[..suffixOff]);
      LastOfAll(written, N);
    }
  }

  // ---------- Ends ----------

  lemma FillPrefix(before: Str, p: Str, n: nat)
    ensures var have := First(before, n);
      && First(before + p, n) == have + First(p, n - |have|)
      && Behind(before + p, n) == Behind(before, n) + Behind(p, n - |have|)
  {
  }

  lemma FirstSize(s: Str, n: nat)
    ensures |First(s, n)| <= n
  {
  }

  lemma BehindSize(s: Str, n: nat)
    ensures |Behind(s, n)| == if |s| > n then |s| - n else 0
    ensures |s| <= 2 * n ==> First(s, n) + Last(Behind(s, n), n) == s
  {
  }

  lemma RingSize(ring: Str, at: nat, tail: Str, n: nat)
    requires at <= |ring| && Unrotated(ring, at) == Last(tail, n)
    ensures |ring| == Least(|tail|, n)
  {
  }

  /** What lies further back than n bytes from the end does not matter. */
  lemma LastOfLast(tail: Str, more: Str, q: Str, n: nat)
    requires q == if |more| > n then more[|more| - n..] else more
    ensures Last(tail + more, n) == Last(Last(tail, n) + q, n)
  {
  }

  lemma FillRing(ring: Str, at: nat, q: Str, n: nat)
    requires at <= |ring| <= n && (at > 0 ==> |ring| == n)
    ensures var add := First(q, n - |ring|);
      Unrotated(ring + add, at) + Behind(q, n - |ring|) == Unrotated(ring, at) + q
  {
    var add := First(q, n - |ring|);
    assert add + Behind(q, n - |ring|) == q;
    if at == 0 {
      assert Unrotated(ring + add, 0) == ring + add && Unrotated(ring, 0) == ring;
    } else {
      assert add == [];
    }
  }

  /** Overwriting the oldest bytes is the same as dropping them and appending the more ones. */
  lemma Overwrite(ring: Str, at: nat, q: Str, k: nat)
    requires at + k <= |ring| && k <= |q|
    ensures var next := ring[..at] + q[..k] + ring[at + k..];
      Last(Unrotated(next, if at + k == |ring| then 0 else at + k) + q[k..], |ring|) == Last(Unrotated(ring, at) + q, |ring|)
  {
    var next := ring[..at] + q[..k] + ring[at + k..];
    var at' := if at + k == |ring| then 0 else at + k;
    var u := Unrotated(ring, at);
    assert next[at + k..] == ring[at + k..] && next[..at + k] == ring[..at] + q[..k];
    assert Unrotated(next, at') == u[k..] + q[..k];
    assert Unrotated(next, at') + q[k..] == (u + q)[k..];
  }

  lemma LastOfShort(ring: Str, at: nat, q: Str, n: nat)
    requires at <= |ring| <= n && q == []
    ensures Last(Unrotated(ring, at) + q, n) == Unrotated(ring, at)
  {
  }

  lemma FillSizes(ring: Str, q: Str, n: nat)
    requires |ring| <= n
    ensures |First(q, n - |ring|)| == Least(|q|, n - |ring|)
    ensures |Behind(q, n - |ring|)| == |q| - Least(|q|, n - |ring|)
  {
  }

  lemma AppendTwice(a: Str, b: Str, c: Str)
    ensures a + b + c == a + (b + c)
  {
  }

  lemma LastOfAll(s: Str, n: nat)
    requires |s| > 2 * n
    ensures Last(Behind(s, n), n) == Last(s, n)
  {
  }

  /** Both ends with a note between them, which says how much is omitted. */
  lemma OmittedIsCounted(a: Str, b: Str, c: Str)
    requires a != [] && |c| == |a| && b != []
    ensures Retained(a + b + c, |a|) == a + Ascii("\n... omitting ") + Decimal(|b|) + Ascii(" bytes ...\n") + c
  {
    hide Ascii;
    var s := a + b + c;
    assert s[..|a|] == a && s[|s| - |a|..] == c;
  }
}
