/**
 Replacing in a byte buffer, in place as long as the result so far fits.
 */
module Replacer {
  import opened Wrappers
  import opened Bytes
  import opened ReplaceSpec
  import opened ReplaceTrie
  import opened ReplaceGeneric

  // ---------- Copying inside a buffer ----------

  ghost function Moved(s: seq<Byte>, to: nat, from: nat, count: nat): (t: seq<Byte>)
    requires to + count <= |s| && from + count <= |s|
    ensures |t| == |s|
  {
    s[..to] + s[from..from + count] + s[to + count..]
  }

  ghost function Written(s: seq<Byte>, at: nat, val: seq<Byte>): (t: seq<Byte>)
    requires at + |val| <= |s|
    ensures |t| == |s|
  {
    s[..at] + val + s[at + |val|..]
  }

  /** Copies count bytes, which may overlap, as the built-in copy does. */
  method Move(buf: array<Byte>, to: nat, from: nat, count: nat)
    requires to + count <= buf.Length && from + count <= buf.Length
    modifies buf
    ensures buf[..] == Moved(old(buf[..]), to, from, count)
  {
    forall k | 0 <= k < count {
      buf[to + k] := buf[from + k];
    }
  }

  method Write(buf: array<Byte>, at: nat, val: seq<Byte>)
    requires at + |val| <= buf.Length
    modifies buf
    ensures buf[..] == Written(old(buf[..]), at, val)
  {
    forall k | 0 <= k < |val| {
      buf[at + k] := val[k];
    }
  }

  // ---------- The invariant of the rewrite ----------

  /** The result is what has been written, then s[last..i] unchanged, then the rewrite of the rest of s. */
  ghost predicate Pending(pairs: seq<Pair>, result: seq<Byte>, dst: seq<Byte>, s: seq<Byte>, last: nat, i: nat, prevEmpty: bool)
  {
    && last <= |s| && last <= i <= |s| + 1
    && result == if i <= |s| then dst + s[last..i] + Rewrite(pairs, s[i..], prevEmpty) else dst + s[last..]
  }

  lemma PendingStart(pairs: seq<Pair>, s: seq<Byte>)
    ensures Pending(pairs, Rewrite(pairs, s, false), [], s, 0, 0, false)
  {
    assert s[0..] == s && [] + s[0..0] + Rewrite(pairs, s, false) == Rewrite(pairs, s, false);
  }

  /** Where nothing matches, one byte stays. */
  lemma PendingSkip(pairs: seq<Pair>, result: seq<Byte>, dst: seq<Byte>, s: seq<Byte>, last: nat, i: nat, prevEmpty: bool)
    requires i <= |s| && Pending(pairs, result, dst, s, last, i, prevEmpty)
    requires FirstMatch(pairs, 0, s[i..], prevEmpty) == None
    ensures Pending(pairs, result, dst, s, last, i + 1, false)
  {
    if i < |s| {
      assert s[i..][1..] == s[i + 1..] && s[last..i + 1] == s[last..i] + [s[i]];
      var rest := Rewrite(pairs, s[i + 1..], false);
      assert Rewrite(pairs, s[i..], prevEmpty) == [s[i]] + rest;
      assert dst + s[last..i] + ([s[i]] + rest) == dst + (s[last..i] + [s[i]]) + rest;
    } else {
      assert s[i..] == [] && s[last..i] == s[last..];
      assert dst + s[last..i] + [] == dst + s[last..];
    }
  }

  /** A match: t is what remains of s behind the key, from position k of t on. */
  lemma PendingMatch(pairs: seq<Pair>, result: seq<Byte>, dst: seq<Byte>, s: seq<Byte>, last: nat, i: nat, prevEmpty: bool,
                     j: nat, t: seq<Byte>, k: nat)
    requires i <= |s| && Pending(pairs, result, dst, s, last, i, prevEmpty)
    requires FirstMatch(pairs, 0, s[i..], prevEmpty) == Some(j)
    requires k <= |t| && i + |pairs[j].key| <= |s| && t[k..] == s[i + |pairs[j].key|..]
    ensures Pending(pairs, result, dst + s[last..i] + pairs[j].val, t, k, k, pairs[j].key == [])
  {
    hide Rewrite, FirstMatch;
    assert s[i..][|pairs[j].key|..] == s[i + |pairs[j].key|..];
    RewriteMatch(pairs, s[i..], prevEmpty, j);
    var rest := Rewrite(pairs, t[k..], pairs[j].key == []);
    AppendFour(dst, s[last..i], pairs[j].val, rest);
    assert t[k..k] == [];
  }

  lemma RewriteMatch(pairs: seq<Pair>, s: seq<Byte>, prevEmpty: bool, j: nat)
    requires FirstMatch(pairs, 0, s, prevEmpty) == Some(j)
    ensures Rewrite(pairs, s, prevEmpty) == pairs[j].val + Rewrite(pairs, s[|pairs[j].key|..], pairs[j].key == [])
  {
  }

  lemma AppendFour(a: seq<Byte>, b: seq<Byte>, c: seq<Byte>, d: seq<Byte>)
    ensures a + b + (c + d) == a + b + c + [] + d
  {
  }

  // ---------- The in-place steps ----------

  /** Appending s[last..i] to the part of the buffer already written. */
  lemma FlushStays(s: seq<Byte>, d: nat, last: nat, i: nat)
    requires d <= last <= i <= |s|
    ensures var t := Moved(s, d, last, i - last);
      t[..d + (i - last)] == s[..d] + s[last..i] && t[i..] == s[i..]
  {
  }

  /** A value that is not longer than what it replaces does not reach the unread bytes. */
  lemma ShrinkStays(s: seq<Byte>, d: nat, val: seq<Byte>, i: nat)
    requires d + |val| <= i <= |s|
    ensures var t := Written(s, d, val);
      t[..d + |val|] == s[..d] + val && t[i..] == s[i..]
  {
  }

  /** Shifting the unread bytes right makes room for a longer value. */
  lemma GrowStays(s: seq<Byte>, d: nat, val: seq<Byte>, from: nat, to: nat, n: nat, end: nat)
    requires d + |val| <= to && from <= n <= |s| && from <= to && end == to + (n - from) <= |s|
    ensures var t := Written(Moved(s, to, from, n - from), d, val);
      t[..d + |val|] == s[..d] + val && t[to..end] == s[from..n]
  {
    var u := Moved(s, to, from, n - from);
    assert u[..d] == s[..d];
    assert u[to..to + (n - from)] == s[from..n];
  }

  lemma ExcessIs(m: nat, n: nat)
    ensures Excess(m, n) == if m > n then m - n else 0
  {
  }

  lemma SliceWithin(s: seq<Byte>, i: nat, from: nat, n: nat)
    requires i <= from <= n <= |s|
    ensures s[i..][from - i..n - i] == s[from..n]
  {
  }

  lemma SpliceFlushes(s: seq<Byte>, n: nat, d0: nat, last: nat, i: nat, from: nat, d: nat)
    requires d0 <= last <= i <= from <= n <= |s| && d == d0 + (i - last)
    ensures var t := Moved(s, d0, last, i - last);
      t[..d] == s[..d0] + s[last..i] && t[from..n] == s[from..n]
  {
    hide Moved;
    FlushStays(s, d0, last, i);
    SliceWithin(s, i, from, n);
    SliceWithin(Moved(s, d0, last, i - last), i, from, n);
  }

  lemma SpliceShrinks(t: seq<Byte>, d: nat, val: seq<Byte>, from: nat, n: nat)
    requires d + |val| <= from <= n <= |t|
    ensures var u := Written(t, d, val);
      u[..d + |val|] == t[..d] + val && u[from..n] == t[from..n]
  {
    hide Written;
    ShrinkStays(t, d, val, from);
    SliceWithin(t, from, from, n);
    SliceWithin(Written(t, d, val), from, from, n);
  }

  /** Writes the value at d, over the key at i if it is not longer than that, else after shifting
      the unread bytes right. */
  method PutValue(buf: array<Byte>, n0: nat, d0: nat, i0: nat, val: seq<Byte>, keylen: nat) returns (n: nat, d: nat, i: nat)
    requires d0 <= i0 && i0 + keylen <= n0 <= buf.Length && |val| <= keylen + (buf.Length - n0)
    modifies buf
    ensures d <= i <= n <= buf.Length
    ensures buf[..][i..n] == old(buf[..])[i0 + keylen..n0]
    ensures buf[..][..d] == old(buf[..])[..d0] + val
    ensures n == n0 + Excess(|val|, keylen)
    ensures n - i == n0 - (i0 + keylen)
  {
    hide *;
    ExcessIs(|val|, keylen);
    ghost var t := buf[..];
    var from, to := i0 + keylen, i0 + |val|;
    d := d0 + |val|;
    if |val| < keylen {
      SpliceShrinks(t, d0, val, from, n0);
      Write(buf, d0, val);
      n, i := n0, from;
    } else {
      // moves what is unread: GrowStays says that it survives
      n, i := n0 + (|val| - keylen), to;
      GrowStays(t, d0, val, from, to, n0, n);
      Move(buf, to, from, n0 - from);
      Write(buf, d0, val);
    }
  }

  /** While the result is in the buffer: appends s[last..i] and the value to it, if they fit. */
  method Splice(buf: array<Byte>, n0: nat, d0: nat, last: nat, i0: nat, val: seq<Byte>, keylen: nat)
    returns (n: nat, d: nat, i: nat, fits: bool)
    requires d0 <= last <= i0 && i0 + keylen <= n0 <= buf.Length
    modifies buf
    ensures d <= i <= n <= buf.Length
    ensures buf[..][i..n] == old(buf[..])[i0 + keylen..n0]
    ensures buf[..][..d] == old(buf[..])[..d0] + old(buf[..])[last..i0] + if fits then val else []
    ensures fits <==> |val| <= keylen + (buf.Length - n0)
    ensures fits ==> n == n0 + Excess(|val|, keylen)
    ensures n - i == n0 - (i0 + keylen)
  {
    hide *;
    n, i := n0, i0;
    ghost var s := buf[..];
    ghost var from := i0 + keylen;
    Move(buf, d0, last, i - last);
    d := d0 + (i - last);
    SpliceFlushes(s, n, d0, last, i, from, d);
    ghost var t := buf[..];
    ghost var written := s[..d0] + s[last..i0];
    assert t[..d] == written && t[from..n0] == s[from..n0];
    fits := |val| <= keylen + (buf.Length - n);
    if !fits {
      i := i + keylen;
      assert written + [] == written;
      return;
    }
    n, d, i := PutValue(buf, n, d, i, val, keylen);
  }

  /** What has been written so far: out, once the buffer was too small, else a prefix of the buffer. */
  ghost function Output(s: seq<Byte>, d: nat, grown: bool, out: seq<Byte>): seq<Byte>
    requires !grown ==> d <= |s|
  {
    if grown then out else s[..d]
  }

  /** Appends s[last..i] and the value to the output. */
  method Accept(buf: array<Byte>, n0: nat, d0: nat, last: nat, i0: nat, val: seq<Byte>, keylen: nat, grown0: bool, out0: seq<Byte>)
    returns (n: nat, d: nat, i: nat, grown: bool, out: seq<Byte>)
    requires last <= i0 && i0 + keylen <= n0 <= buf.Length && (!grown0 ==> d0 <= last)
    modifies buf
    ensures i <= n <= buf.Length && (!grown ==> d <= i)
    ensures buf[..][i..n] == old(buf[..])[i0 + keylen..n0]
    ensures Output(buf[..], d, grown, out) ==
              Output(old(buf[..]), d0, grown0, out0) + old(buf[..])[last..i0] + val
    ensures n - i == n0 - (i0 + keylen)
    ensures grown == (grown0 || n0 + Excess(|val|, keylen) > buf.Length)
    ensures !grown ==> n == n0 + Excess(|val|, keylen)
  {
    n, d, i, grown, out := n0, d0, i0, grown0, out0;
    if grown {
      assert buf[last..i] == buf[..][last..i];
      out := out + buf[last..i] + val;
      i := i + keylen;
    } else {
      var fits;
      n, d, i, fits := Splice(buf, n, d, last, i, val, keylen);
      if !fits {
        // from here on the output is out, and the buffer keeps what is unread
        grown := true;
        out := buf[..d] + val;
        assert buf[..d] == buf[..][..d];
      }
    }
  }

  /** Appends the unread rest of the input. */
  method Finish(buf: array<Byte>, n: nat, d0: nat, last: nat, grown: bool, out0: seq<Byte>) returns (out: seq<Byte>)
    requires last <= n <= buf.Length && (!grown ==> d0 <= last)
    modifies buf
    ensures out == Output(old(buf[..]), d0, grown, out0) + old(buf[..])[last..n]
    ensures !grown ==> |out| <= buf.Length && out == buf[..|out|]
  {
    var d := d0;
    out := out0;
    if last != n {
      if grown {
        out := out + buf[last..n];
      } else {
        FlushStays(buf[..], d, last, n);
        Move(buf, d, last, n - last);
        d := d + (n - last);
      }
    }
    if !grown {
      out := buf[..d];
    }
  }

  // ---------- When the buffer is too small ----------

  /** The growth still to come at position i, which is one past the end when the loop is over. */
  ghost function GrowthFrom(pairs: seq<Pair>, s: seq<Byte>, i: nat, prevEmpty: bool): nat
  {
    if i <= |s| then Growth(pairs, s[i..], prevEmpty) else 0
  }

  lemma GrowthStart(pairs: seq<Pair>, s: seq<Byte>)
    ensures GrowthFrom(pairs, s, 0, false) == Growth(pairs, s, false)
  {
    assert s[0..] == s;
  }

  lemma GrowthSkip(pairs: seq<Pair>, s: seq<Byte>, i: nat, prevEmpty: bool)
    requires i <= |s| && FirstMatch(pairs, 0, s[i..], prevEmpty) == None
    ensures GrowthFrom(pairs, s, i, prevEmpty) == GrowthFrom(pairs, s, i + 1, false)
  {
    if i < |s| { assert s[i..][1..] == s[i + 1..]; }
  }

  lemma GrowthMatch(pairs: seq<Pair>, s: seq<Byte>, i: nat, prevEmpty: bool, t: seq<Byte>, l: nat)
    requires i <= |s| && l <= |t|
    requires var f := FirstMatch(pairs, 0, s[i..], prevEmpty);
      f.Some? && i + |pairs[f.value].key| <= |s| && t[l..] == s[i + |pairs[f.value].key|..]
    ensures var p := pairs[FirstMatch(pairs, 0, s[i..], prevEmpty).value];
      GrowthFrom(pairs, s, i, prevEmpty) == Excess(|p.val|, |p.key|) + GrowthFrom(pairs, t, l, |p.key| == 0)
  {
    var p := pairs[FirstMatch(pairs, 0, s[i..], prevEmpty).value];
    assert s[i..][|p.key|..] == s[i + |p.key|..];
  }

  lemma OutputStart(s: seq<Byte>, out: seq<Byte>)
    ensures Output(s, 0, false, out) == []
  {
  }

  lemma SliceOf(s: seq<Byte>, n: nat, i: nat)
    requires i <= n <= |s|
    ensures s[..n][i..] == s[i..n]
  {
  }

  /** PendingMatch for the buffer before (s, with n bytes) and after (t, with k bytes). */
  lemma PendingAccepted(pairs: seq<Pair>, result: seq<Byte>, dst: seq<Byte>, s: seq<Byte>, t: seq<Byte>,
                        last: nat, i: nat, n: nat, l: nat, k: nat, prevEmpty: bool)
    requires last <= i <= n <= |s| && l <= k <= |t|
    requires Pending(pairs, result, dst, s[..n], last, i, prevEmpty)
    requires var f := FirstMatch(pairs, 0, s[i..n], prevEmpty);
      && f.Some? && f.value < |pairs|
      && i + |pairs[f.value].key| <= n
      && t[l..k] == s[i + |pairs[f.value].key|..n]
    ensures var p := pairs[FirstMatch(pairs, 0, s[i..n], prevEmpty).value];
      Pending(pairs, result, dst + s[last..i] + p.val, t[..k], l, l, |p.key| == 0)
  {
    hide *;
    var j := FirstMatch(pairs, 0, s[i..n], prevEmpty).value;
    SliceOf(s, n, i);
    SliceOf(s, n, i + |pairs[j].key|);
    SliceOf(t, k, l);
    assert s[..n][last..i] == s[last..i];
    PendingMatch(pairs, result, dst, s[..n], last, i, prevEmpty, j, t[..k], l);
  }

  /** The invariant of the loop; total is what the buffer would have to hold. */
  ghost predicate Going(pairs: seq<Pair>, result: seq<Byte>, total: nat, dst: seq<Byte>, s: seq<Byte>,
                        last: nat, i: nat, prevEmpty: bool, grown: bool, cap: nat)
  {
    && Pending(pairs, result, dst, s, last, i, prevEmpty)
    && if grown then total > cap else |s| <= cap && total == |s| + GrowthFrom(pairs, s, i, prevEmpty)
  }

  lemma GoingStart(pairs: seq<Pair>, s: seq<Byte>, cap: nat)
    requires |s| <= cap
    ensures Going(pairs, Rewrite(pairs, s, false), |s| + Growth(pairs, s, false), [], s, 0, 0, false, false, cap)
  {
    hide Pending, GrowthFrom;
    PendingStart(pairs, s);
    GrowthStart(pairs, s);
  }

  lemma GoingSkip(pairs: seq<Pair>, result: seq<Byte>, total: nat, dst: seq<Byte>, s: seq<Byte>,
                  last: nat, i: nat, prevEmpty: bool, grown: bool, cap: nat)
    requires i <= |s| && Going(pairs, result, total, dst, s, last, i, prevEmpty, grown, cap)
    requires FirstMatch(pairs, 0, s[i..], prevEmpty) == None
    ensures Going(pairs, result, total, dst, s, last, i + 1, false, grown, cap)
  {
    hide Pending, GrowthFrom, FirstMatch;
    PendingSkip(pairs, result, dst, s, last, i, prevEmpty);
    GrowthSkip(pairs, s, i, prevEmpty);
  }

  lemma GoingMatch(pairs: seq<Pair>, result: seq<Byte>, total: nat, dst: seq<Byte>, s: seq<Byte>, t: seq<Byte>,
                   last: nat, i: nat, n: nat, l: nat, k: nat, prevEmpty: bool, grown0: bool, grown: bool)
    requires last <= i <= n <= |s| && l <= k <= |t|
    requires Going(pairs, result, total, dst, s[..n], last, i, prevEmpty, grown0, |t|)
    requires var f := FirstMatch(pairs, 0, s[i..n], prevEmpty);
      && f.Some? && f.value < |pairs|
      && i + |pairs[f.value].key| <= n
      && t[l..k] == s[i + |pairs[f.value].key|..n]
      && var fits := n + Excess(|pairs[f.value].val|, |pairs[f.value].key|);
      && grown == (grown0 || fits > |t|)
      && (!grown ==> k == fits)
    ensures var p := pairs[FirstMatch(pairs, 0, s[i..n], prevEmpty).value];
      Going(pairs, result, total, dst + s[last..i] + p.val, t[..k], l, l, |p.key| == 0, grown, |t|)
  {
    hide Pending, GrowthFrom, FirstMatch, Excess;
    var j := FirstMatch(pairs, 0, s[i..n], prevEmpty).value;
    PendingAccepted(pairs, result, dst, s, t, last, i, n, l, k, prevEmpty);
    SliceOf(s, n, i);
    SliceOf(s, n, i + |pairs[j].key|);
    SliceOf(t, k, l);
    GrowthMatch(pairs, s[..n], i, prevEmpty, t[..k], l);
  }

  lemma GoingEnd(pairs: seq<Pair>, result: seq<Byte>, total: nat, dst: seq<Byte>, s: seq<Byte>,
                 last: nat, i: nat, prevEmpty: bool, grown: bool, cap: nat)
    requires i == |s| + 1 && Going(pairs, result, total, dst, s, last, i, prevEmpty, grown, cap)
    ensures last <= |s| && result == dst + s[last..]
    ensures grown <==> total > cap
  {
  }

  /** Rewrites buf[..n0]; if the result is not grown, it is a prefix of the same buffer. */
  method Replace(r: GenericReplacer, buf: array<Byte>, n0: nat) returns (out: seq<Byte>, grown: bool)
    requires r.Valid() && n0 <= buf.Length
    modifies buf
    ensures r.Valid()
    ensures out == Rewrite(r.pairs, old(buf[..])[..n0], false)
    ensures !grown ==> |out| <= buf.Length && out == buf[..|out|]
    ensures grown <==> n0 + Growth(r.pairs, old(buf[..])[..n0], false) > buf.Length
  {
    hide *;
    ghost var total := n0 + Growth(r.pairs, buf[..][..n0], false);
    var n := n0;
    var last: nat, d: nat, i: nat := 0, 0, 0;
    var prevMatchEmpty := false;
    out, grown := [], false;
    ghost var result := Rewrite(r.pairs, buf[..][..n], false);
    ghost var dst: seq<Byte> := [];
    GoingStart(r.pairs, buf[..][..n], buf.Length);
    OutputStart(buf[..], out);
    while i <= n
      invariant r.Valid() && n <= buf.Length
      invariant last <= i <= n + 1 && last <= n && (!grown ==> d <= last)
      invariant dst == Output(buf[..], d, grown, out)
      invariant Going(r.pairs, result, total, dst, buf[..][..n], last, i, prevMatchEmpty, grown, buf.Length)
      invariant prevMatchEmpty ==> r.root.priority > 0
      decreases n + 1 - i, if prevMatchEmpty then 0 else 1
    {
      ghost var s := buf[..];
      var rest := buf[i..n];
      SliceOf(s, n, i);
      // NothingStarts: no pair matches here
      if i != n && r.root.priority == 0 {
        var skip := r.StartsNothing(buf[i]);
        if skip {
          r.NothingStarts(rest, prevMatchEmpty);
          GoingSkip(r.pairs, result, total, dst, s[..n], last, i, prevMatchEmpty, grown, buf.Length);
          i := i + 1;
          continue;
        }
      }

      r.EmptyKeyAtRoot(rest, prevMatchEmpty);
      FirstMatchFits(r.pairs, rest, prevMatchEmpty);
      var val, keylen, found := r.Lookup(rest, prevMatchEmpty);
      ghost var m, prev, i0, grown0 := n, prevMatchEmpty, i, grown;
      prevMatchEmpty := found && keylen == 0;
      if found {
        n, d, i, grown, out := Accept(buf, n, d, last, i, val, keylen, grown, out);
        GoingMatch(r.pairs, result, total, dst, s, buf[..], last, i0, m, i, n, prev, grown0, grown);
        dst := Output(buf[..], d, grown, out);
        last := i;
      } else {
        GoingSkip(r.pairs, result, total, dst, s[..n], last, i, prev, grown, buf.Length);
        i := i + 1;
      }
    }
    GoingEnd(r.pairs, result, total, dst, buf[..][..n], last, i, prevMatchEmpty, grown, buf.Length);
    SliceOf(buf[..], n, last);
    out := Finish(buf, n, d, last, grown, out);
  }

  /** What other replacements shorten is not counted, so the buffer can be given up although the
      result would have fitted into it: "ab" to "" and "c" to "dd" on "abc". */
  lemma FitsYetGrows(pairs: seq<Pair>, s: seq<Byte>)
    requires pairs == [Pair([97, 98], []), Pair([99], [100, 100])] && s == [97, 98, 99]
    ensures |Rewrite(pairs, s, false)| <= |s| < |s| + Growth(pairs, s, false)
  {
    var c: seq<Byte> := s[2..];
    assert c == [99] && c[1..] == [];
    assert [97, 98] <= s && !([97, 98] <= c) && [99] <= c;
    FirstMatchIs(pairs, s, false, 0);
    FirstMatchIs(pairs, c, false, 1);
    FirstMatchByteless(pairs, [], false);
    assert Rewrite(pairs, c, false) == [100, 100] + [];
  }

  /** If no key is empty, nothing matches where nothing is left. */
  lemma FirstMatchByteless(pairs: seq<Pair>, s: seq<Byte>, ignoreEmpty: bool)
    requires s == [] && forall i :: 0 <= i < |pairs| ==> pairs[i].key != []
    ensures FirstMatch(pairs, 0, s, ignoreEmpty) == None
  {
  }

  // ---------- Single bytes by single bytes ----------

  ghost predicate SingleBytes(pairs: seq<Pair>)
  {
    forall i :: 0 <= i < |pairs| ==> |pairs[i].key| == 1 && |pairs[i].val| == 1
  }

  /** What the pairs from pair k on make of byte b. */
  ghost function Mapped(pairs: seq<Pair>, k: nat, b: Byte): Byte
    requires k <= |pairs| && SingleBytes(pairs)
  {
    match FirstMatch(pairs, k, [b], false)
    case Some(i) => pairs[i].val[0]
    case None => b
  }

  ghost predicate IsTable(table: seq<Byte>, pairs: seq<Pair>, k: nat)
    requires k <= |pairs| && SingleBytes(pairs)
  {
    |table| == 256 && forall b: Byte :: table[b] == Mapped(pairs, k, b)
  }

  /** For single bytes, only the first byte of s matters for a match. */
  lemma {:induction false} FirstMatchByte(pairs: seq<Pair>, k: nat, s: seq<Byte>, ignoreEmpty: bool)
    requires k <= |pairs| && SingleBytes(pairs)
    ensures FirstMatch(pairs, k, s, ignoreEmpty) == if s == [] then None else FirstMatch(pairs, k, [s[0]], false)
    decreases |pairs| - k
  {
    if k < |pairs| {
      assert Matches(pairs[k], s, ignoreEmpty) <==> s != [] && Matches(pairs[k], [s[0]], false);
      FirstMatchByte(pairs, k + 1, s, ignoreEmpty);
    }
  }

  ghost function MapAll(table: seq<Byte>, s: seq<Byte>): (t: seq<Byte>)
    requires |table| == 256
    ensures |t| == |s|
  {
    seq(|s|, i requires 0 <= i < |s| => table[s[i]])
  }

  /** The table computes the same rewrite as the generic algorithm. */
  lemma {:induction false} TableRewrites(table: seq<Byte>, pairs: seq<Pair>, s: seq<Byte>)
    requires SingleBytes(pairs) && IsTable(table, pairs, 0)
    ensures MapAll(table, s) == Rewrite(pairs, s, false)
  {
    FirstMatchByte(pairs, 0, s, false);
    if s != [] {
      TableRewrites(table, pairs, s[1..]);
      assert MapAll(table, s) == [table[s[0]]] + MapAll(table, s[1..]);
      assert table[s[0]] == Mapped(pairs, 0, s[0]);
    }
  }

  method MakeTable(oldnew: seq<seq<Byte>>) returns (table: seq<Byte>)
    requires |oldnew| % 2 == 0 && SingleBytes(PairsOf(oldnew))
    ensures IsTable(table, PairsOf(oldnew), 0)
  {
    ghost var pairs := PairsOf(oldnew);
    table := seq(256, i requires 0 <= i < 256 => i);
    // backward, so that the first pair is written last
    var i := |oldnew| - 2;
    while i >= 0
      invariant -2 <= i <= |oldnew| - 2 && i % 2 == 0
      invariant IsTable(table, pairs, i / 2 + 1)
    {
      assert pairs[i / 2] == Pair(oldnew[i], oldnew[i + 1]);
      table := TableEntry(table, pairs, i / 2, oldnew[i], oldnew[i + 1]);
      i := i - 2;
    }
  }

  method TableEntry(table: seq<Byte>, ghost pairs: seq<Pair>, ghost k: nat, key: seq<Byte>, val: seq<Byte>) returns (t: seq<Byte>)
    requires SingleBytes(pairs) && k < |pairs| && pairs[k] == Pair(key, val)
    requires IsTable(table, pairs, k + 1)
    ensures IsTable(t, pairs, k)
  {
    t := table[key[0] := val[0]];
    forall b: Byte ensures t[b] == Mapped(pairs, k, b)
    {
      assert Matches(pairs[k], [b], false) <==> key[0] == b;
      assert table[b] == Mapped(pairs, k + 1, b);
    }
  }

  method ReplaceBytes(table: seq<Byte>, buf: array<Byte>, n: nat)
    requires |table| == 256 && n <= buf.Length
    modifies buf
    ensures buf[..n] == MapAll(table, old(buf[..n]))
    ensures buf[n..] == old(buf[n..])
  {
    for i := 0 to n
      invariant forall k :: 0 <= k < i ==> buf[k] == table[old(buf[k])]
      invariant forall k :: i <= k < buf.Length ==> buf[k] == old(buf[k])
    {
      buf[i] := table[buf[i]];
    }
  }

  // ---------- The replacer that the caller gets ----------

  datatype AnyReplacer = Generic(r: GenericReplacer) | Bytes(table: seq<Byte>) {
    /** The replacer rewrites by these pairs. */
    ghost predicate For(pairs: seq<Pair>)
      reads if Generic? then {r, r.root} else {}, if Generic? then r.root.Repr else {}
    {
      match this
      case Generic(r) => r.Valid() && r.pairs == pairs
      case Bytes(table) => SingleBytes(pairs) && IsTable(table, pairs, 0)
    }
  }

  /** An odd number of arguments is an error. */
  method New(oldnew: seq<seq<Byte>>) returns (r: Option<AnyReplacer>)
    ensures r.Some? <==> |oldnew| % 2 == 0
    ensures r.Some? ==> r.value.For(PairsOf(oldnew))
    ensures r.Some? ==> (r.value.Bytes? <==> SingleBytes(PairsOf(oldnew)))
  {
    if |oldnew| % 2 == 1 {
      return None;
    }
    ghost var pairs := PairsOf(oldnew);
    var allNewBytes := true;
    var i := 0;
    while i < |oldnew|
      invariant 0 <= i <= |oldnew| && i % 2 == 0
      invariant forall k :: 0 <= k < i / 2 ==> |pairs[k].key| == 1
      invariant allNewBytes <==> forall k :: 0 <= k < i / 2 ==> |pairs[k].val| == 1
    {
      assert pairs[i / 2] == Pair(oldnew[i], oldnew[i + 1]);
      if |oldnew[i]| != 1 {
        var g := new GenericReplacer(oldnew);
        return Some(Generic(g));
      }
      if |oldnew[i + 1]| != 1 {
        allNewBytes := false;
      }
      i := i + 2;
    }
    if allNewBytes {
      var table := MakeTable(oldnew);
      return Some(Bytes(table));
    }
    var g := new GenericReplacer(oldnew);
    return Some(Generic(g));
  }

  /** Whatever replacer New chose, it performs the rewrite, in place unless the result has grown. */
  method ReplaceAll(r: AnyReplacer, ghost pairs: seq<Pair>, buf: array<Byte>, n: nat) returns (out: seq<Byte>, grown: bool)
    requires r.For(pairs) && n <= buf.Length
    modifies buf
    ensures r.For(pairs)
    ensures out == Rewrite(pairs, old(buf[..])[..n], false)
    ensures !grown ==> |out| <= buf.Length && out == buf[..|out|]
    ensures grown <==> r.Generic? && n + Growth(pairs, old(buf[..])[..n], false) > buf.Length
  {
    match r
    case Generic(g) =>
      out, grown := Replace(g, buf, n);
    case Bytes(table) =>
      assert buf[..][..n] == buf[..n];
      TableRewrites(table, pairs, buf[..n]);
      ReplaceBytes(table, buf, n);
      out, grown := buf[..n], false;
  }
}
