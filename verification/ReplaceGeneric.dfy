/**
 The generic replacer: building the trie from the pairs, and looking up the earliest match.
 */
module ReplaceGeneric {
  import opened Wrappers
  import opened Bytes
  import opened ReplaceSpec
  import opened ReplaceTrie

  // ---------- From pairs to entries ----------

  ghost function PairsOf(oldnew: seq<seq<Byte>>): seq<Pair>
  {
    seq(|oldnew| / 2, i requires 0 <= i < |oldnew| / 2 => Pair(oldnew[2 * i], oldnew[2 * i + 1]))
  }

  /** What a trie holds after the first i pairs have been added: an earlier pair has a higher priority. */
  ghost function EntriesOf(pairs: seq<Pair>, i: nat): Entries
    requires i <= |pairs|
  {
    if i == 0 then map[]
    else Added(EntriesOf(pairs, i - 1), pairs[i - 1].key, Entry(pairs[i - 1].val, 2 * (|pairs| - (i - 1))))
  }

  /** The entry of a key comes from the first pair with that key. */
  lemma {:induction false} EntryFromFirst(pairs: seq<Pair>, i: nat, k: seq<Byte>) returns (j: nat)
    requires i <= |pairs| && k in EntriesOf(pairs, i)
    ensures j < i && pairs[j].key == k
    ensures forall l :: 0 <= l < j ==> pairs[l].key != k
    ensures EntriesOf(pairs, i)[k] == Entry(pairs[j].val, 2 * (|pairs| - j))
  {
    if k in EntriesOf(pairs, i - 1) {
      j := EntryFromFirst(pairs, i - 1, k);
    } else {
      j := i - 1;
      forall l | 0 <= l < j ensures pairs[l].key != k
      {
        EntryOfPair(pairs, i - 1, l);
      }
    }
  }

  lemma {:induction false} EntryOfPair(pairs: seq<Pair>, i: nat, j: nat)
    requires j < i <= |pairs|
    ensures pairs[j].key in EntriesOf(pairs, i)
  {
    if j < i - 1 {
      EntryOfPair(pairs, i - 1, j);
    }
  }

  // ---------- The best entry along a string ----------

  ghost predicate Candidate(m: Entries, s: seq<Byte>, ignoreRoot: bool, k: seq<Byte>)
  {
    k in m && k <= s && !(ignoreRoot && k == [])
  }

  /** No candidate of at most n bytes has a priority above best. */
  ghost predicate Bounded(m: Entries, s: seq<Byte>, ignoreRoot: bool, best: nat, n: nat)
  {
    forall k :: Candidate(m, s, ignoreRoot, k) && |k| <= n ==> m[k].priority <= best
  }

  /** No key of more than n and fewer than l bytes is a prefix of s. */
  ghost predicate NoneBetween(m: Entries, s: seq<Byte>, n: nat, l: nat)
  {
    forall k :: k in m && k <= s ==> !(n < |k| < l)
  }

  lemma BoundedMore(m: Entries, s: seq<Byte>, ignoreRoot: bool, best: nat, n: nat, l: nat)
    requires Bounded(m, s, ignoreRoot, best, n) && NoneBetween(m, s, n, l) && n < l
    ensures Bounded(m, s, ignoreRoot, best, l - 1)
  {
  }

  lemma KeyBelow(m: Entries, s: seq<Byte>, n: nat, k: seq<Byte>)
    requires k in m && k <= s && n < |k|
    ensures k[n..] in Rest(m, s[..n]) && k[n..] != [] && k[n..] <= s[n..]
  {
    assert k == s[..n] + k[n..];
    RestGet(m, s[..n], k[n..]);
    assert s[..|k|] == k && s[n..][..|k| - n] == k[n..];
  }

  /** Below a node with a prefix there is nothing until the prefix has been read. */
  lemma PrefixSkips(m: Entries, s: seq<Byte>, n: nat, p: seq<Byte>)
    requires n <= |s| && p != [] && Starts(Rest(m, s[..n]), p)
    ensures NoneBetween(m, s, n, if p <= s[n..] then n + |p| else |s| + 1)
  {
    hide Rest;
    forall k | k in m && k <= s ensures !(n < |k| < if p <= s[n..] then n + |p| else |s| + 1)
    {
      if n < |k| {
        KeyBelow(m, s, n, k);
      }
    }
  }

  lemma NothingBelow(m: Entries, s: seq<Byte>, n: nat)
    requires n <= |s|
    requires Rest(m, s[..n]).Keys <= {[]} || (n < |s| && Rest(m, s[..n] + [s[n]]) == map[])
    ensures NoneBetween(m, s, n, |s| + 1)
  {
    hide Rest;
    forall k | k in m && k <= s ensures !(n < |k| < |s| + 1)
    {
      if n < |k| {
        KeyBelow(m, s, n, k);
        assert k[n..] in Rest(m, s[..n]).Keys;
        KeyBelow(m, s, n, k);
        assert k == s[..n] + [s[n]] + k[n + 1..];
        RestGet(m, s[..n] + [s[n]], k[n + 1..]);
      }
    }
  }

  /** The entry with the highest priority is that of the earliest match. */
  lemma BestIsFirst(pairs: seq<Pair>, s: seq<Byte>, ignoreRoot: bool, k: seq<Byte>, best: nat) returns (j: nat)
    requires var m := EntriesOf(pairs, |pairs|);
      Candidate(m, s, ignoreRoot, k) && m[k].priority == best && Bounded(m, s, ignoreRoot, best, |s|)
    ensures j < |pairs| && pairs[j].key == k && FirstMatch(pairs, 0, s, ignoreRoot) == Some(j)
    ensures EntriesOf(pairs, |pairs|)[k].val == pairs[j].val
  {
    var m := EntriesOf(pairs, |pairs|);
    j := EntryFromFirst(pairs, |pairs|, k);
    forall i | 0 <= i < j ensures !Matches(pairs[i], s, ignoreRoot)
    {
      if Matches(pairs[i], s, ignoreRoot) {
        EntryOfPair(pairs, |pairs|, i);
        var l := EntryFromFirst(pairs, |pairs|, pairs[i].key);
        assert Candidate(m, s, ignoreRoot, pairs[i].key);
      }
    }
    FirstMatchIs(pairs, s, ignoreRoot, j);
  }

  lemma NoneIsNone(pairs: seq<Pair>, s: seq<Byte>, ignoreRoot: bool)
    requires Bounded(EntriesOf(pairs, |pairs|), s, ignoreRoot, 0, |s|)
    ensures FirstMatch(pairs, 0, s, ignoreRoot) == None
  {
    var m := EntriesOf(pairs, |pairs|);
    var f := FirstMatch(pairs, 0, s, ignoreRoot);
    if f.Some? {
      EntryOfPair(pairs, |pairs|, f.value);
      var l := EntryFromFirst(pairs, |pairs|, pairs[f.value].key);
      assert Candidate(m, s, ignoreRoot, pairs[f.value].key);
    }
  }

  // ---------- The dense numbering of bytes ----------

  /** How many of the first n flags are set. */
  ghost function Ones(flags: seq<Byte>, n: nat): nat
    requires n <= |flags|
  {
    if n == 0 then 0 else Ones(flags, n - 1) + if flags[n - 1] == 1 then 1 else 0
  }

  lemma {:induction false} OnesGrow(flags: seq<Byte>, m: nat, n: nat)
    requires m <= n <= |flags|
    ensures Ones(flags, m) <= Ones(flags, n) <= Ones(flags, m) + (n - m)
    decreases n
  {
    if m < n {
      OnesGrow(flags, m, n - 1);
    }
  }

  /** The flags before, at and after b make up all flags. */
  lemma OnesAt(flags: seq<Byte>, b: nat, n: nat)
    requires b < n <= |flags|
    ensures Ones(flags, b) <= b
    ensures if flags[b] == 1 then Ones(flags, b) < Ones(flags, n) else Ones(flags, n) < n
  {
    hide Ones;
    OnesStep(flags, b);
    OnesGrow(flags, 0, b);
    OnesGrow(flags, b + 1, n);
  }

  lemma OnesStep(flags: seq<Byte>, b: nat)
    requires b < |flags|
    ensures Ones(flags, 0) == 0
    ensures Ones(flags, b + 1) == Ones(flags, b) + if flags[b] == 1 then 1 else 0
  {
  }

  ghost predicate Numbered(flags: seq<Byte>, mapping: seq<Byte>, n: nat)
    requires n <= |flags| == |mapping| == 256
  {
    && (forall b :: 0 <= b < n ==>
          mapping[b] == if flags[b] == 0 then Ones(flags, 256) % 256 else Ones(flags, b) % 256)
    && (forall b :: n <= b < 256 ==> mapping[b] == flags[b])
  }

  lemma NumberOf(flags: seq<Byte>, mapping: seq<Byte>, b: Byte)
    requires |flags| == |mapping| == 256 && 0 <= b < 256 && flags[b] <= 1
    requires Numbered(flags, mapping, 256)
    ensures var size := Ones(flags, 256);
      if flags[b] == 1 then mapping[b] == Ones(flags, b) < size else mapping[b] == size
  {
    hide Ones;
    OnesGrow(flags, 0, 256);
    OnesAt(flags, b, 256);
  }

  lemma NumberedIsCoding(flags: seq<Byte>, mapping: seq<Byte>)
    requires |flags| == |mapping| == 256 && (forall b :: 0 <= b < 256 ==> flags[b] <= 1)
    requires Numbered(flags, mapping, 256)
    ensures Coding(mapping, Ones(flags, 256)).Valid()
    ensures forall b :: 0 <= b < 256 ==>
      if flags[b] == 1 then mapping[b] < Ones(flags, 256) else mapping[b] == Ones(flags, 256)
  {
    hide Ones, Numbered;
    var size := Ones(flags, 256);
    forall b: Byte ensures if flags[b] == 1 then mapping[b] == Ones(flags, b) < size else mapping[b] == size
    {
      NumberOf(flags, mapping, b);
    }
    forall b, c | 0 <= b < 256 && 0 <= c < 256 && mapping[b] == mapping[c] < size
      ensures b == c
    {
      if b < c { OnesAt(flags, b, c); } else if c < b { OnesAt(flags, c, b); }
    }
  }

  /** Marks the bytes of key. */
  method MarkKey(key: seq<Byte>, flags: seq<Byte>) returns (r: seq<Byte>)
    requires |flags| == 256 && (forall b :: 0 <= b < 256 ==> flags[b] <= 1)
    ensures |r| == 256 && (forall b :: 0 <= b < 256 ==> flags[b] <= r[b] <= 1)
    ensures forall b: Byte :: r[b] == if b in key then 1 else flags[b]
  {
    r := flags;
    for j := 0 to |key|
      invariant |r| == 256 && (forall b :: 0 <= b < 256 ==> flags[b] <= r[b] <= 1)
      invariant forall b: Byte :: r[b] == if b in key[..j] then 1 else flags[b]
    {
      r := r[key[j] := 1];
    }
    assert key[..|key|] == key;
  }

  /** The byte occurs in one of the keys, which are every other one of the first n arguments. */
  ghost predicate InKeys(oldnew: seq<seq<Byte>>, n: int, b: Byte)
  {
    exists k :: 0 <= k < n && k < |oldnew| && k % 2 == 0 && b in oldnew[k]
  }

  /** Numbers the bytes that occur in the keys, and tells all others from them. */
  method MakeCoding(oldnew: seq<seq<Byte>>) returns (c: Coding)
    requires |oldnew| % 2 == 0
    ensures c.Valid()
    ensures forall k :: 0 <= k < |oldnew| && k % 2 == 0 ==> c.Codes(oldnew[k])
    ensures forall b: Byte :: if InKeys(oldnew, |oldnew|, b) then c.mapping[b] < c.size else c.mapping[b] == c.size
  {
    var mapping: seq<Byte> := Zeros(256);
    var i := 0;
    while i < |oldnew|
      invariant 0 <= i && i % 2 == 0 && |mapping| == 256
      invariant forall b :: 0 <= b < 256 ==> mapping[b] <= 1
      invariant forall b: Byte :: mapping[b] == if InKeys(oldnew, i, b) then 1 else 0
    {
      forall b: Byte ensures InKeys(oldnew, i + 2, b) <==> InKeys(oldnew, i, b) || b in oldnew[i] {
        OneMoreKey(oldnew, i, b);
      }
      mapping := MarkKey(oldnew[i], mapping);
      i := i + 2;
    }
    forall b: Byte ensures InKeys(oldnew, i, b) <==> InKeys(oldnew, |oldnew|, b) {
    }
    c := NumberBytes(mapping);
    forall k | 0 <= k < |oldnew| && k % 2 == 0 ensures c.Codes(oldnew[k]) {
      assert forall b :: b in oldnew[k] ==> InKeys(oldnew, |oldnew|, b);
    }
  }

  lemma OneMoreKey(oldnew: seq<seq<Byte>>, i: nat, b: Byte)
    requires i < |oldnew| && i % 2 == 0
    ensures InKeys(oldnew, i + 2, b) <==> InKeys(oldnew, i, b) || b in oldnew[i]
  {
    if InKeys(oldnew, i + 2, b) && !InKeys(oldnew, i, b) {
      var k :| 0 <= k < i + 2 && k < |oldnew| && k % 2 == 0 && b in oldnew[k];
      assert k == i;
    }
  }

  method NumberBytes(flags: seq<Byte>) returns (c: Coding)
    requires |flags| == 256 && (forall b :: 0 <= b < 256 ==> flags[b] <= 1)
    ensures c.Valid()
    ensures forall b :: 0 <= b < 256 ==> if flags[b] == 1 then c.mapping[b] < c.size else c.mapping[b] == c.size
  {
    hide Ones;
    var tableSize: nat := 0;
    OnesStep(flags, 0);
    for b := 0 to 256
      invariant tableSize == Ones(flags, b)
    {
      OnesStep(flags, b);
      tableSize := tableSize + flags[b];
    }

    var mapping: seq<Byte> := flags;
    var index: Byte := 0;
    for b := 0 to 256
      invariant |mapping| == 256 && Numbered(flags, mapping, b)
      invariant index == Ones(flags, b) % 256
    {
      OnesStep(flags, b);
      if mapping[b] == 0 {
        mapping := mapping[b := tableSize % 256];
      } else {
        mapping := mapping[b := index];
        index := (index + 1) % 256;
      }
    }
    NumberedIsCoding(flags, mapping);
    c := Coding(mapping, tableSize);
  }

  // ---------- The replacer ----------

  /** Visiting the node at depth n takes its own entry into account. */
  lemma Visited(m: Entries, s: seq<Byte>, ignoreRoot: bool, best: nat, n: nat, own: Option<Entry>)
    requires n <= |s| && Get(m, s[..n]) == own
    requires if n == 0 then best == 0 else Bounded(m, s, ignoreRoot, best, n - 1)
    ensures (ignoreRoot && n == 0) || own.None? || own.value.priority <= best ==> Bounded(m, s, ignoreRoot, best, n)
    ensures own.Some? && best <= own.value.priority ==> Bounded(m, s, ignoreRoot, own.value.priority, n)
  {
    forall k | Candidate(m, s, ignoreRoot, k) && |k| <= n
      ensures |k| == n ==> k == s[..n]
    {
      assert k == s[..|k|];
    }
  }

  /** What the search has found so far. */
  ghost predicate Best(m: Entries, s: seq<Byte>, ignoreRoot: bool, val: seq<Byte>, keylen: nat, found: bool, best: nat)
  {
    if found then
      && keylen <= |s| && Candidate(m, s, ignoreRoot, s[..keylen])
      && m[s[..keylen]] == Entry(val, best)
    else best == 0
  }

  lemma BestIsAnswer(pairs: seq<Pair>, s: seq<Byte>, ignoreRoot: bool, val: seq<Byte>, keylen: nat, found: bool, best: nat)
    requires Best(EntriesOf(pairs, |pairs|), s, ignoreRoot, val, keylen, found, best)
    requires Bounded(EntriesOf(pairs, |pairs|), s, ignoreRoot, best, |s|)
    ensures match FirstMatch(pairs, 0, s, ignoreRoot)
      case Some(i) => found && val == pairs[i].val && keylen == |pairs[i].key|
      case None => !found
  {
    hide FirstMatch, EntriesOf;
    if found {
      var j := BestIsFirst(pairs, s, ignoreRoot, s[..keylen], best);
    } else {
      NoneIsNone(pairs, s, ignoreRoot);
    }
  }

  lemma OwnEntry(node: TrieNode, c: Coding, m: Entries, s: seq<Byte>, n: nat)
    requires node.Tells(c) && n <= |s| && node.entries == Rest(m, s[..n])
    ensures Get(m, s[..n]) == if node.priority > 0 then Some(Entry(node.value, node.priority)) else None
  {
    hide Rest, Starts;
    RestGet(m, s[..n], []);
    assert s[..n] + [] == s[..n];
  }

  /** What the table of the node at depth n says about the longer keys. */
  lemma DescendTable(node: TrieNode, c: Coding, m: Entries, s: seq<Byte>, n: nat)
    requires node.Tells(c) && n < |s| && node.entries == Rest(m, s[..n]) && node.table.Some?
    ensures node.Child(c, s[n]) == Rest(m, s[..n + 1])
    ensures node.Child(c, s[n]) == map[] ==> NoneBetween(m, s, n, |s| + 1)
  {
    hide Get, Rest, Starts, NoneBetween;
    RestRest(m, s[..n], [s[n]]);
    assert s[..n] + [s[n]] == s[..n + 1];
    assert Rest(node.entries, [s[n]]) == node.Child(c, s[n]);
    if node.Child(c, s[n]) == map[] { NothingBelow(m, s, n); }
  }

  /** A prefix that matches leads to the next node, and nothing lies in between. */
  lemma DescendPrefix(node: TrieNode, c: Coding, m: Entries, s: seq<Byte>, n: nat, next: TrieNode)
    requires node.Tells(c) && n < |s| && node.entries == Rest(m, s[..n])
    requires node.prefix != [] && node.prefix <= s[n..] && node.next == next
    ensures n + |node.prefix| <= |s|
    ensures next.entries == Rest(m, s[..n + |node.prefix|])
    ensures NoneBetween(m, s, n, n + |node.prefix|)
  {
    hide Get, Rest, Starts, NoneBetween;
    RestRest(m, s[..n], node.prefix);
    assert s[..n] + node.prefix == s[..n + |node.prefix|];
    PrefixSkips(m, s, n, node.prefix);
  }

  lemma DescendNowhere(node: TrieNode, c: Coding, m: Entries, s: seq<Byte>, n: nat)
    requires node.Tells(c) && n < |s| && node.entries == Rest(m, s[..n])
    requires node.table.None? && !(node.prefix != [] && node.prefix <= s[n..])
    ensures NoneBetween(m, s, n, |s| + 1)
  {
    hide Get, Rest, Starts, NoneBetween;
    if node.prefix != [] {
      PrefixSkips(m, s, n, node.prefix);
    } else {
      NothingBelow(m, s, n);
    }
  }

  lemma RestAll(m: Entries)
    ensures Rest(m, []) == m
  {
    hide Rest;
    forall k ensures Get(Rest(m, []), k) == Get(m, k)
    {
      RestGet(m, [], k);
      assert [] + k == k;
    }
    SameEntries(Rest(m, []), m);
  }

  lemma IsCandidate(m: Entries, s: seq<Byte>, ignoreRoot: bool, n: nat, e: Entry)
    requires n <= |s| && Get(m, s[..n]) == Some(e) && !(ignoreRoot && n == 0)
    ensures Best(m, s, ignoreRoot, e.val, n, true, e.priority)
  {
  }

  lemma PairAt(oldnew: seq<seq<Byte>>, i: nat)
    requires |oldnew| % 2 == 0 && 2 * i < |oldnew|
    ensures var ps := PairsOf(oldnew);
      && i < |ps|
      && EntriesOf(ps, i + 1) == Added(EntriesOf(ps, i), oldnew[2 * i], Entry(oldnew[2 * i + 1], |oldnew| - 2 * i))
  {
  }

  /** Adds the pairs in order, the first with the highest priority. */
  method BuildTrie(c: Coding, oldnew: seq<seq<Byte>>) returns (node: TrieNode)
    requires c.Valid() && |oldnew| % 2 == 0
    requires forall k :: 0 <= k < |oldnew| && k % 2 == 0 ==> c.Codes(oldnew[k])
    ensures node.Valid(c) && node.table.Some? && fresh(node.Repr)
    ensures node.entries == EntriesOf(PairsOf(oldnew), |oldnew| / 2)
  {
    hide *;
    node := new TrieNode.Root(c);
    ghost var ps := PairsOf(oldnew);
    NoPairs(ps);
    PairsSize(oldnew);
    var i := 0;
    ghost var k := 0;
    while i < |oldnew|
      invariant 0 <= i <= |oldnew| && i == 2 * k
      invariant node.Valid(c) && node.table.Some? && fresh(node.Repr)
      invariant node.entries == EntriesOf(ps, k)
    {
      PairAt(oldnew, k);
      assert i % 2 == 0;
      node.Add(oldnew[i], oldnew[i + 1], |oldnew| - i, c);
      i := i + 2;
      k := k + 1;
    }
  }

  lemma NoPairs(ps: seq<Pair>)
    ensures EntriesOf(ps, 0) == map[]
  {
  }

  lemma PairsSize(oldnew: seq<seq<Byte>>)
    ensures |PairsOf(oldnew)| == |oldnew| / 2
  {
  }

  class GenericReplacer {
    var root: TrieNode
    var coding: Coding
    ghost var pairs: seq<Pair>

    ghost predicate Valid()
      reads this, root, root.Repr
    {
      && root.Valid(coding)
      && root.table.Some?
      && root.entries == EntriesOf(pairs, |pairs|)
    }

    constructor (oldnew: seq<seq<Byte>>)
      requires |oldnew| % 2 == 0
      ensures Valid() && pairs == PairsOf(oldnew)
    {
      var c := MakeCoding(oldnew);
      var node := BuildTrie(c, oldnew);
      PairsSize(oldnew);
      root, coding, pairs := node, c, PairsOf(oldnew);
    }

    /** Whether the table of the root has nothing for byte b. */
    method StartsNothing(b: Byte) returns (skip: bool)
      requires Valid()
      ensures skip ==> root.Child(coding, b) == map[]
    {
      var index := coding.mapping[b];
      skip := index == coding.size || root.table.value[index] == null;
    }

    /** No key is empty, and none starts like s: nothing matches. */
    lemma NothingStarts(s: seq<Byte>, ignoreEmpty: bool)
      requires Valid() && root.priority == 0
      requires s != [] && root.Child(coding, s[0]) == map[]
      ensures FirstMatch(pairs, 0, s, ignoreEmpty) == None
    {
      hide Get, Rest, Starts, EntriesOf, FirstMatch, Candidate, Bounded, NoneBetween;
      var m := root.entries;
      RestAll(m);
      assert s[..0] == [];
      root.ValidTells(coding);
      OwnEntry(root, coding, m, s, 0);
      Visited(m, s, ignoreEmpty, 0, 0, None);
      DescendTable(root, coding, m, s, 0);
      BoundedMore(m, s, ignoreEmpty, 0, 0, |s| + 1);
      NoneIsNone(pairs, s, ignoreEmpty);
    }

    lemma EmptyKeyAtRoot(s: seq<Byte>, ignoreEmpty: bool)
      requires Valid()
      ensures match FirstMatch(pairs, 0, s, ignoreEmpty)
        case Some(i) => pairs[i].key == [] ==> root.priority > 0
        case None => true
    {
      var f := FirstMatch(pairs, 0, s, ignoreEmpty);
      if f.Some? && pairs[f.value].key == [] {
        EntryOfPair(pairs, |pairs|, f.value);
        assert Get(root.entries, []) != None;
      }
    }

    /** Walks down the trie along s and keeps the value with the highest priority. */
    method Lookup(s0: seq<Byte>, ignoreRoot: bool) returns (val: seq<Byte>, keylen: nat, found: bool)
      requires Valid()
      ensures match FirstMatch(pairs, 0, s0, ignoreRoot)
        case Some(i) => found && val == pairs[i].val && keylen == |pairs[i].key|
        case None => !found
    {
      hide Get, Rest, Starts, Candidate, Bounded, NoneBetween, FirstMatch, EntriesOf, TrieNode.Spells;
      ghost var m := root.entries;
      var s := s0;
      var bestPriority: nat := 0;
      var node: TrieNode? := root;
      var n: nat := 0;
      val, keylen, found := [], 0, false;
      RestAll(m);
      assert s0[..0] == [];
      while node != null
        invariant n <= |s0| && s == s0[n..]
        invariant node != null ==> node.Valid(coding) && node.entries == Rest(m, s0[..n])
        invariant n == 0 ==> node == root
        invariant n > 0 && node != null ==> root !in node.Repr
        invariant if n == 0 then bestPriority == 0 else Bounded(m, s0, ignoreRoot, bestPriority, n - 1)
        invariant node == null ==> Bounded(m, s0, ignoreRoot, bestPriority, |s0|)
        invariant Best(m, s0, ignoreRoot, val, keylen, found, bestPriority)
        decreases |s|
      {
        node.ValidTells(coding);
        OwnEntry(node, coding, m, s0, n);
        Visited(m, s0, ignoreRoot, bestPriority, n, Get(m, s0[..n]));
        if node.priority > bestPriority && !(ignoreRoot && node == root) {
          bestPriority := node.priority;
          val := node.value;
          keylen := n;
          found := true;
          IsCandidate(m, s0, ignoreRoot, n, Entry(val, bestPriority));
        }
        if |s| == 0 {
          break;
        }
        if node.table.Some? {
          DescendTable(node, coding, m, s0, n);
          var index := coding.mapping[s[0]];
          if index == coding.size {
            BoundedMore(m, s0, ignoreRoot, bestPriority, n, |s0| + 1);
            break;
          }
          node := node.table.value[index];
          if node == null { BoundedMore(m, s0, ignoreRoot, bestPriority, n, |s0| + 1); }
          s := s[1..];
          n := n + 1;
        } else if |node.prefix| > 0 && node.prefix <= s {
          DescendPrefix(node, coding, m, s0, n, node.next);
          BoundedMore(m, s0, ignoreRoot, bestPriority, n, n + |node.prefix|);
          n := n + |node.prefix|;
          s := s[|node.prefix|..];
          node := node.next;
        } else {
          DescendNowhere(node, coding, m, s0, n);
          BoundedMore(m, s0, ignoreRoot, bestPriority, n, |s0| + 1);
          break;
        }
      }
      BestIsAnswer(pairs, s0, ignoreRoot, val, keylen, found, bestPriority);
    }
  }
}
