/**
 The lookup trie of the generic byte replacer.

 A node stands for the keys that continue from it.  Its ghost field entries maps each of
 them to the value and the priority that it was added with.
 */
module ReplaceTrie {
  import opened Wrappers
  import opened Bytes

  datatype Entry = Entry(val: seq<Byte>, priority: nat)

  type Entries = map<seq<Byte>, Entry>

  ghost function Get(m: Entries, k: seq<Byte>): Option<Entry>
  {
    if k in m then Some(m[k]) else None
  }

  /** The first value added for a key stays. */
  ghost function Added(m: Entries, key: seq<Byte>, e: Entry): Entries
  {
    if key in m then m else m[key := e]
  }

  /** The entries whose keys start with p, without it. */
  ghost function Rest(m: Entries, p: seq<Byte>): Entries
  {
    map k | k in (set l | l in m && p <= l :: l[|p|..]) && p + k in m :: m[p + k]
  }

  /** All keys but the empty one start with p. */
  ghost predicate Starts(m: Entries, p: seq<Byte>)
  {
    forall k :: k in m && k != [] ==> p <= k
  }

  lemma RestGet(m: Entries, p: seq<Byte>, k: seq<Byte>)
    ensures Get(Rest(m, p), k) == Get(m, p + k)
  {
    if p + k in m {
      assert p <= p + k && (p + k)[|p|..] == k;
    }
  }

  lemma SameEntries(m: Entries, l: Entries)
    requires forall k :: Get(m, k) == Get(l, k)
    ensures m == l
  {
    forall k ensures k in m <==> k in l { assert Get(m, k) == Get(l, k); }
    forall k | k in m ensures m[k] == l[k] { assert Get(m, k) == Get(l, k); }
  }

  lemma RestRest(m: Entries, p: seq<Byte>, q: seq<Byte>)
    ensures Rest(Rest(m, p), q) == Rest(m, p + q)
  {
    hide Rest, Get;
    forall k ensures Get(Rest(Rest(m, p), q), k) == Get(Rest(m, p + q), k)
    {
      RestGet(Rest(m, p), q, k);
      RestGet(m, p, q + k);
      RestGet(m, p + q, k);
      assert p + (q + k) == p + q + k;
    }
    SameEntries(Rest(Rest(m, p), q), Rest(m, p + q));
  }

  /** Adding a key, seen from below p. */
  lemma RestAdded(m: Entries, key: seq<Byte>, e: Entry, p: seq<Byte>)
    ensures Rest(Added(m, key, e), p) == if p <= key then Added(Rest(m, p), key[|p|..], e) else Rest(m, p)
  {
    hide Rest;
    var l := if p <= key then Added(Rest(m, p), key[|p|..], e) else Rest(m, p);
    forall k ensures Get(Rest(Added(m, key, e), p), k) == Get(l, k)
    {
      RestGet(Added(m, key, e), p, k);
      RestGet(m, p, k);
      if p <= key {
        assert key == p + key[|p|..];
        RestGet(m, p, key[|p|..]);
        assert p + k == key <==> k == key[|p|..];
      }
    }
    SameEntries(Rest(Added(m, key, e), p), l);
  }

  lemma AddedAtEnd(m: Entries, key: seq<Byte>, e: Entry)
    ensures Get(Added(m, key, e), []) == if key == [] && Get(m, []) == None then Some(e) else Get(m, [])
  {
  }

  lemma StartsAdded(m: Entries, key: seq<Byte>, e: Entry, p: seq<Byte>)
    requires Starts(m, p) && p <= key
    ensures Starts(Added(m, key, e), p)
  {
  }

  /** Cutting a prefix in two. */
  lemma RestMiddle(m: Entries, p: seq<Byte>, n: nat)
    requires Starts(m, p) && 0 < n < |p|
    ensures Rest(Rest(m, p[..n]), p[n..]) == Rest(m, p)
    ensures Starts(m, p[..n]) && Starts(Rest(m, p[..n]), p[n..])
    ensures Get(Rest(m, p[..n]), []) == None
  {
    assert p == p[..n] + p[n..];
    RestRest(m, p[..n], p[n..]);
    RestGet(m, p[..n], []);
    assert p[..n] + [] == p[..n];
    forall k | k in Rest(m, p[..n]) && k != [] ensures p[n..] <= k
    {
      RestGet(m, p[..n], k);
      assert p <= p[..n] + k;
      assert (p[..n] + k)[n..|p|] == p[n..];
    }
    forall k | k in m && k != [] ensures p[..n] <= k
    {
      assert p <= k && k[..|p|][..n] == k[..n];
    }
  }

  lemma RestElsewhere(m: Entries, p: seq<Byte>, b: Byte)
    requires p != [] && Starts(m, p) && b != p[0]
    ensures Rest(m, [b]) == map[]
  {
    hide Rest;
    forall k ensures Get(Rest(m, [b]), k) == Get(map[], k)
    {
      RestGet(m, [b], k);
      assert [b] + k in m ==> p <= [b] + k;
    }
    SameEntries(Rest(m, [b]), map[]);
  }

  lemma RestNothing(m: Entries, p: seq<Byte>)
    requires m.Keys <= {[]} && p != []
    ensures Rest(m, p) == map[]
  {
    hide Rest;
    forall k ensures Get(Rest(m, p), k) == Get(map[], k)
    {
      RestGet(m, p, k);
      assert p + k in m ==> p + k in m.Keys;
    }
    SameEntries(Rest(m, p), map[]);
  }

  lemma StartsNew(m: Entries, key: seq<Byte>, e: Entry)
    requires m.Keys <= {[]}
    ensures Starts(Added(m, key, e), key)
  {
    forall k | k in Added(m, key, e) && k != [] ensures key <= k
    {
      assert k in m ==> k in m.Keys;
    }
  }

  /** A numbering of the bytes in use by 0..size; all other bytes have the number size. */
  datatype Coding = Coding(mapping: seq<Byte>, size: nat) {
    ghost predicate Valid()
    {
      && |mapping| == 256
      && (forall b :: 0 <= b < 256 ==> mapping[b] <= size)
      && (forall b, c :: 0 <= b < 256 && 0 <= c < 256 && mapping[b] == mapping[c] < size ==> b == c)
    }

    ghost predicate Codes(key: seq<Byte>)
    {
      |mapping| == 256 && forall b :: b in key ==> mapping[b] < size
    }
  }

  class TrieNode {
    var value: seq<Byte>
    var priority: nat
    var prefix: seq<Byte>
    var next: TrieNode?
    var table: Option<seq<TrieNode?>>
    ghost var entries: Entries
    ghost var Repr: set<TrieNode>

    ghost predicate Valid(c: Coding)
      reads this, Repr
      ensures Valid(c) ==> this in Repr
      decreases Repr, 1
    {
      && this in Repr && c.Valid()
      && (table.Some? ==> |table.value| == c.size && prefix == [])
      && Shape(c)
      && Spells(c)
    }

    /** The node and its children are a tree. */
    ghost predicate Shape(c: Coding)
      reads this, Repr
      decreases Repr, 0
    {
      && this in Repr
      && c.Valid()
      && c.Codes(prefix)
      && (prefix == [] <==> next == null)
      && (next != null ==>
            && table.None?
            && next in Repr && next.Repr <= Repr && this !in next.Repr
            && next.Valid(c))
      && (table.Some? ==>
            && |table.value| == c.size
            && (forall i :: 0 <= i < c.size && table.value[i] != null ==>
                  && table.value[i] in Repr && table.value[i].Repr <= Repr && this !in table.value[i].Repr
                  && table.value[i].Valid(c))
            && (forall i, j :: 0 <= i < j < c.size && table.value[i] != null && table.value[j] != null ==>
                  table.value[i].Repr !! table.value[j].Repr))
    }

    /** What the table holds for the keys that start with byte b. */
    ghost function Child(c: Coding, b: Byte): Entries
      requires |c.mapping| == 256 && table.Some? && |table.value| == c.size
      reads this, table.value
    {
      var m := c.mapping[b];
      if m < c.size && table.value[m] != null then table.value[m].entries else map[]
    }

    /** The fields and the children together hold exactly the entries. */
    ghost predicate Spells(c: Coding)
      requires |c.mapping| == 256
      requires prefix != [] ==> next != null
      requires table.Some? ==> |table.value| == c.size
      reads this, next, if table.Some? then table.value else []
    {
      && Get(entries, []) == (if priority > 0 then Some(Entry(value, priority)) else None)
      && if prefix != [] then next.entries == Rest(entries, prefix) && Starts(entries, prefix)
         else if table.Some? then forall b: Byte :: Rest(entries, [b]) == Child(c, b)
         else entries.Keys <= {[]}
    }

    /** What a valid node says about its own entries. */
    ghost predicate Tells(c: Coding)
      reads this, next, if table.Some? then table.value else []
    {
      && |c.mapping| == 256 && (prefix == [] <==> next == null)
      && (table.Some? ==> |table.value| == c.size && prefix == [])
      && Spells(c)
    }

    lemma ValidTells(c: Coding)
      requires Valid(c)
      ensures Tells(c)
    {
    }

    constructor Empty(ghost c: Coding)
      requires c.Valid()
      ensures Valid(c) && fresh(Repr) && entries == map[]
      ensures priority == 0 && prefix == [] && table.None?
    {
      value, priority, prefix, next, table := [], 0, [], null, None;
      entries, Repr := map[], {this};
    }

    constructor Root(c: Coding)
      requires c.Valid()
      ensures Valid(c) && fresh(Repr) && entries == map[] && table.Some?
    {
      value, priority, prefix, next := [], 0, [], null;
      table := Some(seq(c.size, _ => null));
      entries, Repr := map[], {this};
    }

    /** A node without a value from which the keys of next continue after prefix. */
    constructor Prefixed(prefix: seq<Byte>, next: TrieNode, ghost c: Coding, ghost entries: Entries)
      requires prefix != [] && next.Valid(c) && c.Codes(prefix)
      requires next.entries == Rest(entries, prefix) && Starts(entries, prefix) && Get(entries, []) == None
      ensures Valid(c) && fresh(Repr - next.Repr) && this.entries == entries
    {
      hide Get, Rest, Starts;
      value, priority, table := [], 0, None;
      this.prefix, this.next := prefix, next;
      this.entries, Repr := entries, {this} + next.Repr;
    }

    method Add(key: seq<Byte>, val: seq<Byte>, priority: nat, c: Coding)
      requires Valid(c) && c.Codes(key) && priority > 0
      modifies Repr
      ensures Valid(c) && fresh(Repr - old(Repr))
      ensures entries == Added(old(entries), key, Entry(val, priority))
      ensures old(table.Some?) ==> table.Some?
      decreases |key|, 2
    {
      if |key| == 0 {
        AddHere(val, priority, c);
      } else if |prefix| > 0 {
        var n := 0;
        while n < |prefix| && n < |key| && prefix[n] == key[n]
          invariant 0 <= n <= |prefix| && n <= |key|
          invariant prefix[..n] == key[..n]
        {
          n := n + 1;
        }
        if n == |prefix| {
          AddNext(key, val, priority, c);
        } else if n == 0 {
          SplitFirst(key, val, priority, c);
        } else {
          SplitMiddle(n, key, val, priority, c);
        }
      } else if table.Some? {
        AddTable(key, val, priority, c);
      } else {
        AddFresh(key, val, priority, c);
      }
    }

    method AddHere(val: seq<Byte>, priority: nat, ghost c: Coding)
      requires Valid(c) && priority > 0
      modifies this
      ensures Valid(c) && Repr == old(Repr)
      ensures entries == Added(old(entries), [], Entry(val, priority))
      ensures table == old(table)
    {
      hide Rest;
      ghost var e := Entry(val, priority);
      ghost var before := entries;
      if this.priority == 0 {
        value := val;
        this.priority := priority;
        entries := Added(before, [], e);
        RestAdded(before, [], e, prefix);
        forall b: Byte { RestAdded(before, [], e, [b]); }
      }
    }

    /** The whole prefix is a prefix of the key. */
    method AddNext(key: seq<Byte>, val: seq<Byte>, priority: nat, c: Coding)
      requires Valid(c) && c.Codes(key) && priority > 0
      requires prefix != [] && prefix <= key
      modifies Repr
      ensures Valid(c) && fresh(Repr - old(Repr))
      ensures entries == Added(old(entries), key, Entry(val, priority))
      ensures table == old(table)
      decreases |key|, 0
    {
      hide Get, Added, Rest, Starts;
      ghost var e := Entry(val, priority);
      RestAdded(entries, key, e, prefix);
      StartsAdded(entries, key, e, prefix);
      AddedAtEnd(entries, key, e);
      next.Add(key[|prefix|..], val, priority, c);
      entries := Added(entries, key, e);
      Repr := Repr + next.Repr;
    }

    /** A table with one entry, for the first byte of the prefix, replaces the prefix. */
    method PrefixToTable(c: Coding)
      requires Valid(c) && prefix != []
      modifies this
      ensures Valid(c) && fresh(Repr - old(Repr))
      ensures entries == old(entries) && table.Some?
    {
      hide Get, Added, Rest, Starts;
      ghost var p := prefix;
      var prefixNode := BelowFirst(c);
      forall b: Byte ensures b != p[0] ==> Rest(entries, [b]) == map[]
      {
        if b != p[0] { RestElsewhere(entries, p, b); }
      }
      var nodes := seq(c.size, _ => null);
      table := Some(nodes[c.mapping[prefix[0]] := prefixNode]);
      prefix, next := [], null;
      Repr := Repr + prefixNode.Repr;
    }

    /** The node for what comes after the first byte of the prefix. */
    method BelowFirst(c: Coding) returns (node: TrieNode)
      requires Valid(c) && prefix != []
      ensures node.Valid(c) && node.entries == Rest(entries, [prefix[0]])
      ensures this !in node.Repr && fresh(node.Repr - Repr)
    {
      hide Get, Added, Rest, Starts;
      node := next;
      if |prefix| == 1 {
        assert prefix == [prefix[0]];
      } else {
        RestMiddle(entries, prefix, 1);
        assert prefix[..1] == [prefix[0]];
        node := new TrieNode.Prefixed(prefix[1..], next, c, Rest(entries, prefix[..1]));
      }
    }

    /** The first byte differs: a table, with a new node for the key, replaces the prefix. */
    method SplitFirst(key: seq<Byte>, val: seq<Byte>, priority: nat, c: Coding)
      requires Valid(c) && c.Codes(key) && priority > 0
      requires prefix != [] && key != [] && prefix[0] != key[0]
      modifies Repr
      ensures Valid(c) && fresh(Repr - old(Repr))
      ensures entries == Added(old(entries), key, Entry(val, priority))
      ensures table.Some?
      decreases |key|, 1
    {
      PrefixToTable(c);
      AddTable(key, val, priority, c);
    }

    /** The key and the prefix have exactly their first n bytes in common. */
    method SplitMiddle(n: nat, key: seq<Byte>, val: seq<Byte>, priority: nat, c: Coding)
      requires Valid(c) && c.Codes(key) && priority > 0
      requires 0 < n < |prefix| && n <= |key| && prefix[..n] == key[..n]
      modifies Repr
      ensures Valid(c) && fresh(Repr - old(Repr))
      ensures entries == Added(old(entries), key, Entry(val, priority))
      ensures table == old(table)
      decreases |key|, 1
    {
      CutPrefix(n, c);
      AddNext(key, val, priority, c);
    }

    /** Puts a node with the rest of the prefix between this one and the next. */
    method CutPrefix(n: nat, c: Coding)
      requires Valid(c) && 0 < n < |prefix|
      modifies this
      ensures Valid(c) && fresh(Repr - old(Repr))
      ensures entries == old(entries) && prefix == old(prefix)[..n] && table == old(table)
    {
      hide Get, Added, Rest, Starts;
      RestMiddle(entries, prefix, n);
      var node := new TrieNode.Prefixed(prefix[n..], next, c, Rest(entries, prefix[..n]));
      prefix := prefix[..n];
      next := node;
      Repr := Repr + next.Repr;
    }

    /** Puts an empty node where the table has none. */
    method OpenSlot(m: nat, ghost c: Coding)
      requires Valid(c) && table.Some? && m < c.size
      modifies this
      ensures Valid(c) && fresh(Repr - old(Repr))
      ensures entries == old(entries)
      ensures table.Some? && |table.value| == c.size && table.value[m] != null
    {
      hide Get, Rest, Coding.Codes;
      if table.value[m] == null {
        var child := new TrieNode.Empty(c);
        table := Some(table.value[m := child]);
        Repr := Repr + child.Repr;
      }
    }

    /** Adds a key to the child in slot m, which makes the entries of this node grow to all. */
    method AddToSlot(m: nat, key: seq<Byte>, val: seq<Byte>, priority: nat, c: Coding, ghost all: Entries)
      requires Shape(c) && c.Codes(key) && priority > 0
      requires table.Some? && m < c.size && table.value[m] != null
      modifies Repr
      ensures Shape(c) && this in Repr && fresh(Repr - old(Repr))
      ensures entries == all && table == old(table) && prefix == old(prefix)
      ensures value == old(value) && this.priority == old(this.priority)
      ensures forall i :: 0 <= i < c.size && i != m && table.value[i] != null ==>
                table.value[i].entries == old(table.value[i].entries)
      ensures table.value[m].entries == Added(old(table.value[m].entries), key, Entry(val, priority))
      decreases |key|, 3
    {
      hide Get, Added, Rest, Starts, Spells;
      var child := table.value[m];
      child.Add(key, val, priority, c);
      forall i | 0 <= i < c.size && i != m && table.value[i] != null
        ensures table.value[i].Valid(c) && table.value[i].Repr == old(table.value[i].Repr)
        ensures table.value[i].Repr !! child.Repr
      {
      }
      entries := all;
      Repr := Repr + child.Repr;
    }

    /** The key continues in the table. */
    method AddTable(key: seq<Byte>, val: seq<Byte>, priority: nat, c: Coding)
      requires Valid(c) && c.Codes(key) && priority > 0
      requires table.Some? && key != []
      modifies Repr
      ensures Valid(c) && fresh(Repr - old(Repr))
      ensures entries == Added(old(entries), key, Entry(val, priority))
      ensures table.Some?
      decreases |key|, 0
    {
      hide Get, Added, Rest, Starts, Shape;
      ghost var e := Entry(val, priority);
      forall b: Byte { RestAdded(entries, key, e, [b]); }
      AddedAtEnd(entries, key, e);
      var m := c.mapping[key[0]];
      OpenSlot(m, c);
      ghost var before := entries;
      label Before:
      AddToSlot(m, key[1..], val, priority, c, Added(entries, key, e));
      forall b: Byte ensures Rest(entries, [b]) == Child(c, b)
      {
        assert Rest(before, [b]) == old@Before(Child(c, b));
        assert [b] <= key <==> b == key[0];
        if b == key[0] {
          assert Child(c, b) == Added(Rest(before, [b]), key[1..], e);
        } else {
          assert c.mapping[b] < c.size ==> c.mapping[b] != m;
          assert Child(c, b) == old@Before(Child(c, b));
        }
      }
    }

    /** There is neither a prefix nor a table yet. */
    method AddFresh(key: seq<Byte>, val: seq<Byte>, priority: nat, c: Coding)
      requires Valid(c) && c.Codes(key) && priority > 0
      requires prefix == [] && table.None? && key != []
      modifies Repr
      ensures Valid(c) && fresh(Repr - old(Repr))
      ensures entries == Added(old(entries), key, Entry(val, priority))
      decreases |key|, 0
    {
      hide Get, Added, Rest, Starts;
      ghost var e := Entry(val, priority);
      RestNothing(entries, key);
      RestAdded(entries, key, e, key);
      StartsNew(entries, key, e);
      AddedAtEnd(entries, key, e);
      var node := new TrieNode.Empty(c);
      assert key[|key|..] == [];
      node.Add([], val, priority, c);
      prefix := key;
      next := node;
      entries := Added(entries, key, e);
      Repr := Repr + next.Repr;
    }
  }
}
