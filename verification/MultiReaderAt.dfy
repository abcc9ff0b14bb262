/**
 Several readers behind each other, read as one.
 */
module MultiReaderAt {
  import opened Bytes

  datatype ReadResult = ReadResult(bytes: Str, err: bool)

  /** read(off, n) says what a read into a buffer of n bytes gives. */
  datatype Part = Part(size: nat, read: (int, nat) -> ReadResult)

  /** All reads that are not empty and lie inside the part give its content, without an error. */
  ghost predicate Serves(p: Part, content: Str)
  {
    && p.size == |content|
    && (forall off, n :: 0 <= off && 0 < n && off + n <= p.size ==>
          p.read(off, n) == ReadResult(content[off..off + n], false))
    && (p.size == 0 && !p.read(0, 0).err ==> p.read(0, 0).bytes == [])
  }

  lemma PartOfPart(all: Str, tail: Str, c: Str, at: nat, skip: nat, n: nat)
    requires at <= |all| && tail == all[at..] && c <= tail && skip + n <= |c|
    ensures all[at + skip..at + skip + n] == c[skip..skip + n]
  {
    assert tail[skip..skip + n] == c[skip..skip + n];
  }

  /** A part of any size that is all zeros; it does not even look at the offset. */
  function ZeroSizeReaderAt(size: nat): Part
  {
    Part(size, (off: int, n: nat) => ReadResult(Zeros(n), false))
  }

  /** A reader of bytes in memory, which reports the end also for empty reads. */
  function BytesReader(s: Str): Part
  {
    Part(|s|, (off: int, n: nat) =>
      if off < 0 || off >= |s| then ReadResult([], true)
      else if off + n > |s| then ReadResult(s[off..], true)
      else ReadResult(s[off..off + n], false))
  }

  lemma ZerosServe(size: nat)
    ensures Serves(ZeroSizeReaderAt(size), Zeros(size))
  {
  }

  lemma BytesServe(s: Str)
    ensures Serves(BytesReader(s), s)
  {
  }

  lemma SizeOf(p: Part, content: Str)
    requires Serves(p, content)
    ensures p.size == |content|
  {
  }

  // ---------- Concatenation ----------

  ghost function Concat(contents: seq<Str>): Str
  {
    if contents == [] then [] else contents[0] + Concat(contents[1..])
  }

  /** Where content k ends in the concatenation. */
  lemma {:induction false} ConcatAt(contents: seq<Str>, k: nat)
    requires k <= |contents|
    ensures |Concat(contents[k..])| <= |Concat(contents)|
    ensures Concat(contents)[|Concat(contents)| - |Concat(contents[k..])|..] == Concat(contents[k..])
  {
    if k == 0 {
      assert contents[0..] == contents;
    } else {
      assert contents[1..][k - 1..] == contents[k..];
      ConcatAt(contents[1..], k - 1);
    }
  }

  lemma ConcatStep(contents: seq<Str>, k: nat)
    requires k < |contents|
    ensures Concat(contents[k..]) == contents[k] + Concat(contents[k + 1..])
  {
    assert contents[k..][1..] == contents[k + 1..];
  }

  // ---------- The reader ----------

  datatype OffsetAndSource = OffsetAndSource(off: nat, part: Part)

  class MultiRA {
    const parts: seq<OffsetAndSource>
    const size: nat
    ghost const contents: seq<Str>

    ghost predicate Valid()
    {
      && |parts| == |contents| && size == |Content()|
      && forall k :: 0 <= k < |parts| ==> PartValid(k)
    }

    ghost predicate PartValid(k: nat)
      requires k < |parts| == |contents|
    {
      && Serves(parts[k].part, contents[k])
      && parts[k].off + |Concat(contents[k..])| == size
    }

    ghost function Content(): Str
    {
      Concat(contents)
    }

    constructor (parts: seq<Part>, ghost contents: seq<Str>)
      requires |parts| == |contents| && |Concat(contents)| < TWO_63
      requires forall k :: 0 <= k < |parts| ==> Serves(parts[k], contents[k])
      ensures Valid() && this.contents == contents
      ensures |this.parts| == |parts| && forall k :: 0 <= k < |parts| ==> this.parts[k].part == parts[k]
    {
      hide Serves;
      var m: seq<OffsetAndSource>, off: nat, i := [], 0, 0;
      assert contents[0..] == contents;
      while i < |parts|
        invariant i <= |parts| && |m| == i
        invariant off + |Concat(contents[i..])| == |Concat(contents)|
        invariant forall k :: 0 <= k < i ==>
          m[k].part == parts[k] && m[k].off + |Concat(contents[k..])| == |Concat(contents)|
      {
        ConcatStep(contents, i);
        SizeOf(parts[i], contents[i]);
        m := m + [OffsetAndSource(off, parts[i])];
        off := off + parts[i].size;
        i := i + 1;
      }
      assert contents[i..] == [];
      this.parts := m;
      this.size := off;
      this.contents := contents;
    }

    /** Whether part k is empty, and not even an empty read of it succeeds. */
    predicate Refuses(k: nat)
      requires k < |parts|
    {
      parts[k].part.size == 0 && parts[k].part.read(0, 0).err
    }

    /** How far can be read from off on: to the end, or to the first part behind off that refuses. */
    ghost function Limit(off: nat, k: nat := 0): nat
      requires k <= |parts|
      decreases |parts| - k
    {
      if k == |parts| then size
      else if Refuses(k) && parts[k].off > off then parts[k].off
      else Limit(off, k + 1)
    }

    lemma {:induction false} LimitAhead(off: nat, k: nat)
      requires Valid() && k < |parts|
      ensures parts[k].off <= Limit(off, k) <= size
      decreases |parts| - k
    {
      hide Serves;
      Sizes(k);
      if k + 1 < |parts| {
        Adjacent(k);
        LimitAhead(off, k + 1);
      }
    }

    lemma {:induction false} LimitBetween(off: nat, k: nat)
      requires Valid() && k <= |parts|
      ensures Limit(off, k) <= size && (off < size ==> off < Limit(off, k))
      decreases |parts| - k
    {
      hide Serves;
      if k < |parts| {
        Sizes(k);
        LimitBetween(off, k + 1);
      }
    }

    lemma {:induction false} LimitFrom(off: nat, k: nat)
      requires Valid() && k <= |parts| && forall i :: 0 <= i < k ==> !(Refuses(i) && parts[i].off > off)
      ensures Limit(off) == Limit(off, k)
    {
      if k > 0 {
        LimitFrom(off, k - 1);
      }
    }

    /** If no empty part between others refuses, everything can be read. */
    lemma {:induction false} NoLimit(off: nat, k: nat)
      requires Valid() && k <= |parts|
      requires forall i :: 0 <= i < |parts| && Refuses(i) ==> parts[i].off == 0 || parts[i].off == size
      ensures Limit(off, k) == size
      decreases |parts| - k
    {
      if k < |parts| {
        NoLimit(off, k + 1);
      }
    }

    /** Whether part i ends behind off. */
    predicate EndsBehind(off: nat, i: nat)
      requires i < |parts|
    {
      parts[i].off + parts[i].part.size > off
    }

    lemma {:induction false} Ends(off: nat, i: nat, j: nat)
      requires Valid() && i <= j < |parts|
      ensures parts[i].off + parts[i].part.size <= parts[j].off + parts[j].part.size
      ensures i < j ==> parts[i].off + parts[i].part.size <= parts[j].off
      decreases j - i
    {
      if i < j {
        Adjacent(i);
        Ends(off, i + 1, j);
      }
    }

    lemma Adjacent(i: nat)
      requires Valid() && i + 1 < |parts|
      ensures parts[i + 1].off == parts[i].off + parts[i].part.size
    {
      hide Serves;
      ConcatStep(contents, i);
      Sizes(i);
      Sizes(i + 1);
    }

    /** The first part that ends behind off, by binary search. */
    method SkipParts(off: nat) returns (i: nat)
      requires Valid()
      ensures i <= |parts|
      ensures forall k :: 0 <= k < i ==> !EndsBehind(off, k)
      ensures i < |parts| ==> EndsBehind(off, i)
    {
      i := 0;
      var j := |parts|;
      while i < j
        invariant i <= j <= |parts|
        invariant forall k :: 0 <= k < i ==> !EndsBehind(off, k)
        invariant j < |parts| ==> EndsBehind(off, j)
      {
        var h := (i + j) / 2;
        if !EndsBehind(off, h) {
          forall k | i <= k < h + 1 ensures !EndsBehind(off, k) { Ends(off, k, h); }
          i := h + 1;
        } else {
          j := h;
        }
      }
    }

    /** Fills p from off on, as far as possible; an error says that p could not be filled. */
    method ReadAt(p: array<Byte>, off: nat) returns (n: nat, err: bool)
      requires Valid()
      modifies p
      ensures Limit(off) <= size && (off < size ==> off < Limit(off))
      ensures n == if off >= size then 0 else Least(p.Length, Limit(off) - off)
      ensures n > 0 ==> p[..n] == Content()[off..off + n]
      ensures p[n..] == old(p[n..])
      ensures err <==> n != p.Length
    {
      hide Serves, Concat, Limit;
      LimitBetween(off, 0);
      var skip := SkipParts(off);
      var k: nat, needSkip: nat := skip, off;
      if k < |parts| {
        FirstPart(off, k);
        needSkip := needSkip - parts[k].off;
      } else {
        NoPart(off);
      }
      assert Limit(off) == Limit(off, k) by { NothingBefore(off, k); }
      n := 0;
      while k < |parts| && n < p.Length
        invariant k <= |parts| && n <= p.Length
        invariant n == p.Length || (At(k, needSkip, off, n) && (n > 0 && k < |parts| ==> parts[k].off > off))
        invariant n == 0 && k < |parts| ==> parts[k].part.size > 0
        invariant Limit(off) == Limit(off, k) && (n == 0 || off + n <= Limit(off))
        invariant forall x :: 0 <= x < n ==> p[x] == Content()[off + x]
        invariant forall x :: n <= x < p.Length ==> p[x] == old(p[x])
        decreases |parts| - k, p.Length - n
      {
        var partSize := parts[k].part.size;
        var want := Least(p.Length - n, partSize - needSkip);
        PartRead(off, n, k, needSkip, want);
        LimitStep(off, n, k, needSkip, want);
        var r := parts[k].part.read(needSkip, want);
        if r.err { return n, true; }
        Copy(p, n, r.bytes);
        Advance(off, n, k, needSkip, want);
        n := n + want;
        if want + needSkip == partSize { k := k + 1; }
        needSkip := 0;
      }
      err := n != p.Length;
    }

    lemma FirstPart(off: nat, k: nat)
      requires Valid() && k < |parts| && EndsBehind(off, k)
      requires forall i :: 0 <= i < k ==> !EndsBehind(off, i)
      ensures parts[k].off <= off && At(k, off - parts[k].off, off, 0)
    {
      hide Serves;
      ConcatStep(contents, k);
      Sizes(k);
      if k > 0 {
        assert !EndsBehind(off, k - 1);
        Adjacent(k - 1);
      } else {
        assert contents[0..] == contents;
      }
    }

    lemma Sizes(k: nat)
      requires Valid() && k < |parts|
      ensures PartValid(k) && parts[k].part.size == |contents[k]|
    {
    }

    lemma NoPart(off: nat)
      requires Valid() && forall i :: 0 <= i < |parts| ==> !EndsBehind(off, i)
      ensures At(|parts|, off, off, 0)
    {
      hide Serves;
      if |parts| > 0 {
        var k := |parts| - 1;
        Sizes(k);
        ConcatStep(contents, k);
        assert contents[k + 1..] == [] && !EndsBehind(off, k);
      } else {
        assert contents == [];
      }
    }

    /** What the read of a part gives. */
    lemma PartRead(off: nat, n: nat, k: nat, needSkip: nat, want: nat)
      requires Valid() && k < |parts| && At(k, needSkip, off, n)
      requires want <= parts[k].part.size - needSkip && (want == 0 ==> needSkip == parts[k].part.size)
      ensures off + n + want <= size
      ensures var r := parts[k].part.read(needSkip, want);
        && r.err == Refuses(k)
        && (!r.err ==> r.bytes == Content()[off + n..off + n + want])
    {
      Sizes(k);
      ConcatStep(contents, k);
      ConcatAt(contents, k);
      var tail, c := Concat(contents[k..]), contents[k];
      assert tail == Content()[parts[k].off..];
      PartOfPart(Content(), tail, c, parts[k].off, needSkip, want);
      if want > 0 {
        assert parts[k].part.read(needSkip, want) == ReadResult(c[needSkip..needSkip + want], false);
      } else {
        assert needSkip == 0;
      }
    }

    lemma LimitStep(off: nat, n: nat, k: nat, needSkip: nat, want: nat)
      requires Valid() && k < |parts| && At(k, needSkip, off, n)
      requires want <= parts[k].part.size - needSkip && (n > 0 ==> parts[k].off > off)
      requires n == 0 ==> parts[k].part.size > 0
      ensures Refuses(k) ==> Limit(off, k) == off + n
      ensures !Refuses(k) ==> Limit(off, k) == Limit(off, k + 1)
      ensures off + n + want <= Limit(off, k)
    {
      LimitAhead(off, k);
      if k + 1 < |parts| {
        Adjacent(k);
        LimitAhead(off, k + 1);
      } else {
        Last(k);
      }
    }

    lemma Last(k: nat)
      requires Valid() && k + 1 == |parts|
      ensures parts[k].off + parts[k].part.size == size
    {
      hide Serves;
      Sizes(k);
      ConcatStep(contents, k);
      assert contents[k + 1..] == [];
    }

    /** The parts that are skipped end at off or before. */
    lemma NothingBefore(off: nat, k: nat)
      requires Valid() && k <= |parts| && forall i :: 0 <= i < k ==> !EndsBehind(off, i)
      ensures Limit(off) == Limit(off, k)
    {
      forall i | 0 <= i < k ensures !(Refuses(i) && parts[i].off > off) {
        assert !EndsBehind(off, i);
      }
      LimitFrom(off, k);
    }

    lemma Advance(off: nat, n: nat, k: nat, needSkip: nat, want: nat)
      requires Valid() && k < |parts| && At(k, needSkip, off, n)
      requires want <= parts[k].part.size - needSkip
      ensures want + needSkip == parts[k].part.size ==> At(k + 1, 0, off, n + want) && (k + 1 < |parts| ==> parts[k + 1].off == parts[k].off + parts[k].part.size)
    {
      hide Serves;
      Sizes(k);
      ConcatStep(contents, k);
      if k + 1 < |parts| {
        Sizes(k + 1);
      } else {
        assert contents[k + 1..] == [];
      }
    }

    /** Byte needSkip of part k is byte off + n of the content. */
    ghost predicate At(k: nat, needSkip: nat, off: nat, n: nat)
      requires k <= |parts|
    {
      if k < |parts| then
        && parts[k].off + needSkip == off + n <= size
        && (needSkip < parts[k].part.size || needSkip == 0)
      else off + n >= size && (n > 0 ==> off + n == size)
    }
  }

  method Copy(p: array<Byte>, at: nat, s: Str)
    requires at + |s| <= p.Length
    modifies p
    ensures forall x :: 0 <= x < |s| ==> p[at + x] == s[x]
    ensures forall x :: 0 <= x < p.Length && !(at <= x < at + |s|) ==> p[x] == old(p[x])
  {
    var i := 0;
    while i < |s|
      invariant i <= |s|
      invariant forall x :: 0 <= x < i ==> p[at + x] == s[x]
      invariant forall x :: 0 <= x < p.Length && !(at <= x < at + i) ==> p[x] == old(p[x])
    {
      p[at + i] := s[i];
      i := i + 1;
    }
  }
}
