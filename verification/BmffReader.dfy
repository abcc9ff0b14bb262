/**
 A reader of boxes over a buffered input, which may be able to seek.
 */
module BmffReader {
  import opened Wrappers
  import opened Bytes
  import opened Bmff

  /** A buffered reader of content. */
  class Stream {
    const content: Str
    var fetched: nat // position of the underlying reader
    var buffer: Str  // fetched, but not handed out

    ghost predicate Valid()
      reads this
    {
      && |content| < TWO_63 && |buffer| <= fetched
      && (buffer != [] ==> fetched <= |content| && content[fetched - |buffer|..fetched] == buffer)
    }

    ghost function Position(): nat
      requires Valid()
      reads this
    {
      fetched - |buffer|
    }

    ghost function Rest(): Str
      requires Valid()
      reads this
    {
      From(content, Position())
    }

    constructor (content: Str)
      requires |content| < TWO_63
      ensures Valid() && this.content == content && Position() == 0
    {
      this.content := content;
      fetched, buffer := 0, [];
    }

    /** Fetches until n bytes are buffered, or the input ends; how much comes at a time is not known. */
    method Fill(n: nat)
      requires Valid()
      modifies this
      ensures Valid() && Position() == old(Position())
      ensures Least(n, |Rest()|) <= |buffer| <= |Rest()| && buffer == Rest()[..|buffer|]
    {
      while |buffer| < n && fetched < |content|
        invariant Valid() && Position() == old(Position())
        decreases |content| - fetched
      {
        var k: nat :| 0 < k <= |content| - fetched;
        buffer := buffer + content[fetched..fetched + k];
        fetched := fetched + k;
      }
    }

    /** The next n bytes, or fewer at the end, without consuming them. */
    method Peek(n: nat) returns (s: Str)
      requires Valid()
      modifies this
      ensures Valid() && Position() == old(Position())
      ensures s == Rest()[..Least(n, |Rest()|)] && |s| <= |buffer|
    {
      Fill(n);
      s := buffer[..Least(n, |buffer|)];
    }

    /** The next n bytes, or fewer at the end. */
    method Read(n: nat) returns (s: Str)
      requires Valid()
      modifies this
      ensures Valid() && Position() == old(Position()) + |s|
      ensures s == old(Rest())[..Least(n, |old(Rest())|)] && Rest() == old(Rest())[|s|..]
    {
      s := Peek(n);
      buffer := buffer[|s|..];
    }

    /** Drops bytes that were peeked at. */
    method Discard(n: nat)
      requires Valid() && n <= |buffer|
      modifies this
      ensures Valid() && Position() == old(Position()) + n && Rest() == old(Rest())[n..]
    {
      buffer := buffer[n..];
    }

    method ReadAll() returns (s: Str)
      requires Valid()
      modifies this
      ensures Valid() && Position() == old(Position()) + |s|
      ensures s == old(Rest())
    {
      s := Read(|content|);
    }

    /** Moves the underlying reader, possibly beyond the end, and forgets what was buffered. */
    method Seek(k: nat)
      requires Valid()
      modifies this
      ensures Valid() && Position() == old(Position() + |buffer|) + k
    {
      fetched := fetched + k;
      buffer := [];
    }
  }

  // ---------- Boxes one by one ----------

  datatype BoxRead =
    | Eof
    | Broken
    | Got(typ: Tag, size: nat, offset: int, headerSize: nat)

  /** Reads the boxes from the place where br is when the reader is made. */
  class Reader {
    const br: Stream
    const seekable: bool
    var pos: int            // offset of the next header, while that lies inside the input
    var left: Option<nat>   // unread part of the last box's body; None if it extends to the end
    var noMoreBoxes: bool
    ghost const start: nat  // where the first header is
    ghost var next: nat     // where the next header is, from start

    ghost predicate Valid()
      reads this, br
    {
      && br.Valid()
      && (left.None? ==> noMoreBoxes)
      && (!noMoreBoxes ==>
            && left.Some? && br.Position() + left.value == start + next
            && (start + next <= |br.content| ==> pos == next))
    }

    constructor (br: Stream, seekable: bool)
      requires br.Valid()
      ensures Valid() && !noMoreBoxes && next == 0 && left == Some(0)
      ensures this.br == br && this.seekable == seekable && start == br.Position()
    {
      this.br := br;
      this.seekable := seekable;
      pos, left, noMoreBoxes := 0, Some(0), false;
      start, next := br.Position(), 0;
    }

    /** The input from the next header on. */
    ghost function Ahead(): Str
      requires Valid()
      reads this, br
    {
      From(br.content, start + next)
    }

    /** The boxes to come. */
    ghost function ToCome(): Listing
      requires Valid()
      reads this, br
    {
      if noMoreBoxes then Listing([], Eof) else Boxes(Ahead(), next)
    }

    /** What can still be read of the last box's body. */
    ghost function BodyAhead(): Str
      requires Valid()
      reads this, br
    {
      match left
      case Some(n) => br.Rest()[..Least(n, |br.Rest()|)]
      case None => br.Rest()
    }

    /** Up to n more bytes of the body of the last box. */
    method ReadBody(n: nat) returns (s: Str)
      requires Valid()
      modifies this`left, br
      ensures Valid()
      ensures s == old(BodyAhead())[..Least(n, |old(BodyAhead())|)]
      ensures Ahead() == old(Ahead()) && ToCome() == old(ToCome())
    {
      hide Boxes;
      match left {
        case Some(m) =>
          s := br.Read(Least(n, m));
          left := Some(m - |s|);
        case None =>
          s := br.Read(n);
      }
    }

    method ReadWholeBody() returns (s: Str)
      requires Valid()
      modifies this`left, br
      ensures Valid() && s == old(BodyAhead())
    {
      match left {
        case Some(m) =>
          s := br.Read(m);
          left := Some(m - |s|);
        case None =>
          s := br.ReadAll();
      }
    }

    /** Goes to the next header, by seeking where that pays and works, else by reading. */
    method SkipRest()
      requires Valid() && !noMoreBoxes
      modifies this`left, br
      ensures Valid() && br.Rest() == old(Ahead())
    {
      var n := left.value;
      if seekable && n > |br.buffer| {
        if * {
          br.Seek(n - |br.buffer|);
          left := Some(0);
          return;
        }
        // the attempt to seek failed
      }
      var s := br.Read(n);
      left := Some(n - |s|);
    }

    /** The header that is found depends neither on how much of the last body was read, nor on
        how the rest of it is skipped.  After a failure the reader is not to be used again. */
    method ReadBox() returns (r: BoxRead)
      requires Valid()
      modifies this, br
      ensures br.Valid() && (r.Got? ==> Valid())
      ensures old(noMoreBoxes) ==> r == Eof
      ensures !old(noMoreBoxes) ==>
        match ReadHeader(old(Ahead()))
        case End => r == Eof
        case Bad => r == Broken
        case Header(typ, size, headerSize, remain) =>
          && r == Got(typ, size, old(next), headerSize)
          && noMoreBoxes == (size == 0) && left == remain
          && next == old(next) + size
          && br.Rest() == old(Ahead())[headerSize..]
    {
      if noMoreBoxes { return Eof; }
      SkipRest();
      var h := NextHeader(br);
      match h {
        case End => r := Eof;
        case Bad => r := Broken;
        case Header(typ, size, headerSize, remain) =>
          r := Got(typ, size, pos, headerSize);
          left := remain;
          if size == 0 {
            noMoreBoxes := true;
          } else {
            pos := Signed64(pos + size);
            next := next + size;
          }
      }
    }
  }

  /** Reads a header off the input. */
  method NextHeader(br: Stream) returns (h: Header)
    requires br.Valid()
    modifies br
    ensures br.Valid() && h == ReadHeader(old(br.Rest()))
    ensures h.Header? ==> br.Position() == old(br.Position()) + h.headerSize
  {
    hide From, U32, U64, Signed64, ReadHeader;
    ghost var s := br.Rest();
    HeaderCases(s);
    var four := br.Read(4);
    if |four| == 0 { return End; }
    if |four| < 4 { return Bad; }
    var typ := br.Read(4);
    if |typ| == 0 { return End; }
    if |typ| < 4 { return Bad; }
    var size, headerSize, remain := U32(four), 8, 0;
    assert four == s[..4] && typ == s[4..8] && br.Rest() == s[8..];
    if size == 1 {
      var eight := br.Read(8);
      if |eight| == 0 { return End; }
      if |eight| < 8 { return Bad; }
      Slice(s, 8, 16);
      size, headerSize := Signed64(U64(eight)), 16;
      if size < 0 { return Bad; }
      remain := size - 2 * 4 - 8;
    } else if size != 0 {
      remain := size - 2 * 4;
    }
    if remain < 0 { return Bad; }
    h := Header(typ, size, headerSize, if size > 0 then Some(remain) else None);
  }

  lemma Slice(s: Str, i: nat, j: nat)
    requires i <= j <= |s|
    ensures s[i..][..j - i] == s[i..j]
  {
  }

  lemma HeaderCases(s: Str)
    ensures |s| == 0 || |s| == 4 ==> ReadHeader(s) == End
    ensures |s| < 8 && |s| != 0 && |s| != 4 ==> ReadHeader(s) == Bad
    ensures |s| >= 8 ==>
      var size, typ := U32(s[..4]), s[4..8];
      && (size == 0 ==> ReadHeader(s) == Header(typ, 0, 8, None))
      && (2 <= size < 8 ==> ReadHeader(s) == Bad)
      && (size >= 8 ==> ReadHeader(s) == Header(typ, size, 8, Some(size - 8)))
      && (size == 1 && |s| == 8 ==> ReadHeader(s) == End)
      && (size == 1 && 8 < |s| < 16 ==> ReadHeader(s) == Bad)
      && (size == 1 && |s| >= 16 ==>
            var large := Signed64(U64(s[8..16]));
            ReadHeader(s) == if large < 16 then Bad else Header(typ, large, 16, Some(large - 16)))
  {
    if |s| >= 8 {
      assert U32(s[..4]) == U32(s);
      if |s| >= 16 {
        Prefix64(s[8..16], s[8..]);
        Signed(U64(s[8..]));
      }
    }
  }

  lemma Prefix64(s: Str, t: Str)
    requires |s| >= 8 && s <= t
    ensures U64(s) == U64(t)
  {
  }

  lemma Signed(n: nat)
    requires n < TWO_64
    ensures Signed64(n) == if n < TWO_63 then n else n - TWO_64
  {
  }

  // ---------- All boxes ----------

  datatype Listing = Listing(boxes: seq<BoxRead>, end: BoxRead)

  /** The boxes of s, which begins at offset at, and what comes behind them. */
  function Boxes(s: Str, at: nat): Listing
    decreases |s|
  {
    match ReadHeader(s)
    case End => Listing([], Eof)
    case Bad => Listing([], Broken)
    case Header(typ, size, headerSize, remain) =>
      var rest := if size == 0 then Listing([], Eof) else Boxes(From(s, size), at + size);
      Listing([Got(typ, size, at, headerSize)] + rest.boxes, rest.end)
  }

  function SizesSum(boxes: seq<BoxRead>): int
  {
    if boxes == [] then 0
    else (if boxes[0].Got? then boxes[0].size else 0) + SizesSum(boxes[1..])
  }

  /** Each offset is the sum of the sizes before it. */
  lemma {:induction false} OffsetsAreSums(s: Str, at: nat, k: nat)
    requires k < |Boxes(s, at).boxes|
    ensures Boxes(s, at).boxes[k].Got?
    ensures Boxes(s, at).boxes[k].offset == at + SizesSum(Boxes(s, at).boxes[..k])
    decreases |s|
  {
    hide ReadHeader;
    var all, h := Boxes(s, at).boxes, ReadHeader(s);
    if k > 0 {
      OffsetsAreSums(From(s, h.size), at + h.size, k - 1);
      assert all[..k] == [all[0]] + all[1..][..k - 1];
      assert all[..k][1..] == all[1..][..k - 1];
    }
  }

  /** Reads all boxes, and amounts[i] bytes of the body of box i before going on.  The result depends
      neither on the amounts, nor on whether the input can seek, nor on how it is buffered. */
  method Walk(r: Reader, amounts: seq<nat>) returns (boxes: seq<BoxRead>, end: BoxRead)
    requires r.Valid() && !r.noMoreBoxes
    modifies r, r.br
    ensures Listing(boxes, end) == Boxes(old(r.Ahead()), old(r.next))
  {
    ghost var all := r.ToCome();
    assert all == Boxes(r.Ahead(), r.next);
    assert Continues(all, [], all);
    hide *;
    boxes := [];
    while true
      invariant r.Valid() && Continues(all, boxes, r.ToCome())
      decreases !r.noMoreBoxes, |r.Ahead()|
    {
      ghost var before := r.ToCome();
      var b := NextOfAll(r);
      if !b.Got? {
        Ends(all, boxes, before, b);
        return boxes, b;
      }
      OneMore(all, boxes, before, b, r.ToCome());
      boxes := boxes + [b];
      if |boxes| <= |amounts| {
        var _ := r.ReadBody(amounts[|boxes| - 1]);
      }
    }
  }

  ghost predicate Continues(all: Listing, boxes: seq<BoxRead>, rest: Listing)
  {
    all == Listing(boxes + rest.boxes, rest.end)
  }

  lemma OneMore(all: Listing, boxes: seq<BoxRead>, before: Listing, b: BoxRead, after: Listing)
    requires Continues(all, boxes, before) && before == Listing([b] + after.boxes, after.end)
    ensures Continues(all, boxes + [b], after)
  {
  }

  lemma Ends(all: Listing, boxes: seq<BoxRead>, before: Listing, b: BoxRead)
    requires Continues(all, boxes, before) && before == Listing([], b)
    ensures all == Listing(boxes, b)
  {
  }

  method NextOfAll(r: Reader) returns (b: BoxRead)
    requires r.Valid()
    modifies r, r.br
    ensures b.Got? ==> r.Valid() && old(r.ToCome()) == Listing([b] + r.ToCome().boxes, r.ToCome().end)
    ensures !b.Got? ==> old(r.ToCome()) == Listing([], b)
    ensures b.Got? && !r.noMoreBoxes ==> !old(r.noMoreBoxes) && |r.Ahead()| < |old(r.Ahead())|
  {
    hide ReadHeader, Least;
    ghost var s, at := r.Ahead(), r.next;
    b := r.ReadBox();
  }
}
