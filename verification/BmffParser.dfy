/**
 The parsers of box bodies, which read field by field and remember the first error.
 */
module BmffParser {
  import opened Wrappers
  import opened Bytes
  import opened Bmff
  import opened BmffReader

  /** What is read where c is unread; nothing after an error. */
  function Try16(c: Option<Str>): Option<Read<nat>> { match c case Some(s) => Take16(s) case None => None }
  function Try32(c: Option<Str>): Option<Read<nat>> { match c case Some(s) => Take32(s) case None => None }
  function Try8(c: Option<Str>): Option<Read<nat>> { match c case Some(s) => Take8(s) case None => None }
  function TryN(size: nat, c: Option<Str>): Option<Read<nat>> { match c case Some(s) => TakeN(size, s) case None => None }
  function TryString(c: Option<Str>): Option<Read<Str>> { match c case Some(s) => TakeString(s) case None => None }

  /** Reading r gives v and leaves after unread; an error gives none. */
  predicate Took<T(==)>(r: Option<Read<T>>, v: T, none: T, after: Option<Str>)
  {
    match r
    case Some(x) => v == x.value && after == Some(x.rest)
    case None => v == none && after == None
  }

  class BufReader {
    const br: Stream
    var err: bool

    constructor (br: Stream)
      requires br.Valid()
      ensures Valid() && !err && this.br == br
    {
      this.br := br;
      err := false;
    }

    ghost predicate Valid()
      reads this, br
    {
      br.Valid()
    }

    /** What is not yet read, or None after an error. */
    ghost function Unread(): Option<Str>
      requires Valid()
      reads this, br
    {
      if err then None else Some(br.Rest())
    }

    method ReadUint8() returns (v: nat)
      requires Valid()
      modifies this, br
      ensures Valid() && Took(Try8(old(Unread())), v, 0, Unread())
    {
      if err { return 0; }
      var s := br.Read(1);
      if |s| < 1 {
        err := true;
        return 0;
      }
      v := s[0];
    }

    method ReadUint16() returns (v: nat)
      requires Valid()
      modifies this, br
      ensures Valid() && Took(Try16(old(Unread())), v, 0, Unread())
    {
      if err { return 0; }
      var s := br.Peek(2);
      if |s| < 2 {
        err := true;
        return 0;
      }
      v := U16(s);
      br.Discard(2);
    }

    method ReadUint32() returns (v: nat)
      requires Valid()
      modifies this, br
      ensures Valid() && Took(Try32(old(Unread())), v, 0, Unread())
    {
      if err { return 0; }
      var s := br.Peek(4);
      if |s| < 4 {
        err := true;
        return 0;
      }
      v := U32(s);
      assert U32(s) == U32(br.Rest());
      br.Discard(4);
    }

    /** An integer of the given width; only 0, 8, 16, 32 and 64 are possible. */
    method ReadUintN(bits: nat) returns (v: nat)
      requires Valid()
      modifies this, br
      ensures Valid()
      ensures Took(if bits % 8 == 0 then TryN(bits / 8, old(Unread())) else None, v, 0, Unread())
    {
      if err || bits == 0 { return 0; }
      var n := bits / 8;
      var s := br.Peek(n);
      if |s| < n {
        err := true;
        return 0;
      }
      ghost var rest := br.Rest();
      br.Discard(n);
      match bits {
        case 8 => v := s[0];
        case 16 => v := U16(s);
        case 32 => v := U32(s); assert v == U32(rest);
        case 64 => v := U64(s); Prefix64(s, rest);
        case _ => err := true; v := 0;
      }
    }

    /** A string that ends with a zero byte. */
    method ReadString() returns (v: Str)
      requires Valid()
      modifies this, br
      ensures Valid() && Took(TryString(old(Unread())), v, [], Unread())
    {
      v := [];
      if err { return; }
      hide TakeString;
      ghost var all := TakeString(br.Rest());
      assert all == Longer(v, all) by { LongerByNothing(all); }
      while true
        invariant Valid() && !err
        invariant all == Longer(v, TakeString(br.Rest()))
        decreases |br.Rest()|
      {
        StringStep(v, br.Rest());
        var s := br.Read(1);
        if s == [] {
          err := true;
          return [];
        }
        if s[0] == 0 {
          return;
        }
        assert s == [s[0]];
        v := v + s;
      }
    }

    method AnyRemain() returns (b: bool)
      requires Valid()
      modifies br
      ensures Valid() && Unread() == old(Unread())
      ensures b == (Unread().Some? && Unread().value != [])
    {
      if err { return false; }
      var s := br.Peek(1);
      b := |s| == 1;
    }

    /** Appends all boxes that follow, with their bodies. */
    method ParseAppendBoxes() returns (boxes: seq<Box>)
      requires Valid()
      modifies this, br
      ensures Valid()
      ensures match old(Unread())
        case None => err
        case Some(s) => err == SplitBoxes(s).None? && (!err ==> boxes == SplitBoxes(s).value)
    {
      boxes := [];
      if err { return; }
      var r := new Reader(br, false);
      ghost var all := SplitBoxes(br.Rest());
      assert r.Ahead() == br.Rest();
      PrependNothing(all);
      hide SplitBoxes, Prepend;
      while true
        invariant Valid() && !err && fresh(r) && r.Valid() && r.br == br
        invariant all == Prepend(boxes, if r.noMoreBoxes then Some([]) else SplitBoxes(r.Ahead()))
        decreases !r.noMoreBoxes, |r.Ahead()|
      {
        var b, body := NextBody(r);
        if b == Eof {
          PrependToEnd(boxes);
          return;
        }
        if b == Broken {
          PrependToEnd(boxes);
          err := true;
          return;
        }
        PrependMore(boxes, Box(b.typ, body), if r.noMoreBoxes then Some([]) else SplitBoxes(r.Ahead()));
        boxes := boxes + [Box(b.typ, body)];
      }
    }
  }

  ghost function Longer(v: Str, r: Option<Read<Str>>): Option<Read<Str>>
  {
    match r
    case None => None
    case Some(r) => Some(Read(v + r.value, r.rest))
  }

  lemma LongerByNothing(r: Option<Read<Str>>)
    ensures Longer([], r) == r
  {
    if r.Some? { assert [] + r.value.value == r.value.value; }
  }

  lemma StringStep(v: Str, s: Str)
    ensures Longer(v, TakeString(s)) ==
      if s == [] then None else if s[0] == 0 then Some(Read(v, s[1..])) else Longer(v + [s[0]], TakeString(s[1..]))
  {
    if s != [] && s[0] == 0 {
      assert v + [] == v;
    } else if s != [] && TakeString(s[1..]).Some? {
      assert v + ([s[0]] + TakeString(s[1..]).value.value) == v + [s[0]] + TakeString(s[1..]).value.value;
    }
  }

  /** Larger sizes are not trusted. */
  const MAX_PREALLOC := 0x10_0000

  /** The next box with its whole body. */
  method NextBody(r: Reader) returns (b: BoxRead, body: Str)
    requires r.Valid()
    modifies r, r.br
    ensures r.br.Valid() && (b.Got? ==> r.Valid())
    ensures old(r.noMoreBoxes) ==> b == Eof
    ensures !old(r.noMoreBoxes) ==>
      match b
      case Eof => SplitBoxes(old(r.Ahead())) == Some([])
      case Broken => SplitBoxes(old(r.Ahead())) == None
      case Got(_, _, _, _) =>
        && SplitBoxes(old(r.Ahead())) ==
             Prepend([Box(b.typ, body)], if r.noMoreBoxes then Some([]) else SplitBoxes(r.Ahead()))
        && (!r.noMoreBoxes ==> |r.Ahead()| < |old(r.Ahead())|)
  {
    hide SplitBoxes, ReadHeader, Prepend;
    ghost var s := if r.noMoreBoxes then [] else r.Ahead();
    SplitStep(s);
    b := r.ReadBox();
    body := [];
    if b.Got? {
      var n := b.size - b.headerSize;
      ghost var ahead := r.BodyAhead();
      if b.size <= 0 || n > MAX_PREALLOC {
        body := r.ReadWholeBody();
      } else {
        body := r.ReadBody(n);
        assert ahead[..|ahead|] == ahead;
      }
    }
  }

  lemma SplitStep(s: Str)
    ensures ReadHeader(s).End? ==> SplitBoxes(s) == Some([])
    ensures ReadHeader(s).Bad? ==> SplitBoxes(s) == None
    ensures ReadHeader(s).Header? ==>
      SplitBoxes(s) == Prepend([Box(ReadHeader(s).typ, BodyOf(ReadHeader(s), s))],
                               if ReadHeader(s).remain.None? then Some([]) else SplitBoxes(From(s, ReadHeader(s).size)))
  {
    var h := ReadHeader(s);
    if h.Header? {
      var e := BoxEnd(h, |s|);
      assert s[h.headerSize..e] == BodyOf(h, s);
      assert [Box(h.typ, BodyOf(h, s))] + [] == [Box(h.typ, BodyOf(h, s))];
      assert h.remain.Some? ==> s[e..] == From(s, h.size);
    }
  }

  /** The body, which may be cut short. */
  function BodyOf(h: Header, s: Str): Str
    requires h.Header? && h.headerSize <= |s|
  {
    var rest := s[h.headerSize..];
    if h.remain.None? then rest else rest[..Least(h.remain.value, |rest|)]
  }

  // ---------- Bodies without children ----------

  method ReadFullBox(br: BufReader) returns (r: Option<Full>)
    requires br.Valid() && !br.err
    modifies br.br
    ensures br.Valid() && r.Some? == TakeFull(old(br.br.Rest())).Some?
    ensures r.Some? ==> TakeFull(old(br.br.Rest())) == Some(Read(r.value, br.br.Rest()))
  {
    var s := br.br.Peek(4);
    if |s| < 4 { return None; }
    br.br.Discard(4);
    r := Some(Full(s[0], s[1] as int * 0x1_0000 + s[2] as int * 256 + s[3]));
  }

  method ParseFileTypeBox(br: BufReader) returns (r: Option<FileType>)
    requires br.Valid() && !br.err
    modifies br.br
    ensures r == ParseFileType(old(br.br.Rest()))
  {
    ghost var all := br.br.Rest();
    var s := br.br.Peek(8);
    if |s| < 8 { return None; }
    br.br.Discard(8);
    assert s[..4] == all[..4] && s[4..8] == all[4..8];
    var compatible := ReadQuads(br.br);
    r := Some(FileType(s[..4], s[4..8], compatible));
  }

  /** Groups of four bytes; an incomplete one at the end is left. */
  method ReadQuads(br: Stream) returns (quads: seq<Tag>)
    requires br.Valid()
    modifies br
    ensures quads == Quads(old(br.Rest()))
  {
    quads := [];
    ghost var all := Quads(br.Rest());
    assert quads + all == all;
    while true
      invariant br.Valid() && all == quads + Quads(br.Rest())
      decreases |br.Rest()|
    {
      var t := br.Peek(4);
      if |t| < 4 {
        assert quads + [] == quads;
        return;
      }
      assert quads + ([t] + Quads(br.Rest()[4..])) == quads + [t] + Quads(br.Rest()[4..]);
      quads := quads + [t];
      br.Discard(4);
    }
  }

  method ParseMetaBox(br: BufReader) returns (r: Option<seq<Box>>)
    requires br.Valid() && !br.err
    modifies br, br.br
    ensures r == ParseMeta(old(br.br.Rest()))
  {
    var s := br.br.Peek(8);
    if !(|s| == 8 && s[4..8] == HDLR) {
      var full := ReadFullBox(br);
      if full.None? { return None; }
    }
    var children := br.ParseAppendBoxes();
    r := if br.err then None else Some(children);
  }

  method ParseHandlerBox(br: BufReader) returns (r: Option<Handler>)
    requires br.Valid() && !br.err
    modifies br, br.br
    ensures r == ParseHandler(old(br.br.Rest()))
  {
    hide UpToZero;
    ghost var all := br.br.Rest();
    var full := ReadFullBox(br);
    if full.None? { return None; }
    var s := br.br.Peek(20);
    if |s| < 20 { return None; }
    Slice(all, 8, 12);
    assert s[4..8] == all[8..12];
    br.br.Discard(20);
    assert br.br.Rest() == all[24..];
    var name := ReadUnterminated(br.br);
    r := Some(Handler(s[4..8], name));
  }

  /** The end of the input may take the place of the zero byte. */
  method ReadUnterminated(br: Stream) returns (v: Str)
    requires br.Valid()
    modifies br
    ensures v == UpToZero(old(br.Rest()))
  {
    v := [];
    ghost var all := UpToZero(br.Rest());
    assert v + all == all;
    while true
      invariant br.Valid() && all == v + UpToZero(br.Rest())
      decreases |br.Rest()|
    {
      ghost var rest := br.Rest();
      var s := br.Read(1);
      if s == [] || s[0] == 0 {
        assert v + [] == v;
        return;
      }
      assert s == [s[0]] && v + ([s[0]] + UpToZero(rest[1..])) == v + s + UpToZero(rest[1..]);
      v := v + s;
    }
  }

  method ParsePrimaryItemBox(br: BufReader) returns (r: Option<nat>)
    requires br.Valid() && !br.err
    modifies br, br.br
    ensures r == ParsePrimaryItem(old(br.br.Rest()))
  {
    var full := ReadFullBox(br);
    if full.None? { return None; }
    var id;
    if full.value.version == 0 { id := br.ReadUint16(); } else { id := br.ReadUint32(); }
    r := if br.err then None else Some(id);
  }

  method ParseImageSpatialExtents(br: BufReader) returns (r: Option<(nat, nat)>)
    requires br.Valid() && !br.err
    modifies br, br.br
    ensures r == ParseSpatialExtents(old(br.br.Rest()))
  {
    var full := ReadFullBox(br);
    if full.None? { return None; }
    var w := br.ReadUint32();
    if br.err { return None; }
    var h := br.ReadUint32();
    if br.err { return None; }
    r := Some((w, h));
  }

  method ParseImageRotation(br: BufReader) returns (r: Option<Angle>)
    requires br.Valid() && !br.err
    modifies br, br.br
    ensures r == ParseRotation(old(br.br.Rest()))
  {
    var v := br.ReadUint8();
    r := if br.err then None else Some(v % 4);
  }

  method ParseInfe(br: BufReader) returns (r: Option<ItemInfo>)
    requires br.Valid() && !br.err
    modifies br, br.br
    ensures r == ParseItemInfoEntry(old(br.br.Rest()))
  {
    hide EntryStrings, U16;
    ghost var all := br.br.Rest();
    var full := ReadFullBox(br);
    if full.None? || full.value.version != 2 { return None; }
    assert br.br.Rest() == all[4..];
    var id := br.ReadUint16();
    var protection := br.ReadUint16();
    if br.err { return None; }
    assert br.br.Rest() == all[8..] && all[4..][2..] == all[6..];
    var typ := br.br.Peek(4);
    if |typ| < 4 { return None; }
    Slice(all, 8, 12);
    var strings := ReadEntryStrings(br, typ);
    r := if strings.Some? then Some(ItemInfo(id, protection, typ, strings.value)) else None;
  }

  method ReadEntryStrings(br: BufReader, typ: Tag) returns (r: Option<Strings>)
    requires br.Valid() && !br.err
    modifies br, br.br
    ensures r == EntryStrings(typ, old(br.br.Rest()))
  {
    hide TakeString;
    var strings := Strings([], [], [], []);
    var name := br.ReadString();
    strings := strings.(name := name);
    if typ == MIME {
      var content := br.ReadString();
      strings := strings.(contentType := content);
      var more := br.AnyRemain();
      if more {
        var encoding := br.ReadString();
        strings := strings.(contentEncoding := encoding);
      }
    } else if typ == URI {
      var uri := br.ReadString();
      strings := strings.(uriType := uri);
    }
    r := if br.err then None else Some(strings);
  }

  // ---------- Associations ----------

  method ReadAssociations(br: BufReader, wide: bool, n: nat) returns (a: seq<Association>)
    requires br.Valid() && !br.err
    modifies br, br.br
    ensures br.Valid()
    ensures match TakeAssociations(wide, n, old(br.br.Rest()))
      case None => br.err
      case Some(r) => !br.err && a == r.value && br.br.Rest() == r.rest
  {
    hide TakeAssociations, TakeAssociation, After;
    a := [];
    ghost var all := TakeAssociations(wide, n, br.br.Rest());
    AfterNothing(all);
    var j := 0;
    while j < n && !br.err
      invariant br.Valid() && j <= n
      invariant all == After(a, if br.err then None else TakeAssociations(wide, n - j, br.br.Rest()))
    {
      AssociationStep(a, wide, n - j, br.br.Rest());
      var x := ReadAssociation(br, wide);
      a := a + [x];
      j := j + 1;
      AfterEnd(a);
    }
    AfterEnd(a);
    NoAssociations(wide, br.br.Rest());
  }

  method ReadAssociation(br: BufReader, wide: bool) returns (a: Association)
    requires br.Valid() && !br.err
    modifies br, br.br
    ensures br.Valid()
    ensures match TakeAssociation(wide, old(br.br.Rest()))
      case None => br.err
      case Some(r) => !br.err && a == r.value && br.br.Rest() == r.rest
  {
    var first := br.ReadUint8();
    var essential := first >= 128;
    var index := first % 128;
    if wide {
      var second := br.ReadUint8();
      index := index * 256 + second;
    }
    a := Association(essential, index);
  }

  method ReadEntry(br: BufReader, f: Full) returns (e: Entry)
    requires br.Valid() && !br.err
    modifies br, br.br
    ensures br.Valid()
    ensures match TakeEntry(f, old(br.br.Rest()))
      case None => br.err
      case Some(r) => !br.err && e == r.value && br.br.Rest() == r.rest
  {
    hide TakeAssociations, Take16, Take32, Take8;
    var id;
    if f.version < 1 { id := br.ReadUint16(); } else { id := br.ReadUint32(); }
    var n := br.ReadUint8();
    var a := [];
    if !br.err { a := ReadAssociations(br, f.flags % 2 == 1, n); }
    e := Entry(id, a);
  }

  method ParseIpma(br: BufReader) returns (r: Option<seq<Entry>>)
    requires br.Valid() && !br.err
    modifies br, br.br
    ensures r == ParseAssociations(old(br.br.Rest()))
  {
    hide TakeEntry, Take32, TakeFull, TakeEntries, Prepend;
    var full := ReadFullBox(br);
    if full.None? { return None; }
    var f := full.value;
    var count := br.ReadUint32();
    var entries := [];
    ghost var all := if br.err then None else TakeEntries(f, count, br.br.Rest());
    PrependNothing(all);
    var i := 0;
    while i < count && !br.err
      invariant br.Valid() && (br.err || i <= count)
      invariant all == Prepend(entries, if br.err then None else TakeEntries(f, count - i, br.br.Rest()))
    {
      EntryStep(entries, f, count - i, br.br.Rest());
      var e := ReadEntry(br, f);
      entries := entries + [e];
      i := i + 1;
      PrependToEnd(entries);
    }
    PrependToEnd(entries);
    if !br.err { NoEntries(f, br.br.Rest()); }
    r := if br.err then None else Some(entries);
  }

  ghost function After<T>(a: seq<T>, r: Option<Read<seq<T>>>): Option<Read<seq<T>>>
  {
    match r
    case None => None
    case Some(r) => Some(Read(a + r.value, r.rest))
  }

  lemma AfterNothing<T>(r: Option<Read<seq<T>>>)
    ensures After([], r) == r
  {
    if r.Some? { assert [] + r.value.value == r.value.value; }
  }

  lemma AfterEnd<T>(a: seq<T>)
    ensures After(a, None) == None && forall s :: After(a, Some(Read([], s))) == Some(Read(a, s))
  {
    assert a + [] == a;
  }

  lemma AfterMore<T>(a: seq<T>, x: T, r: Option<Read<seq<T>>>)
    ensures After(a, After([x], r)) == After(a + [x], r)
  {
    if r.Some? { assert a + ([x] + r.value.value) == a + [x] + r.value.value; }
  }

  lemma NoAssociations(wide: bool, s: Str)
    ensures TakeAssociations(wide, 0, s) == Some(Read([], s))
  {
  }

  lemma AssociationStep(a: seq<Association>, wide: bool, n: nat, s: Str)
    requires n > 0
    ensures After(a, TakeAssociations(wide, n, s)) ==
      match TakeAssociation(wide, s)
      case None => None
      case Some(x) => After(a + [x.value], TakeAssociations(wide, n - 1, x.rest))
  {
    match TakeAssociation(wide, s)
    case None =>
    case Some(x) => AfterMore(a, x.value, TakeAssociations(wide, n - 1, x.rest));
  }

  lemma NoEntries(f: Full, s: Str)
    ensures TakeEntries(f, 0, s) == Some([])
  {
  }

  lemma EntryStep(a: seq<Entry>, f: Full, n: nat, s: Str)
    requires n > 0
    ensures Prepend(a, TakeEntries(f, n, s)) ==
      match TakeEntry(f, s)
      case None => None
      case Some(x) => Prepend(a + [x.value], TakeEntries(f, n - 1, x.rest))
  {
    match TakeEntry(f, s)
    case None =>
    case Some(x) => PrependMore(a, x.value, TakeEntries(f, n - 1, x.rest));
  }

  // ---------- Locations ----------

  method ReadExtent(br: BufReader, z: Sizes) returns (e: Extent)
    requires br.Valid() && !br.err
    modifies br, br.br
    ensures br.Valid()
    ensures match TakeExtent(z, old(br.br.Rest()))
      case None => br.err
      case Some(r) => !br.err && e == r.value && br.br.Rest() == r.rest
  {
    hide TakeN;
    if z.version > 0 {
      var _ := br.ReadUintN(z.index * 8);
    }
    var offset := br.ReadUintN(z.offset * 8);
    var length := br.ReadUintN(z.length * 8);
    e := Extent(offset, length);
  }

  method ReadExtents(br: BufReader, z: Sizes, n: nat) returns (x: seq<Extent>)
    requires br.Valid() && !br.err
    modifies br, br.br
    ensures br.Valid()
    ensures match TakeExtents(z, n, old(br.br.Rest()))
      case None => br.err
      case Some(r) => !br.err && x == r.value && br.br.Rest() == r.rest
  {
    hide TakeExtents, TakeExtent, After;
    x := [];
    ghost var all := TakeExtents(z, n, br.br.Rest());
    AfterNothing(all);
    AfterEnd(x);
    var j := 0;
    while !br.err && j < n
      invariant br.Valid() && j <= n
      invariant all == After(x, if br.err then None else TakeExtents(z, n - j, br.br.Rest()))
    {
      ExtentStep(x, z, n - j, br.br.Rest());
      var e := ReadExtent(br, z);
      if br.err { return; }
      x := x + [e];
      j := j + 1;
      AfterEnd(x);
    }
    AfterEnd(x);
    NoExtents(z, br.br.Rest());
  }

  lemma NoExtents(z: Sizes, s: Str)
    ensures TakeExtents(z, 0, s) == Some(Read([], s))
  {
  }

  lemma ExtentStep(a: seq<Extent>, z: Sizes, n: nat, s: Str)
    requires n > 0
    ensures After(a, TakeExtents(z, n, s)) ==
      match TakeExtent(z, s)
      case None => None
      case Some(x) => After(a + [x.value], TakeExtents(z, n - 1, x.rest))
  {
    match TakeExtent(z, s)
    case None =>
    case Some(x) => AfterMore(a, x.value, TakeExtents(z, n - 1, x.rest));
  }

  method ReadLocation(br: BufReader, z: Sizes) returns (l: Location)
    requires br.Valid() && !br.err
    modifies br, br.br
    ensures br.Valid()
    ensures match TakeLocation(z, old(br.br.Rest()))
      case None => br.err
      case Some(r) => !br.err && l == r.value && br.br.Rest() == r.rest
  {
    hide TakeN, Take16, Take32, TakeExtents;
    var id, construction := 0, 0;
    if z.version < 2 { id := br.ReadUint16(); } else { id := br.ReadUint32(); }
    if z.version > 0 {
      construction := br.ReadUint16();
    }
    var dataReference := br.ReadUint16();
    var base := br.ReadUintN(z.base * 8);
    var n := br.ReadUint16();
    var extents := [];
    if !br.err { extents := ReadExtents(br, z, n); }
    l := Location(id, construction % 16, dataReference, base, extents);
  }

  method ParseItemLocationBox(br: BufReader) returns (r: Option<seq<Location>>)
    requires br.Valid() && !br.err
    modifies br, br.br
    ensures r == ParseItemLocation(old(br.br.Rest()))
  {
    hide TakeLocation, TakeLocations, Prepend, ParseItemLocation;
    ghost var s := br.br.Rest();
    var z, count := ReadLocationSizes(br);
    if z.None? { return None; }
    r := ReadLocations(br, z.value, count);
  }

  /** The head of the box.  An error in the count is noticed later. */
  method ReadLocationSizes(br: BufReader) returns (z: Option<Sizes>, count: nat)
    requires br.Valid() && !br.err
    modifies br, br.br
    ensures br.Valid()
    ensures ParseItemLocation(old(br.br.Rest())) ==
      if z.None? || br.err then None else TakeLocations(z.value, count, br.br.Rest())
  {
    hide TakeLocations, Take16, Take32;
    ghost var s := br.br.Rest();
    var full := ReadFullBox(br);
    if full.None? { return None, 0; }
    var b := br.br.Peek(4);
    if |b| < 4 { return None, 0; }
    var version := full.value.version;
    z := Some(Sizes(version, b[0] / 16, b[0] % 16, b[1] / 16, if version > 0 then b[1] % 16 else 0));
    br.br.Discard(2);
    assert br.br.Rest() == s[6..];
    if version < 2 { count := br.ReadUint16(); } else { count := br.ReadUint32(); }
  }

  method ReadLocations(br: BufReader, z: Sizes, count: nat) returns (r: Option<seq<Location>>)
    requires br.Valid()
    modifies br, br.br
    ensures r == if old(br.err) then None else TakeLocations(z, count, old(br.br.Rest()))
  {
    hide TakeLocation, TakeLocations, Prepend;
    var items := [];
    ghost var all := if br.err then None else TakeLocations(z, count, br.br.Rest());
    PrependNothing(all);
    var i := 0;
    while !br.err && i < count
      invariant br.Valid() && (br.err || i <= count)
      invariant all == Prepend(items, if br.err then None else TakeLocations(z, count - i, br.br.Rest()))
    {
      LocationStep(items, z, count - i, br.br.Rest());
      var l := ReadLocation(br, z);
      items := items + [l];
      i := i + 1;
      PrependToEnd(items);
    }
    PrependToEnd(items);
    if !br.err { NoLocations(z, br.br.Rest()); }
    r := if br.err then None else Some(items);
  }

  lemma NoLocations(z: Sizes, s: Str)
    ensures TakeLocations(z, 0, s) == Some([])
  {
  }

  lemma LocationStep(a: seq<Location>, z: Sizes, n: nat, s: Str)
    requires n > 0
    ensures Prepend(a, TakeLocations(z, n, s)) ==
      match TakeLocation(z, s)
      case None => None
      case Some(x) => Prepend(a + [x.value], TakeLocations(z, n - 1, x.rest))
  {
    match TakeLocation(z, s)
    case None =>
    case Some(x) => PrependMore(a, x.value, TakeLocations(z, n - 1, x.rest));
  }

  // ---------- Boxes with children ----------

  /** A body that was read to memory, with what is unread of it. */
  method OpenBody(body: Str) returns (br: BufReader)
    requires |body| < TWO_63
    ensures fresh(br) && fresh(br.br) && br.Valid() && !br.err && br.br.Rest() == body
  {
    var s := new Stream(body);
    br := new BufReader(s);
  }

  /** Parses any box; Unknown if there is no parser for its type. */
  method Parse(b: Box) returns (r: Outcome)
    requires |b.body| < TWO_63
    ensures r == ParseBox(b)
    decreases |b.body|, 1
  {
    hide ParseFileType, ParseMeta, ParseHandler, ParsePrimaryItem, ParseItemInfo, ParseItemInfoEntry, ParseItemLocation,
         ParseItemProperties, SplitBoxes, ParseAssociations, ParseSpatialExtents, ParseRotation;
    var br := OpenBody(b.body);
    if b.typ == FTYP { var v := ParseFileTypeBox(br); r := if v.Some? then Ok(PFileType(v.value)) else Failed; }
    else if b.typ == META { var v := ParseMetaBox(br); r := if v.Some? then Ok(PMeta(v.value)) else Failed; }
    else if b.typ == HDLR { var v := ParseHandlerBox(br); r := if v.Some? then Ok(PHandler(v.value)) else Failed; }
    else if b.typ == PITM { var v := ParsePrimaryItemBox(br); r := if v.Some? then Ok(PPrimaryItem(v.value)) else Failed; }
    else if b.typ == IINF { var v := ParseItemInfoBox(br); r := if v.Some? then Ok(PItemInfo(v.value)) else Failed; }
    else if b.typ == INFE { var v := ParseInfe(br); r := if v.Some? then Ok(PItemInfoEntry(v.value)) else Failed; }
    else if b.typ == ILOC { var v := ParseItemLocationBox(br); r := if v.Some? then Ok(PItemLocation(v.value)) else Failed; }
    else if b.typ == IPRP { var v := ParseItemPropertiesBox(br); r := if v.Some? then Ok(v.value) else Failed; }
    else if b.typ == IPCO {
      var v := br.ParseAppendBoxes();
      r := if br.err then Failed else Ok(PContainer(v));
    }
    else if b.typ == IPMA { var v := ParseIpma(br); r := if v.Some? then Ok(PAssociations(v.value)) else Failed; }
    else if b.typ == ISPE {
      var v := ParseImageSpatialExtents(br);
      r := if v.Some? then Ok(PSpatialExtents(v.value.0, v.value.1)) else Failed;
    }
    else if b.typ == IROT { var v := ParseImageRotation(br); r := if v.Some? then Ok(PRotation(v.value)) else Failed; }
    else { r := Unknown; }
  }

  method ParseItemInfoBox(br: BufReader) returns (r: Option<seq<ItemInfo>>)
    requires br.Valid() && !br.err
    modifies br, br.br
    ensures r == ParseItemInfo(old(br.br.Rest()))
    decreases |br.br.Rest()|, 0
  {
    hide SplitBoxes, Infos, Prepend, ParseBox;
    ghost var n := |br.br.Rest()|;
    var full := ReadFullBox(br);
    if full.None? { return None; }
    var _ := br.ReadUint16();
    var boxes := br.ParseAppendBoxes();
    if br.err { return None; }
    var infos := [];
    ghost var all := Infos(boxes, n);
    PrependNothing(all);
    var i := 0;
    assert boxes[0..] == boxes;
    while i < |boxes|
      invariant i <= |boxes| && (forall b :: b in boxes ==> |b.body| < n)
      invariant all == Prepend(infos, Infos(boxes[i..], n))
    {
      InfoStep(infos, boxes[i..], n);
      assert boxes[i] in boxes;
      var v := Parse(boxes[i]);
      if !v.Ok? { return None; }
      if v.value.PItemInfoEntry? {
        infos := infos + [v.value.info];
      }
      i := i + 1;
    }
    NoInfos(boxes[i..], n);
    PrependToEnd(infos);
    r := Some(infos);
  }

  lemma NoInfos(bs: seq<Box>, n: nat)
    requires bs == []
    ensures Infos(bs, n) == Some([])
  {
  }

  lemma InfoStep(a: seq<ItemInfo>, bs: seq<Box>, n: nat)
    requires bs != [] && forall b :: b in bs ==> |b.body| < n
    ensures Prepend(a, Infos(bs, n)) ==
      match ParseBox(bs[0])
      case Unknown => None
      case Failed => None
      case Ok(v) => Prepend(if v.PItemInfoEntry? then a + [v.info] else a, Infos(bs[1..], n))
  {
    hide ParseBox;
    match ParseBox(bs[0])
    case Unknown =>
    case Failed =>
    case Ok(v) =>
      if v.PItemInfoEntry? {
        PrependMore(a, v.info, Infos(bs[1..], n));
      } else {
        PrependNothing(Infos(bs[1..], n));
      }
  }

  method ParseItemPropertiesBox(br: BufReader) returns (r: Option<Parsed>)
    requires br.Valid() && !br.err
    modifies br, br.br
    ensures r == ParseItemProperties(old(br.br.Rest()))
    decreases |br.br.Rest()|, 0
  {
    hide SplitBoxes, AssociationBoxes, Prepend, ParseBox;
    ghost var n := |br.br.Rest()|;
    var boxes := br.ParseAppendBoxes();
    if br.err || |boxes| < 2 { return None; }
    assert boxes[0] in boxes;
    var first := Parse(boxes[0]);
    if !first.Ok? || !first.value.PContainer? { return None; }
    var associations := [];
    ghost var all := AssociationBoxes(boxes[1..], n);
    PrependNothing(all);
    var i := 1;
    while i < |boxes|
      invariant 1 <= i <= |boxes| && (forall b :: b in boxes ==> |b.body| < n)
      invariant all == Prepend(associations, AssociationBoxes(boxes[i..], n))
    {
      AssociationBoxStep(associations, boxes[i..], n);
      assert boxes[i] in boxes;
      var v := Parse(boxes[i]);
      if !v.Ok? || !v.value.PAssociations? { return None; }
      associations := associations + [v.value.entries];
      i := i + 1;
    }
    NoAssociationBoxes(boxes[i..], n);
    PrependToEnd(associations);
    r := Some(PItemProperties(first.value.properties, associations));
  }

  lemma NoAssociationBoxes(bs: seq<Box>, n: nat)
    requires bs == []
    ensures AssociationBoxes(bs, n) == Some([])
  {
  }

  lemma AssociationBoxStep(a: seq<seq<Entry>>, bs: seq<Box>, n: nat)
    requires bs != [] && forall b :: b in bs ==> |b.body| < n
    ensures Prepend(a, AssociationBoxes(bs, n)) ==
      match ParseBox(bs[0])
      case Ok(PAssociations(entries)) => Prepend(a + [entries], AssociationBoxes(bs[1..], n))
      case _ => None
  {
    hide ParseBox;
    match ParseBox(bs[0])
    case Ok(PAssociations(entries)) => PrependMore(a, entries, AssociationBoxes(bs[1..], n));
    case _ =>
  }
}
