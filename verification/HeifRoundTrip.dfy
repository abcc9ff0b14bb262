/**
 Reading a HEIF file gives back what was written to it.
 */
module HeifRoundTrip {
  import opened Wrappers
  import opened Bytes
  import opened Bmff
  import opened HeifSpec

  // ---------- What Encoded reads back as ----------

  ghost function BoxOf(p: Str): Box
    requires IsBox(p)
  {
    Box(p[4..8], p[8..])
  }

  /** The boxes that the properties are. */
  ghost function BoxesOf(props: seq<Property>): (bs: seq<Box>)
    requires AllBoxes(props)
    ensures |bs| == |props|
  {
    seq(|props|, i requires 0 <= i < |props| && IsBox(props[i].box) => BoxOf(props[i].box))
  }

  ghost function AssociationsOf(props: seq<Property>, from: nat): (a: seq<Association>)
    requires from <= |props|
    ensures |a| == |props| - from
  {
    seq(|props| - from, i requires 0 <= i < |props| - from => Association(props[from + i].essential, from + i + 1))
  }

  lemma SplitFirst(typ: Str, body: Str, rest: Str)
    requires |typ| == 4 && 8 + |body| < TWO_32
    ensures SplitBoxes(BoxBytes(typ, body) + rest) ==
      match SplitBoxes(rest)
      case None => None
      case Some(bs) => Some([Box(typ, body)] + bs)
  {
    var s := BoxBytes(typ, body) + rest;
    HeaderOfBox(typ, body, rest);
    assert s[8 + |body|..] == rest;
    assert s[8..8 + |body|] == body;
  }

  lemma HeaderOfBox(typ: Str, body: Str, rest: Str)
    requires |typ| == 4 && 8 + |body| < TWO_32
    ensures var s := BoxBytes(typ, body) + rest;
      ReadHeader(s) == Header(typ, 8 + |body|, 8, Some(|body|)) && BoxEnd(ReadHeader(s), |s|) == 8 + |body|
  {
    hide U32, BE32;
    var s := BoxBytes(typ, body) + rest;
    assert s == BE32(8 + |body|) + (typ + body + rest);
    U32OfBE32(8 + |body|, typ + body + rest);
    assert s[4..8] == typ;
  }

  lemma SplitNothing()
    ensures SplitBoxes([]) == Some([])
  {
  }

  lemma BoxIsBoxBytes(p: Str)
    requires IsBox(p) && |p| < TWO_32
    ensures p == BoxBytes(p[4..8], p[8..])
  {
    BE32OfU32(p);
    assert p == p[..4] + p[4..8] + p[8..];
  }

  lemma {:induction false} SplitContainer(props: seq<Property>)
    requires AllBoxes(props) && |Container(props)| < TWO_32
    ensures SplitBoxes(Container(props)) == Some(BoxesOf(props))
  {
    if props == [] {
      SplitNothing();
    } else {
      hide SplitBoxes, BoxBytes, BoxesOf, IsBox, AllBoxes;
      var p := props[0].box;
      BoxesOfFirst(props);
      BoxIsBoxBytes(p);
      SplitContainer(props[1..]);
      SplitFirst(p[4..8], p[8..], Container(props[1..]));
    }
  }

  lemma BoxesOfFirst(props: seq<Property>)
    requires props != [] && AllBoxes(props)
    ensures IsBox(props[0].box) && |props[0].box| >= 8 && AllBoxes(props[1..])
    ensures BoxesOf(props) == [Box(props[0].box[4..8], props[0].box[8..])] + BoxesOf(props[1..])
  {
    hide IsBox, BoxOf;
    assert IsBox(props[0].box);
    FirstIsBox(props[0].box);
  }

  lemma FirstIsBox(p: Str)
    requires IsBox(p)
    ensures |p| >= 8 && BoxOf(p) == Box(p[4..8], p[8..])
  {
  }

  lemma {:induction false} TakeIndexes(props: seq<Property>, from: nat)
    requires |props| <= 127 && from <= |props|
    ensures TakeAssociations(false, |props| - from, Indexes(props)[from..]) == Some(Read(AssociationsOf(props, from), []))
    decreases |props| - from
  {
    hide Indexes, AssociationsOf, TakeAssociation;
    var s := Indexes(props)[from..];
    if from == |props| {
      assert s == [] && AssociationsOf(props, from) == [];
    } else {
      TakeIndexes(props, from + 1);
      assert s[1..] == Indexes(props)[from + 1..];
      TakeIndex(props, from);
      NextAssociation(props, from);
    }
  }

  lemma TakeIndex(props: seq<Property>, from: nat)
    requires from < |props| <= 127
    ensures var s := Indexes(props)[from..];
      TakeAssociation(false, s) == Some(Read(Association(props[from].essential, from + 1), s[1..]))
  {
  }

  lemma NextAssociation(props: seq<Property>, from: nat)
    requires from < |props|
    ensures AssociationsOf(props, from) == [Association(props[from].essential, from + 1)] + AssociationsOf(props, from + 1)
  {
  }

  lemma ReadEntry(props: seq<Property>)
    requires |props| <= 127
    ensures var x := Indexes(props);
      TakeEntry(Full(0, 0), BE16(1) + ([|x|] + x)) == Some(Read(Entry(1, AssociationsOf(props, 0)), []))
  {
    hide Take16, TakeAssociations, Indexes, BE16;
    var x := Indexes(props);
    Take16Written(1, [|x|] + x);
    assert ([|x|] + x)[1..] == x == x[0..];
    assert Take8([|x|] + x) == Some(Read(|x|, x));
    TakeIndexes(props, 0);
  }

  lemma ReadIpma(props: seq<Property>)
    requires |props| <= 127
    ensures ParseAssociations(IpmaBody(Indexes(props))) == Some([Entry(1, AssociationsOf(props, 0))])
  {
    hide TakeEntry, Take32, BE16, BE32, Indexes;
    var x := Indexes(props);
    var s := IpmaBody(x);
    var t := BE16(1) + ([|x|] + x);
    assert s == Zeros(4) + (BE32(1) + t);
    assert TakeFull(s) == Some(Read(Full(0, 0), BE32(1) + t));
    Take32Written(1, t);
    ReadEntry(props);
    assert TakeEntries(Full(0, 0), 0, []) == Some([]);
    var e := Entry(1, AssociationsOf(props, 0));
    assert TakeEntries(Full(0, 0), 1, t) == Some([e] + []) && [e] + [] == [e];
  }

  lemma ReadExtent(z: Sizes, off: nat, len: nat)
    requires z == Sizes(0, 4, 4, 0, 0) && off < TWO_32 && len < TWO_32
    ensures TakeExtents(z, 1, BE32(off) + BE32(len)) == Some(Read([Extent(off, len)], []))
  {
    hide Take32, BE32;
    var s := BE32(off) + BE32(len);
    Take32Written(off, BE32(len));
    Take32Written(len, []);
    assert BE32(len) + [] == BE32(len);
    assert TakeExtent(z, s) == Some(Read(Extent(off, len), []));
    assert TakeExtents(z, 0, []) == Some(Read([], []));
    assert [Extent(off, len)] + [] == [Extent(off, len)];
  }

  lemma ReadLocation(z: Sizes, off: nat, len: nat)
    requires z == Sizes(0, 4, 4, 0, 0) && off < TWO_32 && len < TWO_32
    ensures TakeLocation(z, BE16(1) + (BE16(0) + (BE16(1) + (BE32(off) + BE32(len))))) ==
            Some(Read(Location(1, 0, 0, 0, [Extent(off, len)]), []))
  {
    hide Take16, Take32, BE16, BE32, TakeExtents;
    var x := BE32(off) + BE32(len);
    Take16Written(1, BE16(0) + (BE16(1) + x));
    Take16Written(0, BE16(1) + x);
    Take16Written(1, x);
    ReadExtent(z, off, len);
  }

  lemma ReadIloc(off: nat, len: nat)
    requires off < TWO_32 && len < TWO_32
    ensures ParseItemLocation(IlocBody(off, len)) == Some([Location(1, 0, 0, 0, [Extent(off, len)])])
  {
    hide Take16, Take32, BE16, BE32, TakeLocation;
    var s := IlocBody(off, len);
    var z := Sizes(0, 4, 4, 0, 0);
    var t := BE16(1) + (BE16(0) + (BE16(1) + (BE32(off) + BE32(len))));
    assert s == [0, 0, 0, 0, 0x44, 0] + (BE16(1) + t);
    assert s[6..] == BE16(1) + t;
    Take16Written(1, t);
    ReadLocation(z, off, len);
    assert TakeLocations(z, 0, []) == Some([]);
    var l := Location(1, 0, 0, 0, [Extent(off, len)]);
    assert TakeLocations(z, 1, t) == Some([l] + []) && [l] + [] == [l];
  }

  lemma {:induction false} TakeTerminated(s: Str, t: Str)
    ensures TakeString(s + [0] + t).Some? && TakeString(s + [0] + t).value.value == UpToZero(s)
    ensures 0 !in s ==> TakeString(s + [0] + t) == Some(Read(s, t))
  {
    var u := s + [0] + t;
    if s == [] {
      assert u == [0] + t && u[1..] == t;
    } else {
      assert u[0] == s[0] && u[1..] == s[1..] + [0] + t;
      TakeTerminated(s[1..], t);
      assert 0 !in s ==> [s[0]] + s[1..] == s && 0 !in s[1..];
    }
  }

  /** The entry of the written file.  No name is written, but the type is read as one. */
  ghost function WrittenInfo(itemType: Tag): ItemInfo
  {
    ItemInfo(1, 0, itemType, Strings(UpToZero(itemType), [], [], []))
  }

  lemma {:induction false} NameIsType(s: Str)
    requires 0 !in s
    ensures UpToZero(s) == s
  {
    if s != [] {
      NameIsType(s[1..]);
      assert s == [s[0]] + s[1..];
    }
  }

  /** The entry reads back unless its type asks for strings that are not written. */
  lemma ReadInfe(itemType: Tag)
    ensures ParseItemInfoEntry(InfeBody(itemType)) ==
      if itemType == MIME || itemType == URI then None else Some(WrittenInfo(itemType))
  {
    hide TakeString, UpToZero, BE16, U16;
    var s := InfeBody(itemType);
    assert s[4..] == BE16(1) + (BE16(0) + itemType + [0]) && s[6..] == BE16(0) + (itemType + [0]);
    U16OfBE16(1, BE16(0) + itemType + [0]);
    U16OfBE16(0, itemType + [0]);
    assert s[8..] == itemType + [0] + [] && s[8..12] == itemType;
    TypeIsName(itemType);
    assert s[0] == 2;
  }

  lemma TypeIsName(itemType: Tag)
    ensures EntryStrings(itemType, itemType + [0] + []) ==
      if itemType == MIME || itemType == URI then None else Some(Strings(UpToZero(itemType), [], [], []))
  {
    hide UpToZero;
    TakeTerminated(itemType, []);
    assert TakeString([]) == None;
  }

  lemma BoxBytesSize(typ: Str, body: Str)
    requires |typ| == 4
    ensures |BoxBytes(typ, body)| == 8 + |body|
  {
  }

  lemma SplitOne(typ: Str, body: Str)
    requires |typ| == 4 && 8 + |body| < TWO_32
    ensures SplitBoxes(BoxBytes(typ, body)) == Some([Box(typ, body)])
  {
    hide SplitBoxes, BoxBytes;
    SplitFirst(typ, body, []);
    SplitNothing();
    assert BoxBytes(typ, body) + [] == BoxBytes(typ, body);
    assert [Box(typ, body)] + [] == [Box(typ, body)];
  }

  ghost predicate Writable(itemType: Str)
  {
    itemType != MIME && itemType != URI
  }

  lemma ReadIinf(itemType: Str)
    requires |itemType| == 4
    ensures ParseItemInfo(IinfBody(itemType)) == if Writable(itemType) then Some([WrittenInfo(itemType)]) else None
  {
    hide SplitBoxes, BoxBytes, InfeBody, ParseItemInfoEntry;
    var s, body := IinfBody(itemType), InfeBody(itemType);
    InfeSize(itemType);
    SplitOne(INFE, body);
    BoxBytesSize(INFE, body);
    assert s[6..] == BoxBytes(INFE, body);
    ReadInfe(itemType);
    assert Infos([], |s|) == Some([]);
    var b := Box(INFE, body);
    assert [b][1..] == [] && [WrittenInfo(itemType)] + [] == [WrittenInfo(itemType)];
    assert ParseBox(b) == if Writable(itemType) then Ok(PItemInfoEntry(WrittenInfo(itemType))) else Failed;
  }

  lemma InfeSize(itemType: Str)
    requires |itemType| == 4
    ensures |InfeBody(itemType)| == 13
  {
  }

  lemma ReadIprp(props: seq<Property>)
    requires |props| <= 127 && AllBoxes(props) && |IprpBody(props)| < TWO_32
    ensures ParseItemProperties(IprpBody(props)) ==
      Some(PItemProperties(BoxesOf(props), [[Entry(1, AssociationsOf(props, 0))]]))
  {
    hide SplitBoxes, BoxBytes, Container, IpmaBody, ParseAssociations, BoxesOf, AssociationsOf, Indexes, AllBoxes;
    var s := IprpBody(props);
    var c, a := Container(props), IpmaBody(Indexes(props));
    BoxBytesSize(IPCO, c);
    BoxBytesSize(IPMA, a);
    SplitFirst(IPCO, c, BoxBytes(IPMA, a));
    SplitOne(IPMA, a);
    SplitContainer(props);
    ReadIpma(props);
    var bs := [Box(IPCO, c)] + [Box(IPMA, a)];
    assert bs[1..] == [Box(IPMA, a)] && bs[1..][1..] == [];
    var e := [Entry(1, AssociationsOf(props, 0))];
    assert AssociationBoxes([], |s|) == Some([]);
    assert [e] + [] == [e];
    assert ParseBox(bs[0]) == Ok(PContainer(BoxesOf(props)));
    assert ParseBox(bs[1]) == Ok(PAssociations(e));
  }

  /** The boxes inside the meta box. */
  ghost function MetaChildren(itemType: Str, props: seq<Property>, off: nat, len: nat): seq<Box>
    requires |props| <= 127
  {
    [Box(HDLR, HdlrBody()), Box(PITM, PitmBody()), Box(IINF, IinfBody(itemType)),
     Box(ILOC, IlocBody(off, len)), Box(IPRP, IprpBody(props))]
  }

  lemma SplitMeta(itemType: Str, props: seq<Property>, off: nat, len: nat)
    requires |props| <= 127 && |MetaBody(itemType, props, off, len)| < TWO_32
    ensures ParseMeta(MetaBody(itemType, props, off, len)) == Some(MetaChildren(itemType, props, off, len))
  {
    hide SplitBoxes, BoxBytes, HdlrBody, PitmBody, IinfBody, IlocBody, IprpBody;
    var h, p, i, l, r := HdlrBody(), PitmBody(), IinfBody(itemType), IlocBody(off, len), IprpBody(props);
    BoxBytesSize(HDLR, h);
    BoxBytesSize(PITM, p);
    BoxBytesSize(IINF, i);
    BoxBytesSize(ILOC, l);
    BoxBytesSize(IPRP, r);
    var t4 := BoxBytes(IPRP, r);
    var t3 := BoxBytes(ILOC, l) + t4;
    var t2 := BoxBytes(IINF, i) + t3;
    var t1 := BoxBytes(PITM, p) + t2;
    var t0 := BoxBytes(HDLR, h) + t1;
    var s := MetaBody(itemType, props, off, len);
    assert s == Zeros(4) + t0;
    assert s[4..] == t0;
    NotQuickTime(s, t1);
    SplitOne(IPRP, r);
    SplitFirst(ILOC, l, t4);
    SplitFirst(IINF, i, t3);
    SplitFirst(PITM, p, t2);
    SplitFirst(HDLR, h, t1);
    var b4 := [Box(IPRP, r)];
    assert [Box(HDLR, h)] + ([Box(PITM, p)] + ([Box(IINF, i)] + ([Box(ILOC, l)] + b4))) ==
           MetaChildren(itemType, props, off, len);
  }

  /** The four bytes after version and flags are a size, not the type of a first child. */
  lemma NotQuickTime(s: Str, rest: Str)
    requires |s| >= 4 && s[4..] == BoxBytes(HDLR, HdlrBody()) + rest
    ensures |s| >= 8 && s[4..8] != HDLR
  {
    assert BE32(33) == [0, 0, 0, 33];
    assert s[4..][0] == 0 && s[4..][0] == s[4];
  }

  lemma CollectMeta(itemType: Str, props: seq<Property>, off: nat, len: nat, f: FileType)
    requires |itemType| == 4 && |props| <= 127 && AllBoxes(props) && |IprpBody(props)| < TWO_32
    requires off < TWO_32 && len < TWO_32
    ensures Collect(MetaChildren(itemType, props, off, len), Meta(f, None, None, None, None, None)) ==
      if !Writable(itemType) then None
      else Some(Meta(f, Some(Handler(PICT, [])), Some(1), Some([WrittenInfo(itemType)]),
                     Some(Properties(BoxesOf(props), [[Entry(1, AssociationsOf(props, 0))]])),
                     Some([Location(1, 0, 0, 0, [Extent(off, len)])])))
  {
    hide ParseBox, BoxesOf, AssociationsOf, Writable, Collect, MetaChildren, AllBoxes;
    ParseMetaChildren(itemType, props, off, len);
    var c := MetaChildren(itemType, props, off, len);
    var m := Meta(f, None, None, None, None, None);
    CollectStep(c, m);
    var m0 := m.(handler := Some(Handler(PICT, [])));
    CollectStep(c[1..], m0);
    var m1 := m0.(primary := Some(1));
    CollectStep(c[2..], m1);
    if Writable(itemType) {
      var m2 := m1.(infos := Some([WrittenInfo(itemType)]));
      CollectStep(c[3..], m2);
      var m3 := m2.(locations := Some([Location(1, 0, 0, 0, [Extent(off, len)])]));
      CollectStep(c[4..], m3);
      CollectNothing(c[5..], m3.(properties := Some(Properties(BoxesOf(props), [[Entry(1, AssociationsOf(props, 0))]]))));
    }
  }

  lemma ParseMetaChildren(itemType: Str, props: seq<Property>, off: nat, len: nat)
    requires |itemType| == 4 && |props| <= 127 && AllBoxes(props) && |IprpBody(props)| < TWO_32
    requires off < TWO_32 && len < TWO_32
    ensures var c := MetaChildren(itemType, props, off, len);
      && |c| == 5
      && ParseBox(c[0]) == Ok(PHandler(Handler(PICT, [])))
      && ParseBox(c[1]) == Ok(PPrimaryItem(1))
      && ParseBox(c[2]) == (if Writable(itemType) then Ok(PItemInfo([WrittenInfo(itemType)])) else Failed)
      && ParseBox(c[3]) == Ok(PItemLocation([Location(1, 0, 0, 0, [Extent(off, len)])]))
      && ParseBox(c[4]) == Ok(PItemProperties(BoxesOf(props), [[Entry(1, AssociationsOf(props, 0))]]))
  {
    hide HdlrBody, PitmBody, IinfBody, IlocBody, IprpBody, ParseHandler, ParsePrimaryItem, ParseItemInfo,
         ParseItemLocation, ParseItemProperties, AllBoxes, BoxesOf, AssociationsOf, Writable;
    ReadSmall();
    ReadIinf(itemType);
    ReadIloc(off, len);
    ReadIprp(props);
  }

  lemma ReadSmall()
    ensures ParseHandler(HdlrBody()) == Some(Handler(PICT, []))
    ensures ParsePrimaryItem(PitmBody()) == Some(1)
  {
    assert PitmBody()[4..] == BE16(1) + [];
    Take16Written(1, []);
    assert HdlrBody()[8..12] == PICT;
  }

  lemma CollectNothing(c: seq<Box>, m: Meta)
    requires c == []
    ensures Collect(c, m) == Some(m)
  {
  }

  lemma CollectStep(c: seq<Box>, m: Meta)
    requires c != []
    ensures Collect(c, m) ==
      match ParseBox(c[0])
      case Unknown => Collect(c[1..], m)
      case Failed => None
      case Ok(v) => Collect(c[1..], AddChild(m, v))
  {
  }

  // ---------- The whole file ----------

  lemma MetaSize(itemType: Str, props: seq<Property>, off: nat, len: nat)
    requires |itemType| == 4 && |props| <= 127
    ensures |MetaBody(itemType, props, off, len)| == 151 + |Container(props)| + |props|
    ensures |IprpBody(props)| < |MetaBody(itemType, props, off, len)|
  {
    hide HdlrBody, PitmBody, IinfBody, IlocBody, IprpBody, BoxBytes;
    BoxBytesSize(HDLR, HdlrBody());
    BoxBytesSize(PITM, PitmBody());
    BoxBytesSize(IINF, IinfBody(itemType));
    BoxBytesSize(ILOC, IlocBody(off, len));
    BoxBytesSize(IPRP, IprpBody(props));
    PartSizes(itemType, props);
  }

  lemma PartSizes(itemType: Str, props: seq<Property>)
    requires |itemType| == 4 && |props| <= 127
    ensures |HdlrBody()| == 25 && |PitmBody()| == 6 && |IinfBody(itemType)| == 27
    ensures |IprpBody(props)| == 27 + |Container(props)| + |props|
  {
    hide BoxBytes, Container;
    InfeSize(itemType);
    BoxBytesSize(INFE, InfeBody(itemType));
    BoxBytesSize(IPCO, Container(props));
    BoxBytesSize(IPMA, IpmaBody(Indexes(props)));
  }

  /** The three parts of the file lie where the offset of the data says. */
  lemma FileLayout(brand: Str, itemType: Str, props: seq<Property>, data: Str)
    requires Encodable(brand, itemType, props, data)
    ensures var off := DataOffset(props);
      var body := MetaBody(itemType, props, off, |data|);
      && off < TWO_32 && |data| < TWO_32 && |body| + 8 < TWO_32
      && Encoded(brand, itemType, props, data) ==
           BoxBytes(FTYP, FtypBody(brand)) + (BoxBytes(META, body) + BoxBytes(MDAT, data))
      && |BoxBytes(FTYP, FtypBody(brand)) + BoxBytes(META, body)| + 8 == off
  {
    hide MetaBody, FtypBody, BoxBytes, AllBoxes, Container;
    var off := DataOffset(props);
    MetaSize(itemType, props, off, |data|);
    ReadFtyp(brand);
    BoxBytesSize(FTYP, FtypBody(brand));
    BoxBytesSize(META, MetaBody(itemType, props, off, |data|));
    var f, m, d := BoxBytes(FTYP, FtypBody(brand)), BoxBytes(META, MetaBody(itemType, props, off, |data|)), BoxBytes(MDAT, data);
    assert f + m + d == f + (m + d);
  }

  /** Reading undoes writing, for all item types but the two that need strings that are not written. */
  lemma ReadEncoded(brand: Str, itemType: Str, props: seq<Property>, data: Str)
    requires Encodable(brand, itemType, props, data)
    ensures ReadMeta(Encoded(brand, itemType, props, data)) ==
      if !Writable(itemType) then None
      else Some(Meta(FileType(brand, [0, 0, 0, 0], [MIF1, brand]), Some(Handler(PICT, [])), Some(1), Some([WrittenInfo(itemType)]),
                     Some(Properties(BoxesOf(props), [[Entry(1, AssociationsOf(props, 0))]])),
                     Some([Location(1, 0, 0, 0, [Extent(DataOffset(props), |data|)])])))
  {
    hide BoxBytes, FtypBody, MetaBody, MetaChildren, Collect, ParseMeta, ParseFileType, Encoded, DataOffset,
         AllBoxes, BoxesOf, AssociationsOf, Writable, ReadHeader, BoxEnd, IprpBody;
    var off := DataOffset(props);
    var body := MetaBody(itemType, props, off, |data|);
    var file := Encoded(brand, itemType, props, data);
    FileLayout(brand, itemType, props, data);
    ReadFtyp(brand);
    MetaSize(itemType, props, off, |data|);
    FirstBox(FTYP, FtypBody(brand), BoxBytes(META, body) + BoxBytes(MDAT, data), file);
    FirstBox(META, body, BoxBytes(MDAT, data), BoxBytes(META, body) + BoxBytes(MDAT, data));
    SplitMeta(itemType, props, off, |data|);
    CollectMeta(itemType, props, off, |data|, FileType(brand, [0, 0, 0, 0], [MIF1, brand]));
  }

  lemma FirstBox(typ: Str, body: Str, rest: Str, s: Str)
    requires |typ| == 4 && 8 + |body| < TWO_32 && s == BoxBytes(typ, body) + rest
    ensures var h := ReadHeader(s);
      && h == Header(typ, 8 + |body|, 8, Some(|body|)) && BoxEnd(h, |s|) == 8 + |body| <= |s|
      && s[8..8 + |body|] == body && s[8 + |body|..] == rest
  {
    HeaderOfBox(typ, body, rest);
  }

  lemma ReadFtyp(brand: Str)
    requires |brand| == 4
    ensures |FtypBody(brand)| == 16
    ensures ParseFileType(FtypBody(brand)) == Some(FileType(brand, [0, 0, 0, 0], [MIF1, brand]))
  {
    var s := FtypBody(brand);
    var t := s[8..];
    assert t == MIF1 + brand && t[4..] == brand && t[4..][4..] == [];
    assert t[..4] == MIF1 && brand[..4] == brand;
    assert Quads([]) == [];
    assert Quads(brand) == [brand] + [] && Quads(t) == [MIF1] + Quads(brand);
    assert [MIF1] + ([brand] + []) == [MIF1, brand];
    assert s[..4] == brand && s[4..8] == [0, 0, 0, 0];
  }

  // ---------- The item read back ----------

  lemma {:induction false} ValidOfItem(props: seq<Property>, from: nat)
    requires from <= |props|
    ensures WithIndex(AssociationsOf(props, from), |props|) == AssociationsOf(props, from)
    decreases |props| - from
  {
    if from < |props| {
      hide AssociationsOf;
      ValidOfItem(props, from + 1);
      NextAssociation(props, from);
    } else {
      assert AssociationsOf(props, from) == [];
    }
  }

  /** Item 1 of the file has all the properties, in order, with their flags. */
  lemma AssociationsReadBack(m: Meta, props: seq<Property>)
    requires AllBoxes(props)
    requires m.properties == Some(Properties(BoxesOf(props), [[Entry(1, AssociationsOf(props, 0))]]))
    ensures PropertyAssociations(m, 1) == AssociationsOf(props, 0)
    ensures PropertyBoxes(BoxesOf(props), AssociationsOf(props, 0)) == BoxesOf(props)
  {
    hide AssociationsOf, BoxesOf;
    var a := AssociationsOf(props, 0);
    ValidOfItem(props, 0);
    var es := [Entry(1, a)];
    assert es[1..] == [] && OfItem([], 1, |props|) == [];
    assert a + [] == a && OfItem(es, 1, |props|) == a + OfItem(es[1..], 1, |props|);
    var boxes := [es];
    assert boxes[1..] == [] && FirstOfItem(boxes[1..], 1, |props|) == [];
    BoxesReadBack(props);
  }

  lemma BoxesReadBack(props: seq<Property>)
    requires AllBoxes(props)
    ensures forall a :: a in AssociationsOf(props, 0) ==> 1 <= a.index <= |BoxesOf(props)|
    ensures PropertyBoxes(BoxesOf(props), AssociationsOf(props, 0)) == BoxesOf(props)
  {
  }

  /** What the image looks like through the item that is read. */
  ghost predicate SameImage(m: Meta, item: Item, itemType: Str, boxes: seq<Box>, flags: seq<bool>)
  {
    && item.info.typ == itemType
    && item.properties == boxes
    && |PropertyAssociations(m, item.id)| == |flags|
    && forall i :: 0 <= i < |flags| ==> PropertyAssociations(m, item.id)[i].essential == flags[i]
  }

  ghost function Flags(props: seq<Property>): (f: seq<bool>)
    ensures |f| == |props|
  {
    seq(|props|, i requires 0 <= i < |props| => props[i].essential)
  }

  /** Re-reading what was written: the brand, the primary item, its type, its properties with their
      flags, and its data if there is any and it is not too much. */
  lemma RoundTrip(brand: Str, itemType: Str, props: seq<Property>, data: Str) returns (m: Meta, item: Item)
    requires Encodable(brand, itemType, props, data) && Writable(itemType)
    ensures var file := Encoded(brand, itemType, props, data);
      && Section(file) == file && ReadMeta(file) == Some(m)
      && m.fileType.majorBrand == brand
      && m.primary == Some(1) && ItemById(m, 1) == Some(item) && item.id == 1
      && SameImage(m, item, itemType, BoxesOf(props), Flags(props))
      && ItemData(file, item.location) == if 1 <= |data| <= MAX_ITEM_DATA_SIZE then Some(data) else None
  {
    hide Encodable, Encoded, DataOffset, AllBoxes, BoxesOf, AssociationsOf, Writable, PropertyAssociations,
         ReadMeta, ItemById, ItemData;
    AreBoxes(brand, itemType, props, data);
    var file, off := Encoded(brand, itemType, props, data), DataOffset(props);
    EncodedIsShort(brand, itemType, props, data);
    ReadEncoded(brand, itemType, props, data);
    m := ReadMeta(file).value;
    AssociationsReadBack(m, props);
    FlagsReadBack(props);
    var typ: Tag := m.infos.value[0].typ;
    item := ItemReadBack(m, typ, props, off, |data|);
    DataReadsBack(brand, itemType, props, data);
  }

  lemma ItemReadBack(m: Meta, itemType: Tag, props: seq<Property>, off: nat, len: nat) returns (item: Item)
    requires AllBoxes(props)
    requires m.infos == Some([WrittenInfo(itemType)]) && m.locations == Some([Location(1, 0, 0, 0, [Extent(off, len)])])
    requires m.properties == Some(Properties(BoxesOf(props), [[Entry(1, AssociationsOf(props, 0))]]))
    ensures item == Item(1, WrittenInfo(itemType), Some(Location(1, 0, 0, 0, [Extent(off, len)])), BoxesOf(props))
    ensures ItemById(m, 1) == Some(item)
  {
    hide AllBoxes, BoxesOf, AssociationsOf, PropertyAssociations, PropertyBoxes;
    var info, location := WrittenInfo(itemType), Location(1, 0, 0, 0, [Extent(off, len)]);
    var infos, locations := [info], [location];
    assert infos[1..] == [] && LastInfo(infos[1..], 1) == None;
    assert locations[1..] == [] && LastLocation(locations[1..], 1) == None;
    AssociationsReadBack(m, props);
    item := Item(1, info, Some(location), BoxesOf(props));
  }

  lemma EncodedIsShort(brand: Str, itemType: Str, props: seq<Property>, data: Str)
    requires Encodable(brand, itemType, props, data)
    ensures |Encoded(brand, itemType, props, data)| < TWO_32
    ensures Section(Encoded(brand, itemType, props, data)) == Encoded(brand, itemType, props, data)
  {
    hide BoxBytes, FtypBody, MetaBody, AllBoxes, DataOffset, Encoded;
    FileLayout(brand, itemType, props, data);
    BoxBytesSize(MDAT, data);
    AreBoxes(brand, itemType, props, data);
    assert DataOffset(props) + |data| < TWO_32;
  }

  lemma AreBoxes(brand: Str, itemType: Str, props: seq<Property>, data: Str)
    requires Encodable(brand, itemType, props, data)
    ensures AllBoxes(props) && |props| <= 127 && DataOffset(props) + |data| < TWO_32
  {
  }

  lemma FlagsReadBack(props: seq<Property>)
    ensures |AssociationsOf(props, 0)| == |Flags(props)|
    ensures forall i :: 0 <= i < |props| ==> AssociationsOf(props, 0)[i].essential == Flags(props)[i]
  {
  }

  /** The offset lands exactly on the data. */
  lemma DataReadsBack(brand: Str, itemType: Str, props: seq<Property>, data: Str)
    requires Encodable(brand, itemType, props, data)
    ensures var file, off := Encoded(brand, itemType, props, data), DataOffset(props);
      ItemData(file, Some(Location(1, 0, 0, 0, [Extent(off, |data|)]))) ==
        if 1 <= |data| <= MAX_ITEM_DATA_SIZE then Some(data) else None
  {
    hide BoxBytes, FtypBody, MetaBody, AllBoxes, DataOffset, Encoded;
    var file, off := Encoded(brand, itemType, props, data), DataOffset(props);
    FileLayout(brand, itemType, props, data);
    var front := BoxBytes(FTYP, FtypBody(brand)) + BoxBytes(META, MetaBody(itemType, props, off, |data|));
    var tail := BoxBytes(MDAT, data);
    BoxTail(MDAT, data);
    assert file == front + tail;
    assert file[off..off + |data|] == tail[8..];
    var x := [Extent(off, |data|)];
    assert x[1..] == [] && TotalLength([]) == 0 && ExtentData(file, 0, []) == Some([]);
    assert data + [] == data;
  }

  /** The data is the body of a box of its own. */
  lemma DataBox(brand: Str, itemType: Str, props: seq<Property>, data: Str)
    requires Encodable(brand, itemType, props, data)
    ensures var file, off := Encoded(brand, itemType, props, data), DataOffset(props);
      && 8 <= off && off + |data| == |file|
      && ReadHeader(file[off - 8..]) == Header(MDAT, 8 + |data|, 8, Some(|data|))
  {
    hide BoxBytes, FtypBody, MetaBody, AllBoxes, DataOffset, Encoded, ReadHeader;
    var file, off := Encoded(brand, itemType, props, data), DataOffset(props);
    AreBoxes(brand, itemType, props, data);
    FileLayout(brand, itemType, props, data);
    var front := BoxBytes(FTYP, FtypBody(brand)) + BoxBytes(META, MetaBody(itemType, props, off, |data|));
    var tail := BoxBytes(MDAT, data);
    BoxBytesSize(MDAT, data);
    assert file == front + tail && file[off - 8..] == tail + [];
    HeaderOfBox(MDAT, data, []);
  }

  lemma BoxTail(typ: Str, body: Str)
    requires |typ| == 4
    ensures |BoxBytes(typ, body)| == 8 + |body| && BoxBytes(typ, body)[8..] == body && BoxBytes(typ, body)[4..8] == typ
    ensures IsBox(BoxBytes(typ, body))
  {
    U32OfBE32((8 + |body|) % TWO_32, typ + body);
    assert BoxBytes(typ, body) == BE32((8 + |body|) % TWO_32) + (typ + body);
  }
}
