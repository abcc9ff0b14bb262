/**
 Writing HEIF files, and access to the items of a file.
 */
module Heif {
  import opened Wrappers
  import opened Bytes
  import opened Bmff
  import opened BmffReader
  import opened BmffParser
  import opened HeifSpec
  import HeifRoundTrip

  // ---------- Writing ----------

  method AppendBox(dst: Str, typ: Str, body: Str) returns (r: Str)
    ensures r == dst + BoxBytes(typ, body)
  {
    r := dst + BE32((8 + |body|) % TWO_32);
    r := r + typ;
    r := r + body;
  }

  /** The file with one image, or None if the arguments do not fit its format. */
  method EncodeImage(brand: Str, itemType: Str, props: seq<Property>, data: Str) returns (r: Option<Str>)
    ensures r.Some? <==> Encodable(brand, itemType, props, data)
    ensures r.Some? ==> r.value == Encoded(brand, itemType, props, data)
  {
    hide BoxBytes, FtypBody, MetaBody, IsBox, Container, Indexes;
    if |brand| != 4 || |itemType| != 4 { return None; }
    if |props| > 0x7f { return None; }
    var ipco, ipma := [], [];
    var i := 0;
    assert props[0..] == props && ipco + Container(props) == Container(props);
    while i < |props|
      invariant i <= |props| && forall j :: 0 <= j < i ==> IsBox(props[j].box)
      invariant ipco + Container(props[i..]) == Container(props)
      invariant ipma == Indexes(props)[..i]
    {
      var p := props[i];
      NextProperty(props, i, ipco);
      if |p.box| < 8 || U32(p.box) != |p.box| % TWO_32 {
        assert !IsBox(p.box) by { BoxTest(p.box); }
        return None;
      }
      assert IsBox(p.box) by { BoxTest(p.box); }
      ipco := ipco + p.box;
      var v := i + 1;
      if p.essential { v := v + 0x80; }
      ipma := ipma + [v];
      i := i + 1;
    }
    NoProperty(props[i..], ipco);
    assert ipma == Indexes(props);
    var out := AppendBox([], FTYP, brand + [0, 0, 0, 0] + MIF1 + brand);
    assert out == BoxBytes(FTYP, FtypBody(brand)) by { FtypWritten(brand); }
    var meta := BuildMeta(itemType, props, ipco, ipma, 0, |data|);
    var dataOff := |out| + |meta| + 8;
    assert dataOff == DataOffset(props) by {
      SizeOfFront(brand, itemType, props, |data| % TWO_32);
    }
    if dataOff + |data| > 0xffff_ffff { return None; }
    meta := BuildMeta(itemType, props, ipco, ipma, dataOff, |data|);
    out := out + meta;
    out := AppendBox(out, MDAT, data);
    r := Some(out);
  }

  /** The box that locates the data at off. */
  method BuildMeta(itemType: Str, ghost props: seq<Property>, ipco: Str, ipma: Str, off: nat, len: nat) returns (r: Str)
    requires |itemType| == 4 && |props| <= 127 && ipco == Container(props) && ipma == Indexes(props)
    ensures r == BoxBytes(META, MetaBody(itemType, props, off % TWO_32, len % TWO_32))
  {
    hide BoxBytes, BE16, BE32, Container, Indexes;
    var hdlr := Zeros(8) + PICT + Zeros(13);
    var pitm := Zeros(4) + BE16(1);
    var infe := [2, 0, 0, 0] + BE16(1) + BE16(0) + itemType + [0];
    var iinf := AppendBox(Zeros(4) + BE16(1), INFE, infe);
    var assoc := Zeros(4) + BE32(1) + BE16(1) + [|ipma|] + ipma;
    var iprp := AppendBox([], IPCO, ipco);
    iprp := AppendBox(iprp, IPMA, assoc);
    var iloc := [0, 0, 0, 0, 0x44, 0] + BE16(1) + BE16(1) + BE16(0) + BE16(1) + BE32(off % TWO_32) + BE32(len % TWO_32);
    assert hdlr == HdlrBody() && pitm == PitmBody() && infe == InfeBody(itemType);
    assert iinf == IinfBody(itemType) && assoc == IpmaBody(ipma) && iloc == IlocBody(off % TWO_32, len % TWO_32);
    assert [] + BoxBytes(IPCO, ipco) == BoxBytes(IPCO, ipco);
    assert iprp == IprpBody(props);
    hide *;
    r := Zeros(4);
    r := AppendBox(r, HDLR, hdlr);
    r := AppendBox(r, PITM, pitm);
    r := AppendBox(r, IINF, iinf);
    r := AppendBox(r, ILOC, iloc);
    r := AppendBox(r, IPRP, iprp);
    BodyOfParts(itemType, props, off % TWO_32, len % TWO_32, hdlr, pitm, iinf, iloc, iprp, r);
    r := AppendBox([], META, r);
    NothingBefore(r);
  }

  lemma NothingBefore(s: Str)
    ensures [] + s == s
  {
  }

  lemma BodyOfParts(itemType: Str, props: seq<Property>, off: nat, len: nat,
                    hdlr: Str, pitm: Str, iinf: Str, iloc: Str, iprp: Str, r: Str)
    requires |props| <= 127
    requires hdlr == HdlrBody() && pitm == PitmBody() && iinf == IinfBody(itemType)
    requires iloc == IlocBody(off, len) && iprp == IprpBody(props)
    requires r == Zeros(4) + BoxBytes(HDLR, hdlr) + BoxBytes(PITM, pitm) + BoxBytes(IINF, iinf)
                  + BoxBytes(ILOC, iloc) + BoxBytes(IPRP, iprp)
    ensures r == MetaBody(itemType, props, off, len)
  {
    hide BoxBytes, HdlrBody, PitmBody, IinfBody, IlocBody, IprpBody;
  }

  lemma NextProperty(props: seq<Property>, i: nat, ipco: Str)
    requires i < |props| <= 127
    ensures ipco + Container(props[i..]) == ipco + props[i].box + Container(props[i + 1..])
    ensures Indexes(props)[..i + 1] == Indexes(props)[..i] + [(if props[i].essential then 128 else 0) + i + 1]
  {
    assert props[i..][0] == props[i] && props[i..][1..] == props[i + 1..];
    assert ipco + (props[i].box + Container(props[i + 1..])) == ipco + props[i].box + Container(props[i + 1..]);
  }

  lemma NoProperty(props: seq<Property>, ipco: Str)
    requires props == []
    ensures ipco + Container(props) == ipco
  {
  }

  lemma BoxTest(p: Str)
    ensures IsBox(p) == (|p| >= 8 && U32(p) == |p| % TWO_32)
  {
  }

  lemma FtypWritten(brand: Str)
    ensures [] + BoxBytes(FTYP, brand + [0, 0, 0, 0] + MIF1 + brand) == BoxBytes(FTYP, FtypBody(brand))
  {
    hide BoxBytes;
  }

  lemma SizeOfFront(brand: Str, itemType: Str, props: seq<Property>, len: nat)
    requires |brand| == 4 && |itemType| == 4 && |props| <= 127
    ensures |BoxBytes(FTYP, FtypBody(brand))| + |BoxBytes(META, MetaBody(itemType, props, 0, len))| + 8 == DataOffset(props)
  {
    hide FtypBody, MetaBody, BoxBytes, Container;
    HeifRoundTrip.ReadFtyp(brand);
    HeifRoundTrip.BoxBytesSize(FTYP, FtypBody(brand));
    HeifRoundTrip.MetaSize(itemType, props, 0, len);
    HeifRoundTrip.BoxBytesSize(META, MetaBody(itemType, props, 0, len));
  }

  // ---------- Reading ----------

  /** What the first box holds, provided that it has the expected type and no error. */
  ghost function First(s: Str, typ: Tag): Option<Parsed>
  {
    var h := ReadHeader(s);
    if !h.Header? || h.typ != typ then None
    else match ParseBox(Box(typ, BodyOf(h, s)))
      case Ok(v) => Some(v)
      case _ => None
  }

  /** What follows the first box, if more boxes can follow. */
  ghost function Rest(s: Str): Option<Str>
  {
    var h := ReadHeader(s);
    if h.Header? && h.remain.Some? then Some(From(s, h.size)) else None
  }

  /** Reads the next box and parses it, if it is of type typ. */
  method ReadAndParseBox(r: Reader, typ: Tag) returns (v: Option<Parsed>)
    requires r.Valid()
    modifies r, r.br
    ensures v == if old(r.noMoreBoxes) then None else First(old(r.Ahead()), typ)
    ensures v.Some? && v.value.PMeta? ==> forall b :: b in v.value.children ==> |b.body| < TWO_63
    ensures v.Some? ==> r.Valid() && Rest(old(r.Ahead())) == if r.noMoreBoxes then None else Some(r.Ahead())
  {
    hide ReadHeader, ParseBox;
    var b := r.ReadBox();
    if !b.Got? { return None; }
    if b.typ != typ { return None; }
    var body := r.ReadWholeBody();
    var p := Parse(Box(typ, body));
    if p.Ok? && p.value.PMeta? { ChildrenAreSmaller(Box(typ, body)); }
    v := if p.Ok? then Some(p.value) else None;
  }

  lemma ChildrenAreSmaller(b: Box)
    ensures ParseBox(b).Ok? && ParseBox(b).value.PMeta? ==>
      forall c :: c in ParseBox(b).value.children ==> |c.body| < |b.body|
  {
  }

  lemma ReadMetaSteps(s: Str)
    ensures ReadMeta(s) ==
      match (First(s, FTYP), Rest(s))
      case (Some(PFileType(fileType)), Some(rest)) =>
        (match First(rest, META)
         case Some(PMeta(children)) => Collect(children, Meta(fileType, None, None, None, None, None))
         case _ => None)
      case _ => None
    ensures First(s, FTYP).Some? ==> First(s, FTYP).value.PFileType?
    ensures forall t :: First(t, META).Some? ==> First(t, META).value.PMeta?
  {
    hide ReadHeader, ParseFileType, ParseMeta, Collect;
    var h := ReadHeader(s);
    if h.Header? {
      BodySlices(s);
      if h.remain.Some? { BodySlices(From(s, h.size)); }
    }
  }

  lemma BodySlices(s: Str)
    ensures var h := ReadHeader(s); h.Header? ==>
      && s[h.headerSize..BoxEnd(h, |s|)] == BodyOf(h, s)
      && (h.remain.Some? ==> s[BoxEnd(h, |s|)..] == From(s, h.size))
  {
    hide ReadHeader;
  }

  /** All children that are known must parse. */
  method CollectChildren(children: seq<Box>, fileType: FileType) returns (r: Option<Meta>)
    requires forall b :: b in children ==> |b.body| < TWO_63
    ensures r == Collect(children, Meta(fileType, None, None, None, None, None))
  {
    hide ParseBox, Collect;
    var m := Meta(fileType, None, None, None, None, None);
    ghost var all := Collect(children, m);
    var i := 0;
    assert children[0..] == children;
    while i < |children|
      invariant i <= |children| && all == Collect(children[i..], m)
    {
      HeifRoundTrip.CollectStep(children[i..], m);
      var v := Parse(children[i]);
      if v.Failed? { return None; }
      if v.Ok? {
        m := AddChild(m, v.value);
      }
      i := i + 1;
    }
    HeifRoundTrip.CollectNothing(children[i..], m);
    r := Some(m);
  }

  class File {
    const ra: Str
    var metaErr: bool
    var meta: Option<Meta>

    /** Only successes are remembered: an error is kept only if there is one already. */
    ghost predicate Valid()
      reads this
    {
      |ra| < TWO_63 && !metaErr && (meta.Some? ==> meta == ReadMeta(Section(ra)))
    }

    constructor (ra: Str)
      requires |ra| < TWO_63
      ensures Valid() && this.ra == ra && meta.None?
    {
      this.ra := ra;
      metaErr, meta := false, None;
    }

    method SetMetaErr()
      modifies this`metaErr
      ensures metaErr == old(metaErr)
    {
      if metaErr { metaErr := true; }
    }

    /** Reads the boxes once; what is remembered is what would be read again. */
    method GetMeta() returns (r: Option<Meta>)
      requires Valid()
      modifies this
      ensures Valid() && r == ReadMeta(Section(ra)) && (r.Some? ==> meta == r)
    {
      if metaErr { return None; }
      if meta.Some? { return meta; }
      hide *;
      var r' := ReadBoxMeta(Section(ra));
      if r'.None? { SetMetaErr(); return None; }
      meta := r';
      r := meta;
    }

    /** The associations of the item with valid indexes; one box of them at most is used. */
    method Associations(id: nat) returns (a: seq<Association>)
      requires Valid()
      ensures meta.Some? ==> a == PropertyAssociations(meta.value, id)
      ensures meta.None? ==> a == []
    {
      hide FirstOfItem, OfItem;
      a := [];
      if meta.None? || meta.value.properties.None? { return; }
      var n, boxes := |meta.value.properties.value.container|, meta.value.properties.value.associations;
      var i := 0;
      assert boxes[0..] == boxes;
      while i < |boxes|
        invariant i <= |boxes|
        invariant FirstOfItem(boxes, id, n) == if a != [] then a else FirstOfItem(boxes[i..], id, n)
      {
        if |a| > 0 { break; }
        FirstOfItemStep(boxes[i..], id, n);
        a := AssociationsIn(boxes[i], id, n);
        i := i + 1;
      }
      if a == [] { FirstOfNothing(boxes[i..], id, n); }
    }

    method ItemByID(id: nat) returns (r: Option<Item>)
      requires Valid()
      modifies this
      ensures Valid()
      ensures r == match ReadMeta(Section(ra))
                   case None => None
                   case Some(m) => ItemById(m, id)
    {
      hide ReadMeta, PropertyAssociations, LastInfo, LastLocation, PropertyBoxes, Section;
      var got := GetMeta();
      if got.None? { return None; }
      var m := got.value;
      var location := None;
      if m.locations.Some? { location := FindLocation(m.locations.value, id); }
      var info := None;
      if m.infos.Some? { info := FindInfo(m.infos.value, id); }
      if info.None? { return None; }
      var a := Associations(id);
      var properties := [];
      if m.properties.Some? { properties := BoxesFor(m.properties.value.container, a); }
      r := Some(Item(id, info.value, location, properties));
    }

    method PrimaryItem() returns (r: Option<Item>)
      requires Valid()
      modifies this
      ensures Valid()
      ensures r == match ReadMeta(Section(ra))
                   case None => None
                   case Some(m) => if m.primary.None? then None else ItemById(m, m.primary.value)
    {
      var m := GetMeta();
      if m.None? || m.value.primary.None? { return None; }
      r := ItemByID(m.value.primary.value);
    }

    /** The bytes of an item that is stored in the file. */
    method Data(it: Item) returns (r: Option<Str>)
      ensures r == ItemData(ra, it.location)
    {
      hide ExtentData;
      if it.location.None? { return None; }
      var l := it.location.value;
      if l.construction != 0 || l.dataReference != 0 { return None; }
      if |l.extents| == 0 { return None; }
      var allowed := CheckSizes(l.extents);
      if !allowed { return None; }
      var buf := [];
      var i := 0;
      ghost var all := ExtentData(ra, l.base, l.extents);
      assert l.extents[0..] == l.extents;
      PrependNothing(all);
      while i < |l.extents|
        invariant i <= |l.extents| && all == Prepend(buf, ExtentData(ra, l.base, l.extents[i..]))
      {
        ExtentsStep(buf, ra, l.base, l.extents[i..]);
        var e := l.extents[i];
        var off := (l.base + e.offset) % TWO_64;
        if off < l.base || off >= TWO_63 { return None; }
        if off + e.length > |ra| { return None; }
        buf := buf + ra[off..off + e.length];
        i := i + 1;
      }
      NoExtentsLeft(ra, l.base, l.extents[i..]);
      PrependToEnd(buf);
      r := Some(buf);
    }

    /** The item and its properties, written to a file of its own. */
    method StandaloneHEIF(it: Item) returns (r: Option<Str>)
      requires Valid()
      modifies this
      ensures Valid()
      ensures r == match ReadMeta(Section(ra))
                   case None => None
                   case Some(m) => Standalone(ra, m, it)
    {
      hide ReadMeta, PropertyAssociations, ItemData, Encodable, Encoded, BoxBytes;
      var got := GetMeta();
      if got.None? { return None; }
      var m := got.value;
      if Unsupported(it.info.typ) { return None; }
      var data := Data(it);
      if data.None? { return None; }
      var a := Associations(it.id);
      var props := [];
      var i := 0;
      while i < |a|
        invariant Valid() && i <= |a| && props == Copied(m, it.id)[..i]
      {
        if a[i].index != 0 && a[i].index <= |m.properties.value.container| {
          var p := m.properties.value.container[a[i].index - 1];
          var box := AppendBox([], p.typ, p.body);
          NothingBefore(BoxBytes(p.typ, p.body));
          props := props + [Property(box, a[i].essential)];
        }
        i := i + 1;
      }
      assert props == Copied(m, it.id);
      r := EncodeImage(m.fileType.majorBrand, it.info.typ, props, data.value);
    }
  }

  method BoxesFor(container: seq<Box>, a: seq<Association>) returns (boxes: seq<Box>)
    requires forall x :: x in a ==> 1 <= x.index <= |container|
    ensures boxes == PropertyBoxes(container, a)
  {
    boxes := [];
    var i := 0;
    while i < |a|
      invariant i <= |a| && boxes == PropertyBoxes(container, a)[..i]
    {
      boxes := boxes + [container[a[i].index - 1]];
      i := i + 1;
    }
  }

  /** The boxes a file begins with. */
  method ReadBoxMeta(section: Str) returns (r: Option<Meta>)
    requires |section| < TWO_63
    ensures r == ReadMeta(section)
  {
    hide ReadMeta, First, Rest, Collect, ParseBox, ReadHeader, From, Least;
    var br := new Stream(section);
    var bmr := new Reader(br, true);
    WholeInput(section);
    ReadMetaSteps(section);
    var ftyp := ReadAndParseBox(bmr, FTYP);
    if ftyp.None? { return None; }
    var m := ReadAndParseBox(bmr, META);
    if m.None? { return None; }
    r := CollectChildren(m.value.children, ftyp.value.fileType);
  }

  lemma WholeInput(s: Str)
    ensures From(s, 0) == s
  {
  }

  method AssociationsIn(entries: seq<Entry>, id: nat, n: nat) returns (a: seq<Association>)
    ensures a == OfItem(entries, id, n)
  {
    hide WithIndex;
    a := [];
    var i := 0;
    assert entries[0..] == entries && a + OfItem(entries, id, n) == OfItem(entries, id, n);
    while i < |entries|
      invariant i <= |entries| && a + OfItem(entries[i..], id, n) == OfItem(entries, id, n)
    {
      if entries[i].id == id {
        var valid := ValidOnes(entries[i].associations, n);
        assert a + (valid + OfItem(entries[i..][1..], id, n)) == a + valid + OfItem(entries[i..][1..], id, n);
        a := a + valid;
      }
      i := i + 1;
    }
  }

  method ValidOnes(associations: seq<Association>, n: nat) returns (a: seq<Association>)
    ensures a == WithIndex(associations, n)
  {
    a := [];
    var i := 0;
    assert associations[0..] == associations && a + WithIndex(associations, n) == WithIndex(associations, n);
    while i < |associations|
      invariant i <= |associations| && a + WithIndex(associations[i..], n) == WithIndex(associations, n)
    {
      var x := associations[i];
      assert associations[i..][1..] == associations[i + 1..];
      if x.index != 0 && x.index <= n {
        assert a + ([x] + WithIndex(associations[i + 1..], n)) == a + [x] + WithIndex(associations[i + 1..], n);
        a := a + [x];
      }
      i := i + 1;
    }
  }

  lemma FirstOfItemStep(boxes: seq<seq<Entry>>, id: nat, n: nat)
    requires boxes != []
    ensures FirstOfItem(boxes, id, n) ==
      var r := OfItem(boxes[0], id, n);
      if r != [] then r else FirstOfItem(boxes[1..], id, n)
  {
  }

  lemma FirstOfNothing(boxes: seq<seq<Entry>>, id: nat, n: nat)
    requires boxes == []
    ensures FirstOfItem(boxes, id, n) == []
  {
  }

  /** The last location of the item. */
  method FindLocation(locations: seq<Location>, id: nat) returns (r: Option<Location>)
    ensures r == LastLocation(locations, id)
  {
    r := None;
    var i := 0;
    assert locations[0..] == locations;
    while i < |locations|
      invariant i <= |locations|
      invariant LastLocation(locations, id) ==
        if LastLocation(locations[i..], id).Some? then LastLocation(locations[i..], id) else r
    {
      assert locations[i..][1..] == locations[i + 1..];
      if locations[i].id == id { r := Some(locations[i]); }
      i := i + 1;
    }
  }

  method FindInfo(infos: seq<ItemInfo>, id: nat) returns (r: Option<ItemInfo>)
    ensures r == LastInfo(infos, id)
  {
    r := None;
    var i := 0;
    assert infos[0..] == infos;
    while i < |infos|
      invariant i <= |infos|
      invariant LastInfo(infos, id) == if LastInfo(infos[i..], id).Some? then LastInfo(infos[i..], id) else r
    {
      assert infos[i..][1..] == infos[i + 1..];
      if infos[i].id == id { r := Some(infos[i]); }
      i := i + 1;
    }
  }

  /** Stops at the first extent that is empty or leads beyond the limit. */
  method CheckSizes(extents: seq<Extent>) returns (ok: bool)
    ensures ok == SizesAllowed(extents)
  {
    var total, i := 0, 0;
    assert extents[0..] == extents;
    while i < |extents|
      invariant i <= |extents| && total <= MAX_ITEM_DATA_SIZE
      invariant total + TotalLength(extents[i..]) == TotalLength(extents)
      invariant forall j :: 0 <= j < i ==> extents[j].length > 0
    {
      assert extents[i..][1..] == extents[i + 1..];
      if extents[i].length == 0 || extents[i].length > MAX_ITEM_DATA_SIZE - total {
        assert extents[i] in extents;
        return false;
      }
      total := total + extents[i].length;
      i := i + 1;
    }
    ok := true;
  }

  lemma ExtentsStep(buf: Str, file: Str, base: nat, extents: seq<Extent>)
    requires extents != []
    ensures Prepend(buf, ExtentData(file, base, extents)) ==
      var off := (base + extents[0].offset) % TWO_64;
      if off < base || off >= TWO_63 || off + extents[0].length > |file| then None
      else Prepend(buf + file[off..off + extents[0].length], ExtentData(file, base, extents[1..]))
  {
    var off, rest := (base + extents[0].offset) % TWO_64, ExtentData(file, base, extents[1..]);
    if off >= base && off < TWO_63 && off + extents[0].length <= |file| && rest.Some? {
      var part := file[off..off + extents[0].length];
      assert buf + (part + rest.value) == buf + part + rest.value;
    }
  }

  lemma NoExtentsLeft(file: Str, base: nat, extents: seq<Extent>)
    requires extents == []
    ensures ExtentData(file, base, extents) == Some([])
  {
  }

  // ---------- What an item looks like ----------

  /** The extents with one swap for each quarter turn. */
  method Dimensions(it: Item) returns (r: Option<(nat, nat)>)
    ensures r == VisualDimensions(it.properties)
  {
    r := SpatialExtents(it.properties);
    if r.None? { return; }
    var (width, height) := r.value;
    var i := 0;
    while i < Rotations(it.properties)
      invariant i <= Rotations(it.properties)
      invariant (width, height) == if i % 2 == 0 then r.value else (r.value.1, r.value.0)
    {
      width, height := height, width;
      i := i + 1;
    }
    r := Some((width, height));
  }
}
