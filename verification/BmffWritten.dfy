/**
 Boxes and bodies of boxes, written field by field, are read as what was written.  Each writing
 function below puts its bytes in front of t, which is what follows.
 */
module BmffWritten {
  import opened Wrappers
  import opened Bytes
  import opened Bmff

  /** The types of boxes outside meta, and the brand that is always compatible. */
  lemma FileTypesAreSpelled()
    ensures FTYP == Ascii("ftyp") && META == Ascii("meta") && MDAT == Ascii("mdat")
    ensures MIF1 == Ascii("mif1") && PICT == Ascii("pict")
  {
    hide Ascii;
    FourCharacters("ftyp");
    FourCharacters("meta");
    FourCharacters("mdat");
    FourCharacters("mif1");
    FourCharacters("pict");
  }

  /** The types of the boxes that describe items. */
  lemma MetaTypesAreSpelled()
    ensures HDLR == Ascii("hdlr") && PITM == Ascii("pitm") && IINF == Ascii("iinf")
    ensures INFE == Ascii("infe") && ILOC == Ascii("iloc") && IPRP == Ascii("iprp")
  {
    hide Ascii;
    FourCharacters("hdlr");
    FourCharacters("pitm");
    FourCharacters("iinf");
    FourCharacters("infe");
    FourCharacters("iloc");
    FourCharacters("iprp");
  }

  /** The types of the boxes that describe properties, and of the items that have more strings. */
  lemma PropertyTypesAreSpelled()
    ensures IPCO == Ascii("ipco") && IPMA == Ascii("ipma") && ISPE == Ascii("ispe")
    ensures IROT == Ascii("irot") && MIME == Ascii("mime") && URI == Ascii("uri ")
  {
    hide Ascii;
    FourCharacters("ipco");
    FourCharacters("ipma");
    FourCharacters("ispe");
    FourCharacters("irot");
    FourCharacters("mime");
    FourCharacters("uri ");
  }

  lemma FourCharacters(text: string)
    requires |text| == 4
    ensures Ascii(text) ==
      [text[0] as int % 256, text[1] as int % 256, text[2] as int % 256, text[3] as int % 256]
  {
  }

  // ---------- Headers ----------

  lemma ShortHeader(typ: Tag, n: nat, t: Str)
    requires n < TWO_32
    ensures var h := ReadHeader(BE32(n) + (typ + t));
      && (n >= 8 ==> h == Header(typ, n, 8, Some(n - 8)))
      && (n == 0 ==> h == Header(typ, 0, 8, None))
      && (2 <= n < 8 ==> h == Bad)
  {
    hide U32, U64, BE32;
    var s := BE32(n) + (typ + t);
    U32OfBE32(n, typ + t);
    assert s[4..8] == typ;
  }

  /** Sizes of 64 bits, behind the type; those that are negative as signed numbers are errors. */
  lemma LongHeader(typ: Tag, n: nat, t: Str)
    requires n < TWO_64
    ensures ReadHeader([0, 0, 0, 1] + (typ + (BE64(n) + t))) ==
      if 16 <= n < TWO_63 then Header(typ, n, 16, Some(n - 16)) else Bad
  {
    hide U64, BE64;
    var s := [0, 0, 0, 1] + (typ + (BE64(n) + t));
    assert U32(s) == 1;
    hide U32;
    assert s[4..8] == typ && s[8..] == BE64(n) + t;
    U64OfBE64(n, t);
  }

  /** An input that ends in a header is at its end if it ends before a field, and else wrong. */
  lemma HeaderCut(s: Str)
    ensures |s| < 8 ==> ReadHeader(s) == if |s| == 0 || |s| == 4 then End else Bad
    ensures 8 <= |s| < 16 && s[..4] == [0, 0, 0, 1] ==> ReadHeader(s) == if |s| == 8 then End else Bad
  {
    if 8 <= |s| < 16 && s[..4] == [0, 0, 0, 1] {
      assert s[0] == s[..4][0] && s[1] == s[..4][1] && s[2] == s[..4][2] && s[3] == s[..4][3];
    }
  }

  // ---------- Boxes ----------

  /** How the size of a box is written. */
  datatype Form = Short | Long | Open

  datatype Sized = Sized(form: Form, box: Box)

  ghost predicate FitsForm(b: Sized)
  {
    match b.form
    case Short => 8 + |b.box.body| < TWO_32
    case Long => 16 + |b.box.body| < TWO_63
    case Open => true
  }

  ghost function BoxWritten(b: Sized, t: Str): Str
    requires FitsForm(b)
  {
    match b.form
    case Short => BE32(8 + |b.box.body|) + (b.box.typ + (b.box.body + t))
    case Long => [0, 0, 0, 1] + (b.box.typ + (BE64(16 + |b.box.body|) + (b.box.body + t)))
    case Open => BE32(0) + (b.box.typ + (b.box.body + t))
  }

  /** All boxes, of which only the last one may be open. */
  ghost predicate AllFit(bs: seq<Sized>)
  {
    forall i :: 0 <= i < |bs| ==> FitsForm(bs[i]) && (bs[i].form.Open? ==> i + 1 == |bs|)
  }

  ghost function BoxesWritten(bs: seq<Sized>): Str
    requires AllFit(bs)
  {
    if bs == [] then [] else BoxWritten(bs[0], BoxesWritten(bs[1..]))
  }

  ghost function BoxesOf(bs: seq<Sized>): (r: seq<Box>)
    ensures |r| == |bs|
  {
    seq(|bs|, i requires 0 <= i < |bs| => bs[i].box)
  }

  lemma {:induction false} SplitWritten(bs: seq<Sized>)
    requires AllFit(bs)
    ensures SplitBoxes(BoxesWritten(bs)) == Some(BoxesOf(bs))
  {
    hide *;
    BoxesStep(bs);
    if bs == [] {
      NothingToSplit();
    } else {
      SplitWritten(bs[1..]);
      SplitOneWritten(bs[0], BoxesWritten(bs[1..]));
    }
  }

  lemma BoxesStep(bs: seq<Sized>)
    requires AllFit(bs)
    ensures bs == [] ==> BoxesWritten(bs) == [] && BoxesOf(bs) == []
    ensures bs != [] ==> AllFit(bs[1..]) && FitsForm(bs[0]) && BoxesOf(bs) == [bs[0].box] + BoxesOf(bs[1..])
    ensures bs != [] ==> BoxesWritten(bs) == BoxWritten(bs[0], BoxesWritten(bs[1..]))
    ensures bs != [] && bs[0].form.Open? ==> BoxesWritten(bs[1..]) == []
  {
    hide BoxWritten, FitsForm;
    assert bs != [] ==> AllFit(bs[1..]);
  }

  lemma SplitOneWritten(b: Sized, t: Str)
    requires FitsForm(b) && (b.form.Open? ==> t == [])
    ensures SplitBoxes(BoxWritten(b, t)) ==
      match SplitBoxes(t)
      case None => None
      case Some(rest) => Some([b.box] + rest)
  {
    hide ReadHeader, BE32, BE64;
    var body, s := b.box.body, BoxWritten(b, t);
    match b.form
    case Short =>
      ShortHeader(b.box.typ, 8 + |body|, body + t);
      assert s[8..8 + |body|] == body && s[8 + |body|..] == t;
    case Long =>
      LongHeader(b.box.typ, 16 + |body|, body + t);
      assert s[16..16 + |body|] == body && s[16 + |body|..] == t;
    case Open =>
      ShortHeader(b.box.typ, 0, body + t);
      NothingToSplit();
      assert SplitBoxes(t) == Some([]) && [b.box] + [] == [b.box];
      assert s[8..|s|] == body;
  }

  lemma NothingToSplit()
    ensures SplitBoxes([]) == Some([])
  {
  }

  // ---------- Numbers and strings ----------

  /** A number of size bytes. */
  function NumberWritten(size: nat, n: nat): Str
  {
    if size == 1 then [n % 256] else if size == 2 then BE16(n) else if size == 4 then BE32(n)
    else if size == 8 then BE64(n) else []
  }

  ghost predicate FitsSize(size: nat, n: nat)
  {
    (size == 0 && n == 0) || (size == 1 && n < 256) || (size == 2 && n < 0x1_0000) || (size == 4 && n < TWO_32)
    || (size == 8 && n < TWO_64)
  }

  lemma TakeNumber(size: nat, n: nat, t: Str)
    requires FitsSize(size, n)
    ensures TakeN(size, NumberWritten(size, n) + t) == Some(Read(n, t))
  {
    hide U64, BE64, BE16, BE32, Take16, Take32;
    var s := NumberWritten(size, n) + t;
    if size == 0 {
      assert s == t;
    } else if size == 1 {
      assert s == [n] + t && s[1..] == t;
    } else if size == 2 {
      Take16Written(n, t);
    } else if size == 4 {
      Take32Written(n, t);
    } else {
      U64OfBE64(n, t);
      assert s[8..] == t;
    }
  }

  lemma {:induction false} TakeStringWritten(v: Str, t: Str)
    requires 0 !in v
    ensures TakeString(v + ([0] + t)) == Some(Read(v, t))
  {
    var s := v + ([0] + t);
    if v == [] {
      assert s == [0] + t && s[1..] == t;
    } else {
      assert s[1..] == v[1..] + ([0] + t);
      TakeStringWritten(v[1..], t);
      assert [v[0]] + v[1..] == v;
    }
  }

  lemma {:induction false} NoString(v: Str)
    requires 0 !in v
    ensures TakeString(v) == None
  {
    if v != [] {
      NoString(v[1..]);
    }
  }

  lemma {:induction false} UpToZeroWritten(v: Str, t: Str)
    requires 0 !in v
    ensures UpToZero(v) == UpToZero(v + ([0] + t)) == v
  {
    var s := v + ([0] + t);
    if v == [] {
      assert s[0] == 0;
    } else {
      assert s[1..] == v[1..] + ([0] + t);
      UpToZeroWritten(v[1..], t);
      assert [v[0]] + v[1..] == v;
    }
  }

  /** Version and flags. */
  function FullWritten(f: Full, t: Str): Str
  {
    [f.version, f.flags / 0x1_0000 % 256, f.flags / 256 % 256, f.flags % 256] + t
  }

  lemma TakeFullWritten(f: Full, t: Str)
    requires f.flags < 0x100_0000
    ensures TakeFull(FullWritten(f, t)) == Some(Read(f, t))
  {
    assert FullWritten(f, t)[4..] == t;
  }

  // ---------- ftyp, meta, hdlr and pitm ----------

  ghost function TagsWritten(tags: seq<Tag>, t: Str): Str
  {
    if tags == [] then t else tags[0] + TagsWritten(tags[1..], t)
  }

  lemma {:induction false} QuadsWritten(tags: seq<Tag>, t: Str)
    requires |t| < 4
    ensures Quads(TagsWritten(tags, t)) == tags
  {
    if tags != [] {
      var s := TagsWritten(tags, t);
      QuadsWritten(tags[1..], t);
      assert s[..4] == tags[0] && s[4..] == TagsWritten(tags[1..], t);
      assert [tags[0]] + tags[1..] == tags;
    }
  }

  lemma ReadFtypWritten(f: FileType, t: Str)
    requires |t| < 4
    ensures ParseFileType(f.majorBrand + (f.minorVersion + TagsWritten(f.compatible, t))) == Some(f)
  {
    var rest := TagsWritten(f.compatible, t);
    var s := f.majorBrand + (f.minorVersion + rest);
    assert s[..4] == f.majorBrand && s[4..8] == f.minorVersion && s[8..] == rest;
    QuadsWritten(f.compatible, t);
  }

  /** With version and flags in front of the children, unless the children's size reads "hdlr". */
  lemma ReadMetaWritten(f: Full, bs: seq<Sized>)
    requires f.flags < 0x100_0000 && AllFit(bs) && !(HDLR <= BoxesWritten(bs))
    ensures ParseMeta(FullWritten(f, BoxesWritten(bs))) == Some(BoxesOf(bs))
  {
    hide SplitBoxes;
    var t := BoxesWritten(bs);
    var s := FullWritten(f, t);
    assert s[4..] == t && (|s| >= 8 ==> s[4..8] == t[..4]);
    SplitWritten(bs);
  }

  /** As QuickTime has it, with the children alone, of which the first is hdlr. */
  lemma ReadQuickTimeMeta(bs: seq<Sized>)
    requires AllFit(bs) && bs != [] && bs[0].box.typ == HDLR
    ensures ParseMeta(BoxesWritten(bs)) == Some(BoxesOf(bs))
  {
    hide SplitBoxes, BE32, BE64;
    var s := BoxesWritten(bs);
    assert s[4..8] == HDLR;
    SplitWritten(bs);
  }

  /** The name may lack its zero byte. */
  lemma ReadHdlrWritten(f: Full, unused: Str, h: Handler, reserved: Str, t: Str)
    requires |unused| == 4 && |reserved| == 12 && 0 !in h.name
    ensures ParseHandler(FullWritten(f, unused + (h.typ + (reserved + h.name)))) == Some(h)
    ensures ParseHandler(FullWritten(f, unused + (h.typ + (reserved + (h.name + ([0] + t)))))) == Some(h)
  {
    hide UpToZero;
    var s := FullWritten(f, unused + (h.typ + (reserved + h.name)));
    var u := FullWritten(f, unused + (h.typ + (reserved + (h.name + ([0] + t)))));
    assert s[8..12] == h.typ && s[24..] == h.name;
    assert u[8..12] == h.typ && u[24..] == h.name + ([0] + t);
    UpToZeroWritten(h.name, t);
  }

  lemma ReadPitmWritten(f: Full, id: nat, t: Str)
    requires f.flags < 0x100_0000
    ensures f.version == 0 && id < 0x1_0000 ==> ParsePrimaryItem(FullWritten(f, BE16(id) + t)) == Some(id)
    ensures f.version > 0 && id < TWO_32 ==> ParsePrimaryItem(FullWritten(f, BE32(id) + t)) == Some(id)
  {
    hide Take16, Take32, TakeFull, FullWritten, BE16, BE32;
    TakeFullWritten(f, BE16(id) + t);
    TakeFullWritten(f, BE32(id) + t);
    if id < 0x1_0000 { Take16Written(id, t); }
    if id < TWO_32 { Take32Written(id, t); }
  }

  lemma ReadIspeWritten(f: Full, width: nat, height: nat, t: Str)
    requires width < TWO_32 && height < TWO_32
    ensures ParseSpatialExtents(FullWritten(f, BE32(width) + (BE32(height) + t))) == Some((width, height))
  {
    hide U32, BE32;
    var s := FullWritten(f, BE32(width) + (BE32(height) + t));
    assert s[4..] == BE32(width) + (BE32(height) + t) && s[8..] == BE32(height) + t;
    U32OfBE32(width, BE32(height) + t);
    U32OfBE32(height, t);
  }

  /** Only the two low bits count. */
  lemma ReadIrotWritten(angle: Angle, high: nat, t: Str)
    requires high < 64
    ensures ParseRotation([4 * high + angle] + t) == Some(angle)
  {
  }
}
