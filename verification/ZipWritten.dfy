/**
 Directory headers, written field by field, are read as what was written.  Each writing function
 puts its bytes in front of t, which is what follows.
 */
module ZipWritten {
  import opened Wrappers
  import opened Bytes
  import opened ZipSpec

  // ---------- Extra fields ----------

  datatype Field = Field(tag: nat, body: Str)

  ghost predicate FieldFits(f: Field)
  {
    f.tag < 0x1_0000 && |f.body| < 0x1_0000
  }

  ghost function FieldsWritten(fs: seq<Field>, t: Str): Str
  {
    if fs == [] then t
    else Bytes2(fs[0].tag) + (Bytes2(|fs[0].body|) + (fs[0].body + FieldsWritten(fs[1..], t)))
  }

  /** Too little for a field: what is behind the last one is ignored. */
  ghost predicate NoField(t: Str)
  {
    |t| < 4 || |t| - 4 < t[2] as int + t[3] as int * 256
  }

  /** The first zip64 field is number i; there is none if i is their number. */
  ghost predicate FirstZip64(fs: seq<Field>, i: nat)
  {
    && i <= |fs| && (forall j :: 0 <= j < |fs| ==> FieldFits(fs[j]))
    && (forall j :: 0 <= j < i ==> fs[j].tag != 1) && (i < |fs| ==> fs[i].tag == 1)
  }

  /** Only the first zip64 field counts. */
  lemma {:induction false} ExtrasWritten(fs: seq<Field>, t: Str, i: nat, w: Wide)
    requires FirstZip64(fs, i) && NoField(t)
    ensures Extras(FieldsWritten(fs, t), w) == if i == |fs| then Some(w) else Zip64Field(fs[i].body, w)
  {
    hide *;
    FirstOfFields(fs, i);
    if fs == [] {
      NoMoreExtras(t, w);
    } else {
      OneExtra(fs[0], FieldsWritten(fs[1..], t), w);
      FieldsStep(fs, t);
      if i > 0 {
        ExtrasWritten(fs[1..], t, i - 1, w);
      } else {
        match Zip64Field(fs[0].body, w)
        case None =>
        case Some(v) =>
          NothingNeeded(fs[0].body, w);
          ExtrasKeep(FieldsWritten(fs[1..], t), v);
      }
    }
  }

  lemma FieldsStep(fs: seq<Field>, t: Str)
    ensures FieldsWritten([], t) == t
    ensures fs != [] ==>
      FieldsWritten(fs, t) == Bytes2(fs[0].tag) + (Bytes2(|fs[0].body|) + (fs[0].body + FieldsWritten(fs[1..], t)))
  {
  }

  lemma FirstOfFields(fs: seq<Field>, i: nat)
    requires FirstZip64(fs, i)
    ensures i <= |fs|
    ensures fs != [] ==> FieldFits(fs[0]) && if i == 0 then fs[0].tag == 1 else fs[0].tag != 1 && FirstZip64(fs[1..], i - 1)
  {
  }

  lemma NoMoreExtras(t: Str, w: Wide)
    requires NoField(t)
    ensures FieldsWritten([], t) == t && Extras(t, w) == Some(w)
  {
  }

  lemma OneExtra(f: Field, t: Str, w: Wide)
    requires FieldFits(f)
    ensures Extras(Bytes2(f.tag) + (Bytes2(|f.body|) + (f.body + t)), w) ==
      if f.tag != 1 then Extras(t, w)
      else match Zip64Field(f.body, w)
        case None => None
        case Some(v) => Extras(t, v)
  {
    hide LE16, Bytes2, Zip64Field;
    var n := |f.body|;
    var s := Bytes2(f.tag) + (Bytes2(n) + (f.body + t));
    LE16Written(f.tag, Bytes2(n) + (f.body + t));
    LE16Written(n, f.body + t);
    assert s[2..] == Bytes2(n) + (f.body + t);
    var x := s[4..];
    assert x == f.body + t;
    assert x[..n] == f.body && x[n..] == t;
  }

  lemma NothingNeeded(b: Str, w: Wide)
    requires Zip64Field(b, w).Some?
    ensures var v := Zip64Field(b, w).value; !v.needUncompressed && !v.needCompressed && !v.needOffset
  {
  }

  lemma {:induction false} ExtrasKeep(x: Str, w: Wide)
    requires !w.needUncompressed && !w.needCompressed && !w.needOffset
    ensures Extras(x, w) == Some(w)
    decreases |x|
  {
    hide LE16;
    if |x| >= 4 && |x[4..]| >= LE16(x[2..]) {
      ExtrasKeep(x[4..][LE16(x[2..])..], w);
    }
  }

  /** The values of a zip64 field: those that need it, in this order. */
  ghost function Values(w: Wide, uncompressed: nat, compressed: nat, offset: nat, t: Str): Str
  {
    var o := (if w.needOffset then Bytes8(offset) else []) + t;
    var c := (if w.needCompressed then Bytes8(compressed) else []) + o;
    (if w.needUncompressed then Bytes8(uncompressed) else []) + c
  }

  lemma ValuesWritten(w: Wide, u: nat, c: nat, o: nat, t: Str)
    requires u < TWO_64 && c < TWO_64 && o < TWO_64
    ensures Zip64Field(Values(w, u, c, o, t), w) == Some(Wide(
      if w.needUncompressed then u else w.uncompressed,
      if w.needCompressed then c else w.compressed,
      if w.needOffset then Signed64(o) else w.offset,
      false, false, false))
  {
    hide LE64, Bytes8, Signed64;
    var s3 := (if w.needOffset then Bytes8(o) else []) + t;
    var s2 := (if w.needCompressed then Bytes8(c) else []) + s3;
    LE64Written(u, s2);
    LE64Written(c, s3);
    LE64Written(o, t);
    assert [] + t == t && [] + s3 == s3 && [] + s2 == s2;
    assert (Bytes8(u) + s2)[8..] == s2 && (Bytes8(c) + s3)[8..] == s3;
  }

  /** A field with too few values is an error. */
  lemma TooFewValues(b: Str, w: Wide)
    ensures Zip64Field(b, w).None? <==>
      |b| < (if w.needUncompressed then 8 else 0) + (if w.needCompressed then 8 else 0) + (if w.needOffset then 8 else 0)
  {
    hide LE64, Signed64;
  }

  // ---------- Headers ----------

  /** A header and what is written for it: the offset of 32 bits, the two numbers that are not used,
      and the extra fields, of which number wide is the zip64 field. */
  datatype Entry = Entry(h: FileHeader, offset: nat, disk: nat, internal: nat, fields: seq<Field>, wide: nat, tail: Str)

  ghost predicate EntryFits(e: Entry)
  {
    && e.h.creatorVersion < 0x1_0000 && e.h.readerVersion < 0x1_0000 && e.h.flags < 0x1_0000
    && e.h.compression < 0x1_0000 && e.h.modifiedTime < 0x1_0000 && e.h.modifiedDate < 0x1_0000
    && e.h.crc32 < TWO_32 && e.h.compressedSize < TWO_32 && e.h.uncompressedSize < TWO_32
    && |e.h.name| < 0x1_0000 && |e.h.extra| < 0x1_0000 && |e.h.comment| < 0x1_0000
    && e.h.externalAttrs < TWO_32 && e.offset < TWO_32
    && e.h.extra == FieldsWritten(e.fields, e.tail) && NoField(e.tail) && FirstZip64(e.fields, e.wide)
  }

  ghost function HeaderWritten(e: Entry, t: Str): Str
  {
    Ascii("PK") + ([1, 2] + (Bytes2(e.h.creatorVersion) + (Bytes2(e.h.readerVersion) + Flags(e, t))))
  }

  ghost function Flags(e: Entry, t: Str): Str
  {
    Bytes2(e.h.flags) + (Bytes2(e.h.compression) + (Bytes2(e.h.modifiedTime) + (Bytes2(e.h.modifiedDate) + Sizes(e, t))))
  }

  ghost function Sizes(e: Entry, t: Str): Str
  {
    Bytes4(e.h.crc32) + (Bytes4(e.h.compressedSize) + (Bytes4(e.h.uncompressedSize) + Lengths(e, t)))
  }

  ghost function Lengths(e: Entry, t: Str): Str
  {
    Bytes2(|e.h.name|) + (Bytes2(|e.h.extra|) + (Bytes2(|e.h.comment|) + (Bytes2(e.disk) + (Bytes2(e.internal) + Attributes(e, t)))))
  }

  ghost function Attributes(e: Entry, t: Str): Str
  {
    Bytes4(e.h.externalAttrs) + (Bytes4(e.offset) + (e.h.name + (e.h.extra + (e.h.comment + t))))
  }

  /** The values before the extra fields are read. */
  ghost function Narrow(e: Entry): Wide
  {
    Wide(e.h.uncompressedSize, e.h.compressedSize, e.offset,
         e.h.uncompressedSize == 0xffff_ffff, e.h.compressedSize == 0xffff_ffff, e.offset == 0xffff_ffff)
  }

  /** The extra fields say what the header says where its own fields are at their limits. */
  ghost predicate Right(e: Entry)
  {
    && EntryFits(e)
    && (e.h.uncompressedSize != 0xffff_ffff ==> e.h.uncompressedSize64 == e.h.uncompressedSize)
    && (e.h.compressedSize != 0xffff_ffff ==> e.h.compressedSize64 == e.h.compressedSize)
    && (e.offset != 0xffff_ffff ==> e.h.headerOffset == e.offset)
    && if e.wide < |e.fields| then
         && e.h.uncompressedSize64 < TWO_64 && e.h.compressedSize64 < TWO_64 && -TWO_63 <= e.h.headerOffset < TWO_63
         && exists t :: e.fields[e.wide].body ==
              Values(Narrow(e), e.h.uncompressedSize64, e.h.compressedSize64, e.h.headerOffset % TWO_64, t)
       else
         e.h.compressedSize != 0xffff_ffff && e.offset != 0xffff_ffff && e.h.uncompressedSize64 == e.h.uncompressedSize
  }

  lemma Behind(s: Str, i: nat, a: Str, t: Str)
    requires i <= |s| && s[i..] == a + t
    ensures i + |a| <= |s| && s[i + |a|..] == t
  {
    assert s[i..][|a|..] == t;
  }

  lemma FlagsRead(e: Entry, t: Str)
    requires EntryFits(e)
    ensures var s := Flags(e, t);
      && |s| >= 8 && LE16(s) == e.h.flags && LE16(s[2..]) == e.h.compression
      && LE16(s[4..]) == e.h.modifiedTime && LE16(s[6..]) == e.h.modifiedDate && s[8..] == Sizes(e, t)
  {
    hide Bytes2, LE16, Sizes, FirstZip64, FieldsWritten, NoField;
    var t4 := Sizes(e, t);
    var t3 := Bytes2(e.h.modifiedDate) + t4;
    var t2 := Bytes2(e.h.modifiedTime) + t3;
    var t1 := Bytes2(e.h.compression) + t2;
    var s := Bytes2(e.h.flags) + t1;
    Behind(s, 0, Bytes2(e.h.flags), t1);
    Behind(s, 2, Bytes2(e.h.compression), t2);
    Behind(s, 4, Bytes2(e.h.modifiedTime), t3);
    Behind(s, 6, Bytes2(e.h.modifiedDate), t4);
    LE16Written(e.h.flags, t1);
    LE16Written(e.h.compression, t2);
    LE16Written(e.h.modifiedTime, t3);
    LE16Written(e.h.modifiedDate, t4);
  }

  lemma SizesRead(e: Entry, t: Str)
    requires EntryFits(e)
    ensures var s := Sizes(e, t);
      && |s| >= 12 && LE32(s) == e.h.crc32 && LE32(s[4..]) == e.h.compressedSize
      && LE32(s[8..]) == e.h.uncompressedSize && s[12..] == Lengths(e, t)
  {
    hide Bytes4, LE32, Lengths, FirstZip64, FieldsWritten, NoField;
    var t3 := Lengths(e, t);
    var t2 := Bytes4(e.h.uncompressedSize) + t3;
    var t1 := Bytes4(e.h.compressedSize) + t2;
    var s := Bytes4(e.h.crc32) + t1;
    Behind(s, 0, Bytes4(e.h.crc32), t1);
    Behind(s, 4, Bytes4(e.h.compressedSize), t2);
    Behind(s, 8, Bytes4(e.h.uncompressedSize), t3);
    LE32Written(e.h.crc32, t1);
    LE32Written(e.h.compressedSize, t2);
    LE32Written(e.h.uncompressedSize, t3);
  }

  lemma LengthsRead(e: Entry, t: Str)
    requires EntryFits(e)
    ensures var s := Lengths(e, t);
      && |s| >= 10 && LE16(s) == |e.h.name| && LE16(s[2..]) == |e.h.extra| && LE16(s[4..]) == |e.h.comment|
      && s[10..] == Attributes(e, t)
  {
    hide Bytes2, LE16, Attributes, FirstZip64, FieldsWritten, NoField;
    var t5 := Attributes(e, t);
    var t4 := Bytes2(e.internal) + t5;
    var t3 := Bytes2(e.disk) + t4;
    var t2 := Bytes2(|e.h.comment|) + t3;
    var t1 := Bytes2(|e.h.extra|) + t2;
    var s := Bytes2(|e.h.name|) + t1;
    Behind(s, 0, Bytes2(|e.h.name|), t1);
    Behind(s, 2, Bytes2(|e.h.extra|), t2);
    Behind(s, 4, Bytes2(|e.h.comment|), t3);
    Behind(s, 6, Bytes2(e.disk), t4);
    Behind(s, 8, Bytes2(e.internal), t5);
    LE16Written(|e.h.name|, t1);
    LE16Written(|e.h.extra|, t2);
    LE16Written(|e.h.comment|, t3);
  }

  lemma AttributesRead(e: Entry, t: Str)
    requires EntryFits(e)
    ensures var s := Attributes(e, t);
      && |s| >= 8 && LE32(s) == e.h.externalAttrs && LE32(s[4..]) == e.offset
      && s[8..] == e.h.name + (e.h.extra + (e.h.comment + t))
  {
    hide Bytes4, LE32, FirstZip64, FieldsWritten, NoField;
    var t2 := e.h.name + (e.h.extra + (e.h.comment + t));
    var t1 := Bytes4(e.offset) + t2;
    var s := Bytes4(e.h.externalAttrs) + t1;
    Behind(s, 0, Bytes4(e.h.externalAttrs), t1);
    Behind(s, 4, Bytes4(e.offset), t2);
    LE32Written(e.h.externalAttrs, t1);
    LE32Written(e.offset, t2);
  }

  lemma FrontRead(e: Entry, t: Str)
    requires EntryFits(e)
    ensures var s := HeaderWritten(e, t);
      && |s| >= 8 && LE32(s) == DIRECTORY_HEADER_SIGNATURE
      && LE16(s[4..]) == e.h.creatorVersion && LE16(s[6..]) == e.h.readerVersion && s[8..] == Flags(e, t)
  {
    hide Bytes2, LE16, Ascii, Flags, FirstZip64, FieldsWritten, NoField;
    var t2 := Flags(e, t);
    var t1 := Bytes2(e.h.readerVersion) + t2;
    var t0 := Bytes2(e.h.creatorVersion) + t1;
    var s := Ascii("PK") + ([1, 2] + t0);
    Signature(1, 2, t0);
    Behind(s, 4, Bytes2(e.h.creatorVersion), t1);
    Behind(s, 6, Bytes2(e.h.readerVersion), t2);
    LE16Written(e.h.creatorVersion, t1);
    LE16Written(e.h.readerVersion, t2);
  }

  lemma Signature(x: Byte, y: Byte, t: Str)
    ensures var s := Ascii("PK") + ([x, y] + t);
      LE32(s) == 0x4b50 + x as int * 0x1_0000 + y as int * 0x100_0000 && s[4..] == t
  {
  }

  /** What a header that was written says before its extra fields are read. */
  ghost function Plain(h: FileHeader, offset: nat): FileHeader
  {
    h.(compressedSize64 := h.compressedSize, uncompressedSize64 := h.uncompressedSize, headerOffset := offset,
       name := [], extra := [], comment := [])
  }

  lemma FixedRead(e: Entry, t: Str)
    requires EntryFits(e)
    ensures var s := HeaderWritten(e, t);
      && |s| >= 46 && LE32(s) == DIRECTORY_HEADER_SIGNATURE && Fixed(s) == Plain(e.h, e.offset)
      && LE16(s[28..]) == |e.h.name| && LE16(s[30..]) == |e.h.extra| && LE16(s[32..]) == |e.h.comment|
      && s[46..] == e.h.name + (e.h.extra + (e.h.comment + t))
  {
    hide LE16, LE32, Flags, Sizes, Lengths, Attributes, HeaderWritten, EntryFits;
    FrontRead(e, t);
    FlagsRead(e, t);
    SizesRead(e, t);
    LengthsRead(e, t);
    AttributesRead(e, t);
    var s := HeaderWritten(e, t);
    Part(s, 8, Flags(e, t));
    Part(s, 16, Sizes(e, t));
    Part(s, 28, Lengths(e, t));
    Part(s, 38, Attributes(e, t));
  }

  lemma Part(s: Str, i: nat, t: Str)
    requires i <= |s| && s[i..] == t
    ensures |s| == i + |t|
    ensures forall j {:trigger t[j..]} :: 0 <= j <= |t| ==> s[i + j..] == t[j..]
  {
  }

  /** What is read depends on what the extra fields make of the values. */
  lemma ReadByExtras(e: Entry, t: Str)
    requires EntryFits(e)
    ensures ReadHeader(HeaderWritten(e, t)) ==
      match Extras(e.h.extra, Narrow(e))
      case None => BadFormat
      case Some(w) =>
        if w.needCompressed || w.needOffset then BadFormat
        else Header(e.h.(uncompressedSize64 := w.uncompressed, compressedSize64 := w.compressed, headerOffset := w.offset), t)
  {
    hide LE16, LE32, Fixed, HeaderWritten, EntryFits, Extras;
    FixedRead(e, t);
    ThreeParts(e.h.name, e.h.extra, e.h.comment, t);
  }

  lemma ThreeParts(n: Str, x: Str, c: Str, t: Str)
    ensures var d := n + (x + (c + t));
      && d[..|n|] == n && d[|n|..|n| + |x|] == x && d[|n| + |x|..|n| + |x| + |c|] == c && d[|n| + |x| + |c|..] == t
  {
    var d := n + (x + (c + t));
    Behind(d, 0, n, x + (c + t));
    Behind(d, |n|, x, c + t);
    Behind(d, |n| + |x|, c, t);
    assert d[|n|..|n| + |x|] == d[|n|..][..|x|] && d[|n| + |x|..|n| + |x| + |c|] == d[|n| + |x|..][..|c|];
  }

  /** A header reads back as it was written, for all sizes, offsets and extra fields. */
  lemma ReadWritten(e: Entry, t: Str)
    requires Right(e)
    ensures ReadHeader(HeaderWritten(e, t)) == Header(e.h, t)
  {
    hide HeaderWritten, Extras, ReadHeader, FirstZip64, NoField, Zip64Field, Values, Signed64;
    ReadByExtras(e, t);
    ExtrasWritten(e.fields, e.tail, e.wide, Narrow(e));
    FirstOfFields(e.fields, e.wide);
    if e.wide < |e.fields| {
      var u, c, o := e.h.uncompressedSize64, e.h.compressedSize64, e.h.headerOffset % TWO_64;
      var r :| e.fields[e.wide].body == Values(Narrow(e), u, c, o, r);
      ValuesWritten(Narrow(e), u, c, o, r);
      SignedOfUnsigned(e.h.headerOffset);
    }
  }

  lemma SignedOfUnsigned(n: int)
    requires -TWO_63 <= n < TWO_63
    ensures Signed64(n % TWO_64) == n
  {
  }

  /** Without the values that are needed a header is wrong, except for the uncompressed size alone. */
  lemma ValuesMissing(e: Entry, t: Str)
    requires EntryFits(e)
    ensures ReadHeader(HeaderWritten(e, t)).Header? <==>
      if e.wide == |e.fields| then e.h.compressedSize != 0xffff_ffff && e.offset != 0xffff_ffff
      else
        |e.fields[e.wide].body| >=
          (if e.h.uncompressedSize == 0xffff_ffff then 8 else 0) + (if e.h.compressedSize == 0xffff_ffff then 8 else 0)
          + (if e.offset == 0xffff_ffff then 8 else 0)
    ensures !ReadHeader(HeaderWritten(e, t)).Header? ==> ReadHeader(HeaderWritten(e, t)) == BadFormat
  {
    hide HeaderWritten, Extras, ReadHeader, FirstZip64, NoField, Zip64Field, Signed64;
    ReadByExtras(e, t);
    ExtrasWritten(e.fields, e.tail, e.wide, Narrow(e));
    FirstOfFields(e.fields, e.wide);
    if e.wide < |e.fields| {
      var b := e.fields[e.wide].body;
      TooFewValues(b, Narrow(e));
      if Zip64Field(b, Narrow(e)).Some? { NothingNeeded(b, Narrow(e)); }
    }
  }

  // ---------- Other input ----------

  /** An input that ends in a header: what is reported depends on where it ends. */
  lemma HeaderCut(e: Entry, n: nat)
    requires EntryFits(e) && n < |HeaderWritten(e, [])|
    ensures ReadHeader(HeaderWritten(e, [])[..n]) == if n == 0 || n == 46 then NoMore else UnexpectedEnd
  {
    hide LE16, LE32, Fixed, HeaderWritten, EntryFits, Extras;
    var s := HeaderWritten(e, []);
    FixedRead(e, []);
    var c := s[..n];
    if n >= 46 {
      assert c[28..] == s[28..][..n - 28] && c[30..] == s[30..][..n - 30] && c[32..] == s[32..][..n - 32];
      CutAgrees(s, n);
      CutAgrees16(s[28..], n - 28);
      CutAgrees16(s[30..], n - 30);
      CutAgrees16(s[32..], n - 32);
    }
  }

  lemma CutAgrees(s: Str, n: nat)
    requires 4 <= n <= |s|
    ensures LE32(s[..n]) == LE32(s)
  {
    assert s[..n][2..][0] == s[2..][0] && s[..n][2..][1] == s[2..][1];
  }

  lemma CutAgrees16(s: Str, n: nat)
    requires 2 <= n <= |s|
    ensures LE16(s[..n]) == LE16(s)
  {
  }

  /** Anything that does not begin with the four bytes of a header is none. */
  lemma NoHeader(s: Str)
    requires s != [] && (|s| < 46 || s[..4] != Ascii("PK") + [1, 2])
    ensures ReadHeader(s) == if |s| < 46 then UnexpectedEnd else BadFormat
  {
    hide Fixed, Extras;
    if |s| >= 46 { NoSignature(s, 1, 2); }
  }

  lemma FirstFour(s: Str, q: Str)
    requires |s| >= 4 && |q| == 4
    ensures s[..4] == q <==> s[0] == q[0] && s[1] == q[1] && s[2] == q[2] && s[3] == q[3]
  {
  }

  lemma SameDigits(a: nat, b: nat, c: nat, d: nat)
    requires a < 0x1_0000 && c < 0x1_0000
    ensures a + b * 0x1_0000 == c + d * 0x1_0000 <==> a == c && b == d
  {
  }

  lemma NoSignature(s: Str, x: Byte, y: Byte)
    requires |s| >= 4
    ensures s[..4] == Ascii("PK") + [x, y] <==> LE32(s) == 0x4b50 + x as int * 0x1_0000 + y as int * 0x100_0000
  {
    var q := Ascii("PK") + [x, y];
    assert |q| == 4 && q[0] == 0x50 && q[1] == 0x4b && q[2] == x && q[3] == y;
    FirstFour(s, q);
    assert s[2..][0] == s[2] && s[2..][1] == s[3];
    SameDigits(LE16(s), LE16(s[2..]), 0x4b50, x as int + y as int * 256);
    hide Ascii;
  }
}
