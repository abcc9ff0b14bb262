/**
 Reading the table of contents of a ZIP file of which only the last bytes are known.
 */
module Zip {
  import opened Wrappers
  import opened Bytes
  import opened ZipSpec
  import MultiReaderAt
  import ZipSuffix

  // ---------- Cursors ----------

  /** A buffer that is consumed from the front. */
  class ReadBuf {
    var b: Str

    constructor (b: Str)
      ensures this.b == b
    {
      this.b := b;
    }

    method Uint16() returns (v: nat)
      requires |b| >= 2
      modifies this
      ensures v == LE16(old(b)) && b == old(b)[2..]
    {
      v := LE16(b);
      b := b[2..];
    }

    method Uint32() returns (v: nat)
      requires |b| >= 4
      modifies this
      ensures v == LE32(old(b)) && b == old(b)[4..]
    {
      v := LE32(b);
      b := b[4..];
    }

    method Uint64() returns (v: nat)
      requires |b| >= 8
      modifies this
      ensures v == LE64(old(b)) && b == old(b)[8..]
    {
      v := LE64(b);
      b := b[8..];
    }

    method Sub(n: nat) returns (s: Str)
      requires n <= |b|
      modifies this
      ensures s == old(b)[..n] && b == old(b)[n..]
    {
      s := b[..n];
      b := b[n..];
    }

    method Skip(n: nat)
      requires n <= |b|
      modifies this
      ensures b == old(b)[n..]
    {
      b := b[n..];
    }
  }

  datatype Outcome = Full | Partial | AtEnd

  /** The rest of an input. */
  class Source {
    var rest: Str

    constructor (rest: Str)
      ensures this.rest == rest
    {
      this.rest := rest;
    }

    /** The next n bytes; what is left of the input is consumed if there are fewer. */
    method ReadFull(n: nat) returns (s: Str, o: Outcome)
      modifies this
      ensures s == old(rest)[..Least(n, |old(rest)|)] && rest == old(rest)[|s|..]
      ensures o == if |s| == n then Full else if |s| == 0 then AtEnd else Partial
    {
      s := rest[..Least(n, |rest|)];
      rest := rest[|s|..];
      o := if |s| == n then Full else if |s| == 0 then AtEnd else Partial;
    }
  }

  // ---------- The file ----------

  /** All of the content can be read. */
  ghost predicate Whole(r: MultiReaderAt.MultiRA)
  {
    && r.Valid() && |r.Content()| < TWO_63
    && forall i :: 0 <= i < |r.parts| && r.Refuses(i) ==> r.parts[i].off == 0 || r.parts[i].off == r.size
  }

  /** The end of a file behind zeros. */
  method PaddedReader(size: nat, toc: Str) returns (r: MultiReaderAt.MultiRA)
    requires |toc| <= size < TWO_63
    ensures Whole(r) && r.Content() == ZipSuffix.Padded(size, toc)
  {
    var n := size - |toc|;
    var parts := [MultiReaderAt.ZeroSizeReaderAt(n), MultiReaderAt.BytesReader(toc)];
    MultiReaderAt.ZerosServe(n);
    MultiReaderAt.BytesServe(toc);
    ghost var contents := [Zeros(n), toc];
    TwoParts(contents);
    r := new MultiReaderAt.MultiRA(parts, contents);
    forall i | 0 <= i < |r.parts| && r.Refuses(i) ensures r.parts[i].off == r.size {
      RefusesAtEnd(r, n, toc, i);
    }
  }

  lemma TwoParts(contents: seq<Str>)
    requires |contents| == 2
    ensures MultiReaderAt.Concat(contents) == contents[0] + contents[1]
    ensures MultiReaderAt.Concat(contents[1..]) == contents[1]
  {
    assert contents[1..][1..] == [] && contents[1..][0] == contents[1];
    assert contents[1] + [] == contents[1];
    assert MultiReaderAt.Concat(contents[1..]) == contents[1] + MultiReaderAt.Concat([]);
  }

  /** Only an empty reader of bytes refuses, and it is the last part. */
  lemma RefusesAtEnd(r: MultiReaderAt.MultiRA, n: nat, toc: Str, i: nat)
    requires r.Valid() && r.contents == [Zeros(n), toc] && i < |r.parts| && r.Refuses(i)
    requires r.parts[0].part == MultiReaderAt.ZeroSizeReaderAt(n)
    ensures r.parts[i].off == r.size
  {
    assert i == 1;
    r.Sizes(1);
    TwoParts(r.contents);
  }

  method ReadBytes(r: MultiReaderAt.MultiRA, off: nat, n: nat) returns (s: Option<Str>)
    requires Whole(r)
    ensures s == if n == 0 then Some([]) else if off + n <= |r.Content()| then Some(r.Content()[off..off + n]) else None
  {
    var p := new Byte[n];
    r.NoLimit(off, 0);
    var got, err := r.ReadAt(p, off);
    assert p[..] == p[..n];
    s := if err then None else Some(p[..]);
  }

  // ---------- The end record ----------

  /** Searches backward. */
  method FindSignatureInBlock(b: Str) returns (p: int)
    ensures p == FindSignature(b)
  {
    var i := |b| - DIRECTORY_END_LEN;
    while i >= 0
      invariant i + DIRECTORY_END_LEN <= |b| && FindFrom(b, i) == FindSignature(b)
    {
      if b[i] == 0x50 && b[i + 1] == 0x4b && b[i + 2] == 0x05 && b[i + 3] == 0x06 {
        var n := b[i + DIRECTORY_END_LEN - 2] as int + b[i + DIRECTORY_END_LEN - 1] as int * 256;
        assert n == LE16(b[i + 20..]);
        if n + DIRECTORY_END_LEN + i > |b| { return -1; }
        return i;
      }
      i := i - 1;
    }
    p := -1;
  }

  class DirectoryEnd {
    var diskNbr: nat
    var dirDiskNbr: nat
    var dirRecordsThisDisk: nat
    var directoryRecords: nat
    var directorySize: nat
    var directoryOffset: nat
    var comment: Str

    constructor ()
    {
      diskNbr, dirDiskNbr, dirRecordsThisDisk, directoryRecords, directorySize, directoryOffset := 0, 0, 0, 0, 0, 0;
      comment := [];
    }

    function Value(): End
      reads this
    {
      End(diskNbr, dirDiskNbr, dirRecordsThisDisk, directoryRecords, directorySize, directoryOffset, comment)
    }

    /** Reads the short record, which begins with its signature. */
    method ReadShort(buf: Str) returns (ok: bool)
      requires |buf| >= DIRECTORY_END_LEN
      modifies this
      ensures ok <==> EndFits(buf, 0)
      ensures ok ==> Value() == EndAt(buf, 0)
    {
      hide LE16, LE32;
      var number, dirNumber, thisDisk, records, size, offset, l := ReadShortFields(buf);
      diskNbr, dirDiskNbr, dirRecordsThisDisk := number, dirNumber, thisDisk;
      directoryRecords, directorySize, directoryOffset := records, size, offset;
      if l > |buf| - DIRECTORY_END_LEN { return false; }
      assert buf[22..][..l] == buf[22..22 + l];
      comment := buf[DIRECTORY_END_LEN..][..l];
      ok := true;
    }

    /** Overwrites what the short record said, if the long record is at offset p. */
    method ReadDirectory64End(r: MultiReaderAt.MultiRA, p: nat) returns (ok: bool)
      requires Whole(r)
      modifies this
      ensures ok <==> End64At(r.Content(), p, old(Value())).Some?
      ensures ok ==> End64At(r.Content(), p, old(Value())) == Some(Value())
    {
      hide LE32, LE64, End64At, Whole;
      var s := ReadBytes(r, p, DIRECTORY_64_END_LEN);
      if s.None? {
        Record64Missing(r.Content(), p, Value());
        return false;
      }
      Record64(r.Content(), p, s.value, Value());
      ok := Overwrite(s.value);
    }

    method Overwrite(buf: Str) returns (ok: bool)
      requires |buf| == DIRECTORY_64_END_LEN
      modifies this
      ensures ok <==> LE32(buf) == DIRECTORY_64_END_SIGNATURE
      ensures ok ==> Value() == Long(buf, old(comment))
    {
      hide LE32, LE64;
      if LE32(buf) != DIRECTORY_64_END_SIGNATURE { return false; }
      var number, dirNumber, thisDisk, records, size, offset := ReadLongFields(buf);
      diskNbr, dirDiskNbr, dirRecordsThisDisk := number, dirNumber, thisDisk;
      directoryRecords, directorySize, directoryOffset := records, size, offset;
      ok := true;
    }
  }

  /** The six numbers of a short record, and the length of its comment. */
  method ReadShortFields(buf: Str)
    returns (number: nat, dirNumber: nat, thisDisk: nat, records: nat, size: nat, offset: nat, l: nat)
    requires |buf| >= DIRECTORY_END_LEN
    ensures number == LE16(buf[4..]) && dirNumber == LE16(buf[6..]) && thisDisk == LE16(buf[8..])
    ensures records == LE16(buf[10..]) && size == LE32(buf[12..]) && offset == LE32(buf[16..]) && l == LE16(buf[20..])
  {
    hide LE16, LE32;
    var b := new ReadBuf(buf[4..]);
    number := b.Uint16();
    assert b.b == buf[6..];
    dirNumber := b.Uint16();
    assert b.b == buf[8..];
    thisDisk := b.Uint16();
    assert b.b == buf[10..];
    records := b.Uint16();
    assert b.b == buf[12..];
    size := b.Uint32();
    assert b.b == buf[16..];
    offset := b.Uint32();
    assert b.b == buf[20..];
    l := b.Uint16();
  }

  /** The six numbers of a long record. */
  method ReadLongFields(buf: Str)
    returns (number: nat, dirNumber: nat, thisDisk: nat, records: nat, size: nat, offset: nat)
    requires |buf| == DIRECTORY_64_END_LEN
    ensures number == LE32(buf[16..]) && dirNumber == LE32(buf[20..]) && thisDisk == LE64(buf[24..])
    ensures records == LE64(buf[32..]) && size == LE64(buf[40..]) && offset == LE64(buf[48..])
  {
    hide LE32, LE64;
    var b := new ReadBuf(buf);
    b.Skip(4); // the signature
    b.Skip(12);
    assert b.b == buf[16..];
    number := b.Uint32();
    assert b.b == buf[20..];
    dirNumber := b.Uint32();
    assert b.b == buf[24..];
    thisDisk := b.Uint64();
    assert b.b == buf[32..];
    records := b.Uint64();
    assert b.b == buf[40..];
    size := b.Uint64();
    assert b.b == buf[48..];
    offset := b.Uint64();
  }

  /** What a long record says. */
  function Long(buf: Str, comment: Str): End
    requires |buf| >= DIRECTORY_64_END_LEN
  {
    End(LE32(buf[16..]), LE32(buf[20..]), LE64(buf[24..]), LE64(buf[32..]), LE64(buf[40..]), LE64(buf[48..]), comment)
  }

  lemma Record64Missing(f: Str, p: nat, d: End)
    requires p + DIRECTORY_64_END_LEN > |f|
    ensures End64At(f, p, d).None?
  {
  }

  lemma Prefixes(s: Str, t: Str)
    requires s <= t
    ensures |s| >= 2 ==> LE16(s) == LE16(t)
    ensures |s| >= 4 ==> LE32(s) == LE32(t)
    ensures |s| >= 8 ==> LE64(s) == LE64(t)
  {
  }

  /** The fixed part of the long record says everything. */
  lemma Record64(f: Str, p: nat, buf: Str, d: End)
    requires p + DIRECTORY_64_END_LEN <= |f| && buf == f[p..p + DIRECTORY_64_END_LEN]
    ensures End64At(f, p, d) ==
      if LE32(buf) != DIRECTORY_64_END_SIGNATURE then None
      else Some(Long(buf, d.comment))
  {
    hide LE16, LE32, LE64;
    var b := f[p..];
    Prefixes(buf, b);
    Prefixes(buf[16..], b[16..]);
    Prefixes(buf[20..], b[20..]);
    Prefixes(buf[24..], b[24..]);
    Prefixes(buf[32..], b[32..]);
    Prefixes(buf[40..], b[40..]);
    Prefixes(buf[48..], b[48..]);
  }

  /** Where the long record is, or a negative number. */
  method FindDirectory64End(r: MultiReaderAt.MultiRA, at: nat) returns (p: int)
    requires Whole(r) && at <= |r.Content()|
    ensures p == Locate64(r.Content(), at)
  {
    hide LE16, LE32, LE64, Signed64;
    if at < DIRECTORY_64_LOC_LEN { return -1; }
    var locOffset := at - DIRECTORY_64_LOC_LEN;
    var s := ReadBytes(r, locOffset, DIRECTORY_64_LOC_LEN);
    var buf, f := s.value, r.Content()[locOffset..];
    Prefixes(buf, f);
    Prefixes(buf[4..], f[4..]);
    Prefixes(buf[8..], f[8..]);
    Prefixes(buf[16..], f[16..]);
    var b := new ReadBuf(buf);
    var sig := b.Uint32();
    if sig != DIRECTORY_64_LOC_SIGNATURE { return -1; }
    var disk := b.Uint32();
    assert b.b == buf[8..];
    if disk != 0 { return -1; }
    var q := b.Uint64();
    assert b.b == buf[16..];
    var disks := b.Uint32();
    if disks != 1 { return -1; }
    p := Signed64(q);
  }

  // ---------- Headers ----------

  /** Walks through the extra fields.  Those with timestamps have no effect here. */
  method ParseExtras(x: Str, w: Wide) returns (r: Option<Wide>)
    ensures r == Extras(x, w)
  {
    hide LE16, Zip64Field;
    var extra := new ReadBuf(x);
    var v := w;
    while |extra.b| >= 4
      invariant fresh(extra) && Extras(x, w) == Extras(extra.b, v)
      decreases |extra.b|
    {
      ghost var b := extra.b;
      ExtrasStep(b, v);
      var tag := extra.Uint16();
      var size := extra.Uint16();
      assert extra.b == b[4..];
      if |extra.b| < size { break; }
      var field := extra.Sub(size);
      if tag == 1 {
        var f := UpdateWide(field, v);
        if f.None? { return None; }
        v := f.value;
      }
    }
    ExtrasStep(extra.b, v);
    r := Some(v);
  }

  lemma ExtrasStep(x: Str, w: Wide)
    ensures Extras(x, w) ==
      if |x| < 4 || |x[4..]| < LE16(x[2..]) then Some(w)
      else if LE16(x) != 1 then Extras(x[4..][LE16(x[2..])..], w)
      else match Zip64Field(x[4..][..LE16(x[2..])], w)
        case None => None
        case Some(w) => Extras(x[4..][LE16(x[2..])..], w)
  {
  }

  /** Only values that are at their limit are replaced, in a fixed order. */
  method UpdateWide(field: Str, w: Wide) returns (r: Option<Wide>)
    ensures r == Zip64Field(field, w)
  {
    hide LE64, Signed64;
    var b := new ReadBuf(field);
    var v := w;
    if v.needUncompressed {
      if |b.b| < 8 { return None; }
      var x := b.Uint64();
      v := v.(needUncompressed := false, uncompressed := x);
    }
    if v.needCompressed {
      if |b.b| < 8 { return None; }
      var x := b.Uint64();
      v := v.(needCompressed := false, compressed := x);
    }
    if v.needOffset {
      if |b.b| < 8 { return None; }
      var x := b.Uint64();
      v := v.(needOffset := false, offset := Signed64(x));
    }
    r := Some(v);
  }

  method ReadFixed(buf: Str) returns (h: FileHeader, n: nat, x: nat, c: nat)
    requires |buf| == DIRECTORY_HEADER_LEN
    ensures h == Fixed(buf) && n == LE16(buf[28..]) && x == LE16(buf[30..]) && c == LE16(buf[32..])
  {
    hide LE16, LE32;
    var b := new ReadBuf(buf[4..]);
    var creatorVersion := b.Uint16();
    assert b.b == buf[6..];
    var readerVersion := b.Uint16();
    assert b.b == buf[8..];
    var flags := b.Uint16();
    assert b.b == buf[10..];
    var compression := b.Uint16();
    assert b.b == buf[12..];
    var modifiedTime := b.Uint16();
    assert b.b == buf[14..];
    var modifiedDate := b.Uint16();
    assert b.b == buf[16..];
    var crc32 := b.Uint32();
    assert b.b == buf[20..];
    var compressedSize := b.Uint32();
    assert b.b == buf[24..];
    var uncompressedSize := b.Uint32();
    assert b.b == buf[28..];
    n := b.Uint16();
    assert b.b == buf[30..];
    x := b.Uint16();
    assert b.b == buf[32..];
    c := b.Uint16();
    b.Skip(4);
    assert b.b == buf[38..];
    var externalAttrs := b.Uint32();
    assert b.b == buf[42..];
    var headerOffset := b.Uint32();
    h := FileHeader(creatorVersion, readerVersion, flags, compression, modifiedTime, modifiedDate, crc32,
                    compressedSize, uncompressedSize, externalAttrs, compressedSize, uncompressedSize, headerOffset, [], [], []);
  }

  method ReadDirectoryHeader(rd: Source) returns (r: HeaderRead)
    modifies rd
    ensures r == ReadHeader(old(rd.rest))
    ensures r.Header? ==> r.rest == rd.rest
  {
    hide LE16, LE32, Extras, Fixed;
    ghost var s := rd.rest;
    var buf, o := rd.ReadFull(DIRECTORY_HEADER_LEN);
    if o == AtEnd { return NoMore; }
    if o == Partial { return UnexpectedEnd; }
    FixedPrefix(s, buf);
    if LE32(buf) != DIRECTORY_HEADER_SIGNATURE { return BadFormat; }
    var h, n, x, c := ReadFixed(buf);
    var d, o' := rd.ReadFull(n + x + c);
    if o' == AtEnd { return NoMore; }
    if o' == Partial { return UnexpectedEnd; }
    ThreeParts(s[DIRECTORY_HEADER_LEN..], d, n, x, c);
    h := h.(name := d[..n], extra := d[n..n + x], comment := d[n + x..]);
    var w := Wide(h.uncompressedSize, h.compressedSize, h.headerOffset,
                  h.uncompressedSize == 0xffff_ffff, h.compressedSize == 0xffff_ffff, h.headerOffset == 0xffff_ffff);
    var v := ParseExtras(h.extra, w);
    if v.None? || v.value.needCompressed || v.value.needOffset { return BadFormat; }
    h := h.(uncompressedSize64 := v.value.uncompressed, compressedSize64 := v.value.compressed, headerOffset := v.value.offset);
    r := Header(h, rd.rest);
  }

  lemma ThreeParts(all: Str, d: Str, n: nat, x: nat, c: nat)
    requires |all| >= n + x + c && d == all[..n + x + c]
    ensures d[..n] == all[..n] && d[n..n + x] == all[n..n + x] && d[n + x..] == all[n + x..n + x + c]
  {
  }

  lemma FixedPrefix(s: Str, buf: Str)
    requires |s| >= DIRECTORY_HEADER_LEN && buf == s[..DIRECTORY_HEADER_LEN]
    ensures LE32(buf) == LE32(s) && Fixed(buf) == Fixed(s)
    ensures LE16(buf[28..]) == LE16(s[28..]) && LE16(buf[30..]) == LE16(s[30..]) && LE16(buf[32..]) == LE16(s[32..])
  {
    hide LE16, LE32;
    Prefixes(buf, s);
    forall i | 0 <= i <= 42 ensures LE16(buf[i..]) == LE16(s[i..]) && LE32(buf[i..]) == LE32(s[i..]) {
      Prefixes(buf[i..], s[i..]);
    }
  }

  // ---------- The table of contents ----------

  /** The record in the last n bytes, and its bytes up to the end of the file. */
  method SearchLast(r: MultiReaderAt.MultiRA, n: nat) returns (at: Option<nat>, buf: Str)
    requires Whole(r) && n <= |r.Content()|
    ensures at == FindInLast(r.Content(), n)
    ensures at.Some? ==> buf == r.Content()[at.value..]
  {
    hide FindFrom;
    ghost var f := r.Content();
    var s := ReadBytes(r, r.size - n, n);
    buf := s.value;
    assert buf == f[|f| - n..];
    var p := FindSignatureInBlock(buf);
    if p < 0 { return None, []; }
    assert buf[p..] == f[|f| - n + p..];
    buf := buf[p..];
    at := Some(r.size - n + p);
  }

  /** The record that says where the directory is, and the offset of the archive in the file. */
  method ReadDirectoryEnd(r: MultiReaderAt.MultiRA) returns (d: DirectoryEnd, base: int, ok: bool)
    requires Whole(r)
    ensures ok <==> FindDirectory(r.Content()).Some?
    ensures ok ==> Directory(d.Value(), base) == FindDirectory(r.Content()).value
  {
    hide Short, Final, Whole, FindDirectory;
    ghost var f := r.Content();
    base := 0;
    var end;
    d, end, ok := ReadShortEnd(r);
    DirectoryIs(f);
    if !ok { return; }
    end, ok := ReadLongEnd(r, d, end);
    if !ok { return; }
    base, ok := FindBase(r, d, end);
  }

  lemma DirectoryIs(f: Str)
    ensures Short(f).None? ==> FindDirectory(f).None?
    ensures Short(f).Some? ==>
      match Final(f, Short(f).value)
      case None => FindDirectory(f).None?
      case Some(u) => FindDirectory(f) == DirectoryOf(f, u)
  {
    hide Short, Final, InFile, StartsAtZero;
  }

  function DirectoryOf(f: Str, u: Located): Option<Directory>
  {
    if !InFile(f, u) then None else Some(Directory(u.end, if StartsAtZero(f, u) then 0 else BaseOffset(u)))
  }

  /** Looks at the last 1 KiB, then at the last 65 KiB. */
  method ReadShortEnd(r: MultiReaderAt.MultiRA) returns (d: DirectoryEnd, end: nat, ok: bool)
    requires Whole(r)
    ensures fresh(d) && ok == Short(r.Content()).Some?
    ensures ok ==> Short(r.Content()) == Some(Located(end, d.Value())) && end <= |r.Content()|
  {
    hide FindInLast, EndAt, Whole;
    d := new DirectoryEnd();
    end, ok := 0, false;
    var size := r.size;
    WholeSize(r);
    var at, buf := SearchLast(r, Least(1024, size));
    if at.None? {
      if size <= 1024 { return; }
      at, buf := SearchLast(r, Least(65 * 1024, size));
      if at.None? { return; }
    }
    ok := d.ReadShort(buf);
    EndOfTail(r.Content(), at.value, buf);
    end := at.value;
  }

  /** The long record takes the place of the short one if there is one. */
  method ReadLongEnd(r: MultiReaderAt.MultiRA, d: DirectoryEnd, short: nat) returns (end: nat, ok: bool)
    requires Whole(r) && short <= |r.Content()|
    modifies d
    ensures ok == Final(r.Content(), Located(short, old(d.Value()))).Some?
    ensures ok ==> Final(r.Content(), Located(short, old(d.Value()))) == Some(Located(end, d.Value()))
  {
    hide Locate64, End64At, Whole;
    end, ok := short, true;
    if d.directoryRecords == 0xffff || d.directorySize == 0xffff || d.directoryOffset == 0xffff_ffff {
      var p := FindDirectory64End(r, end);
      if p >= 0 {
        end := p;
        ok := d.ReadDirectory64End(r, p);
      }
    }
  }

  /** The offset of the archive in the file, if the directory begins in the file. */
  method FindBase(r: MultiReaderAt.MultiRA, d: DirectoryEnd, end: nat) returns (base: int, ok: bool)
    requires Whole(r)
    ensures ok == DirectoryOf(r.Content(), Located(end, d.Value())).Some?
    ensures ok ==> DirectoryOf(r.Content(), Located(end, d.Value())) == Some(Directory(d.Value(), base))
  {
    hide ReadHeader, Whole, Signed64, From;
    base, ok := 0, false;
    WholeSize(r);
    if d.directorySize >= TWO_63 || d.directoryOffset >= TWO_63 { return; }
    base := Signed64(Signed64(end - d.directorySize) - d.directoryOffset);
    var o := Signed64(base + d.directoryOffset);
    if o < 0 || o >= r.size { return; }
    ok := true;
    if base > 0 {
      var rest := ReadFrom(r, d.directoryOffset);
      var rd := new Source(rest);
      var h := ReadDirectoryHeader(rd);
      if h.Header? {
        base := 0;
      }
    }
  }

  lemma WholeSize(r: MultiReaderAt.MultiRA)
    requires Whole(r)
    ensures r.size == |r.Content()| < TWO_63
  {
  }

  lemma EndOfTail(f: Str, at: nat, buf: Str)
    requires EndFits(f, at) && buf == f[at..]
    ensures EndFits(buf, 0) && EndAt(buf, 0) == EndAt(f, at)
  {
    hide LE16, LE32;
    assert forall i :: 0 <= i <= 22 ==> buf[i..] == f[at + i..];
    assert buf[22..22 + LE16(buf[20..])] == f[at + 22..at + 22 + LE16(f[at + 20..])];
  }

  /** What follows off. */
  method ReadFrom(r: MultiReaderAt.MultiRA, off: nat) returns (s: Str)
    requires Whole(r)
    ensures s == From(r.Content(), off)
  {
    if off > r.size { return []; }
    var t := ReadBytes(r, off, r.size - off);
    s := t.value;
  }

  /** How much of the end of the file is needed, as far as a footer shows. */
  method ZipTOCSize(size: nat, footer: Str) returns (t: Option<nat>)
    requires size < TWO_63
    ensures |footer| > size ==> t == None
    ensures |footer| <= size ==> t == TocSize(ZipSuffix.Padded(size, footer))
  {
    hide FindDirectory, Signed64;
    if size < |footer| { return None; }
    var r := PaddedReader(size, footer);
    var end, base, ok := ReadDirectoryEnd(r);
    if !ok { return None; }
    var start := Signed64(base + end.directoryOffset);
    var tocSize := Signed64(size - start);
    if tocSize < 0 || tocSize > size { return None; }
    t := Some(tocSize);
  }

  method ParseTOC(size: nat, toc: Str) returns (t: Option<Toc>)
    requires size < TWO_63
    ensures |toc| > size ==> t == None
    ensures |toc| <= size ==> t == ParseToc(ZipSuffix.Padded(size, toc))
  {
    hide FindDirectory, Signed64, Headers, Start;
    if size < |toc| { return None; }
    var r := PaddedReader(size, toc);
    ghost var f := r.Content();
    var end, base, ok := ReadDirectoryEnd(r);
    if !ok { return None; }
    var d := Directory(end.Value(), base);
    assert Start(d) == Signed64(base + end.directoryOffset) by { StartDef(d); }
    var start := Signed64(base + end.directoryOffset);
    if start < 0 { return None; }
    var rest := ReadFrom(r, start);
    var files := ReadHeaders(rest, base);
    if files.None? { return None; }
    if |files.value| % 0x1_0000 != end.directoryRecords % 0x1_0000 { return None; }
    t := Some(Toc(files.value, base, end.comment));
  }

  lemma StartDef(d: Directory)
    ensures Start(d) == Signed64(d.base + d.end.offset)
  {
  }

  /** Headers up to something else. */
  method ReadHeaders(s: Str, base: int) returns (files: Option<seq<FileHeader>>)
    ensures files == Headers(s, base)
  {
    hide ReadHeader, Headers, Signed64;
    var rd := new Source(s);
    var got := [];
    PrependNothing(Headers(s, base));
    while true
      invariant fresh(rd) && Headers(s, base) == Prepend(got, Headers(rd.rest, base))
      decreases |rd.rest|
    {
      HeadersStep(got, rd.rest, base);
      var h := ReadDirectoryHeader(rd);
      if h.BadFormat? || h.UnexpectedEnd? { return Some(got); }
      if h.NoMore? { return None; }
      got := got + [Placed(h.h, base)];
    }
  }

  lemma HeadersStep(a: seq<FileHeader>, s: Str, base: int)
    ensures var r := ReadHeader(s);
      Prepend(a, Headers(s, base)) ==
        if r.Header? then Prepend(a + [Placed(r.h, base)], Headers(r.rest, base))
        else if r.NoMore? then None
        else Some(a)
  {
    hide ReadHeader, Placed;
    assert a + [] == a;
    var r := ReadHeader(s);
    if r.Header? && Headers(r.rest, base).Some? {
      var t := Headers(r.rest, base).value;
      assert a + ([Placed(r.h, base)] + t) == a + [Placed(r.h, base)] + t;
    }
  }
}
