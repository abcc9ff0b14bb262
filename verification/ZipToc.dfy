/**
 The table of contents of archives that were written, and of archives behind a prefix.
 */
module ZipToc {
  import opened Wrappers
  import opened Bytes
  import opened ZipSpec
  import opened ZipSuffix
  import opened ZipWritten
  import opened ZipArchive

  // ---------- All headers ----------

  ghost function HeadersWritten(es: seq<Entry>, t: Str): Str
  {
    if es == [] then t else HeaderWritten(es[0], HeadersWritten(es[1..], t))
  }

  /** What follows the headers does not begin like one. */
  ghost predicate NotAHeader(t: Str)
  {
    t != [] && (|t| < 46 || t[..4] != Ascii("PK") + [1, 2])
  }

  ghost predicate AllRight(es: seq<Entry>)
  {
    forall i :: 0 <= i < |es| ==> Right(es[i])
  }

  ghost function FilesOf(es: seq<Entry>, base: int): (files: seq<FileHeader>)
    ensures |files| == |es|
    ensures forall i :: 0 <= i < |es| ==> files[i] == es[i].h.(headerOffset := Signed64(es[i].h.headerOffset + base))
  {
    seq(|es|, i requires 0 <= i < |es| => es[i].h.(headerOffset := Signed64(es[i].h.headerOffset + base)))
  }

  /** All headers read back in order; the input must not end behind the last one. */
  lemma {:induction false} HeadersRead(es: seq<Entry>, t: Str, base: int)
    requires AllRight(es)
    ensures NotAHeader(t) ==> Headers(HeadersWritten(es, t), base) == Some(FilesOf(es, base))
    ensures t == [] ==> Headers(HeadersWritten(es, t), base) == None
  {
    hide *;
    HeadersStep(es, t);
    if es == [] {
      AfterHeaders(t, base);
    } else {
      HeadersRead(es[1..], t, base);
      ReadWritten(es[0], HeadersWritten(es[1..], t));
      FirstHeader(es[0].h, HeadersWritten(es, t), HeadersWritten(es[1..], t), base);
      FilesStep(es, base);
    }
  }

  lemma HeadersStep(es: seq<Entry>, t: Str)
    requires AllRight(es)
    ensures es == [] ==> HeadersWritten(es, t) == t
    ensures es != [] ==> AllRight(es[1..]) && Right(es[0])
    ensures es != [] ==> HeadersWritten(es, t) == HeaderWritten(es[0], HeadersWritten(es[1..], t))
  {
    hide HeaderWritten, Right;
  }

  lemma FilesStep(es: seq<Entry>, base: int)
    requires es != []
    ensures FilesOf(es, base) == [Placed(es[0].h, base)] + FilesOf(es[1..], base)
  {
    hide Signed64;
  }

  lemma FirstHeader(h: FileHeader, s: Str, rest: Str, base: int)
    requires ReadHeader(s) == Header(h, rest)
    ensures Headers(s, base) ==
      match Headers(rest, base)
      case None => None
      case Some(r) => Some([Placed(h, base)] + r)
  {
    hide ReadHeader, Placed;
  }

  lemma AfterHeaders(t: Str, base: int)
    ensures NotAHeader(t) ==> Headers(t, base) == Some([]) == Some(FilesOf([], base))
    ensures t == [] ==> Headers(t, base) == None
  {
    if NotAHeader(t) { NoHeader(t); }
    if t == [] { EmptyHeader(); }
    hide ReadHeader, Placed, NotAHeader;
  }

  lemma EmptyHeader()
    ensures ReadHeader([]) == NoMore
  {
  }

  // ---------- The table of contents ----------

  /** These files, if the record counts as many modulo 2^16. */
  ghost function Listed(es: seq<Entry>, base: int, end: End): Option<Toc>
  {
    if |es| % 0x1_0000 == end.records % 0x1_0000 then Some(Toc(FilesOf(es, base), base, end.comment)) else None
  }

  /** The directory begins as many bytes before the record as its size says.  Offsets are shifted by
      the distance between where it is and where the record says that it is. */
  lemma TocIs(f: Str, r: Located, start: nat, es: seq<Entry>, t: Str)
    requires |f| < TWO_63 && Record(f) == Some(r) && r.end.offset < TWO_63 && start + r.end.size == r.at && start < |f|
    requires f[start..] == HeadersWritten(es, t) && AllRight(es) && NotAHeader(t)
    requires start > r.end.offset ==> !ReadHeader(f[r.end.offset..]).Header?
    ensures ParseToc(f) == Listed(es, start - r.end.offset, r.end)
    ensures TocSize(f) == Some(|f| - start)
  {
    hide ReadHeader, Record, FilesOf, HeadersWritten, AllRight, NotAHeader, FindDirectory, Start, ParseToc, TocSize;
    Begins(f, r);
    HeadersRead(es, t, start - r.end.offset);
    TocOf(f, Directory(r.end, start - r.end.offset), start);
  }

  lemma Begins(f: Str, r: Located)
    requires |f| < TWO_63 && Record(f) == Some(r) && r.end.offset < TWO_63
    requires r.end.size <= r.at && r.at - r.end.size < |f|
    ensures var base := r.at - r.end.size - r.end.offset;
      && FindDirectory(f) == Some(Directory(r.end, if base > 0 && ReadHeader(f[r.end.offset..]).Header? then 0 else base))
      && Start(Directory(r.end, base)) == base + r.end.offset
  {
    hide ReadHeader, Record, Signed64, BaseOffset, InFile;
    RecordIsSmall(f);
    NothingWraps(f, r);
    SignedOfSmall(r.at - r.end.size);
  }

  /** What is read of a directory that begins at start. */
  lemma TocOf(f: Str, d: Directory, start: nat)
    requires FindDirectory(f) == Some(d) && Start(d) == start < |f| < TWO_63
    ensures TocSize(f) == Some(|f| - start)
    ensures ParseToc(f) ==
      match Headers(f[start..], d.base)
      case None => None
      case Some(files) =>
        if |files| % 0x1_0000 != d.end.records % 0x1_0000 then None else Some(Toc(files, d.base, d.end.comment))
  {
    hide FindDirectory, Start, Headers, Signed64;
    SignedOfSmall(|f| - start);
  }

  /** With a header at the offset itself the archive is taken to begin with the file. */
  lemma TocOverridden(f: Str, r: Located, es: seq<Entry>, t: Str)
    requires |f| < TWO_63 && Record(f) == Some(r)
    requires r.end.offset < r.at - r.end.size < |f|
    requires f[r.end.offset..] == HeadersWritten(es, t) && AllRight(es) && NotAHeader(t) && es != []
    ensures ParseToc(f) == Listed(es, 0, r.end)
    ensures TocSize(f) == Some(|f| - r.end.offset)
  {
    hide ReadHeader, Record, FilesOf, HeadersWritten, AllRight, NotAHeader, FindDirectory, Headers, ParseToc, TocSize, Signed64;
    var start := r.end.offset;
    Begins(f, r);
    HeadersStep(es, t);
    ReadWritten(es[0], HeadersWritten(es[1..], t));
    HeadersRead(es, t, 0);
    SignedOfSmall(start);
    TocOf(f, Directory(r.end, 0), start);
  }

  /** A directory that would begin before the file, or behind its end, is not read. */
  lemma NoDirectory(f: Str, r: Located)
    requires |f| < TWO_63 && Record(f) == Some(r)
    requires r.end.size >= TWO_63 || r.end.offset >= TWO_63 || r.at < r.end.size || r.at - r.end.size >= |f|
    ensures ParseToc(f) == None && TocSize(f) == None
  {
    hide ReadHeader, Record, Signed64, BaseOffset, InFile;
    RecordIsSmall(f);
    NothingWraps(f, r);
  }

  // ---------- Whole archives ----------

  /** Headers and an end record behind anything, read back as they were written. */
  lemma ArchiveRead(f: Str, start: nat, at: nat, es: seq<Entry>, d: End)
    requires start <= at <= |f| < TWO_63
    requires f[start..] == HeadersWritten(es, f[at..]) && AllRight(es)
    requires f[at..] == EndWritten(d, []) && EndFields(d) && d.size == at - start
    requires d.records < 0xffff && d.size != 0xffff && d.offset < 0xffff_ffff
    requires forall j :: at < j <= |f| - 22 ==> !EndSignature(f, j)
    requires start > d.offset ==> !ReadHeader(f[d.offset..]).Header?
    ensures ParseToc(f) == Listed(es, start - d.offset, d)
    ensures TocSize(f) == Some(|f| - start)
  {
    hide *;
    ShortCounts(f, at, d);
    TocIs(f, Located(at, d), start, es, f[at..]);
  }

  lemma ShortCounts(f: Str, at: nat, d: End)
    requires at <= |f| && f[at..] == EndWritten(d, []) && EndFields(d)
    requires d.records < 0xffff && d.size != 0xffff && d.offset < 0xffff_ffff
    requires forall j :: at < j <= |f| - 22 ==> !EndSignature(f, j)
    ensures Record(f) == Some(Located(at, d)) && NotAHeader(f[at..]) && at < |f| && d.offset < TWO_63
  {
    hide EndWritten, AtLimit, FindEnd, EndFits, EndAt, Record, EndFields, NotAHeader, Ascii;
    EndFound(f, at, d);
    EndRead(f, at, d, []);
    LimitIs(f, at);
    OnlyShort(f, at, d, []);
    OtherSignature(f, at, 5, 6);
  }

  /** The end record at the end of the file is found. */
  lemma EndFound(f: Str, at: nat, d: End)
    requires at <= |f| && f[at..] == EndWritten(d, []) && EndFields(d)
    requires forall j :: at < j <= |f| - 22 ==> !EndSignature(f, j)
    ensures FindEnd(f) == Some(at)
  {
    hide EndWritten, EndSignature, FindEnd, LE16;
    EndRead(f, at, d, []);
    EndLength(d);
    FitsIs(f, at);
    FindEndIs(f, at);
  }

  lemma EndLength(d: End)
    ensures |EndWritten(d, [])| == 22 + |d.comment|
  {
    hide Bytes2, Bytes4, Ascii;
  }

  lemma OtherSignature(f: Str, i: nat, x: Byte, y: Byte)
    requires i + 4 <= |f| && f[i..i + 4] == Ascii("PK") + [x, y] && (x != 1 || y != 2)
    ensures NotAHeader(f[i..])
  {
    hide Ascii;
    assert f[i..][..4] == f[i..i + 4];
    var a, b := Ascii("PK") + [x, y], Ascii("PK") + [1, 2];
    assert a[2] == x && a[3] == y && b[2] == 1 && b[3] == 2;
  }

  /** The same with a long record and its locator, behind each other or not. */
  lemma Archive64Read(f: Str, start: nat, p: nat, at: nat, es: seq<Entry>, d: End, e: End, own: nat, made: nat, needed: nat, u: Str)
    requires start <= p <= |f| < TWO_63 && 20 <= at <= |f|
    requires f[start..] == HeadersWritten(es, f[p..]) && AllRight(es)
    requires f[p..] == LongWritten(e, own, made, needed, u) && LongFields(e) && e.size == p - start && e.offset < TWO_63
    requires f[at - 20..at] == Locator(p)
    requires f[at..] == EndWritten(d, []) && EndFields(d)
    requires d.records == 0xffff || d.size == 0xffff || d.offset == 0xffff_ffff
    requires forall j :: at < j <= |f| - 22 ==> !EndSignature(f, j)
    requires e.offset < start ==> !ReadHeader(f[e.offset..]).Header?
    ensures ParseToc(f) == Listed(es, start - e.offset, e.(comment := d.comment))
    ensures TocSize(f) == Some(|f| - start)
  {
    hide *;
    LongCounts(f, p, at, d, e, own, made, needed, u);
    TocIs(f, Located(p, e.(comment := d.comment)), start, es, f[p..]);
  }

  lemma LongCounts(f: Str, p: nat, at: nat, d: End, e: End, own: nat, made: nat, needed: nat, u: Str)
    requires p <= |f| < TWO_63 && 20 <= at <= |f|
    requires f[p..] == LongWritten(e, own, made, needed, u) && LongFields(e) && f[at - 20..at] == Locator(p)
    requires f[at..] == EndWritten(d, []) && EndFields(d)
    requires d.records == 0xffff || d.size == 0xffff || d.offset == 0xffff_ffff
    requires forall j :: at < j <= |f| - 22 ==> !EndSignature(f, j)
    ensures Record(f) == Some(Located(p, e.(comment := d.comment))) && NotAHeader(f[p..]) && p < |f|
  {
    hide EndWritten, AtLimit, FindEnd, EndFits, EndAt, LongWritten, Locator, EndFields, LongFields, Record, NotAHeader, Ascii;
    EndFound(f, at, d);
    EndRead(f, at, d, []);
    LimitIs(f, at);
    LongOrShort(f, at, d, [], p, e, own, made, needed, u);
    LongSignature(f, p, e, own, made, needed, u);
    OtherSignature(f, p, 6, 6);
  }

  lemma LongSignature(f: Str, p: nat, e: End, own: nat, made: nat, needed: nat, u: Str)
    requires p <= |f| && f[p..] == LongWritten(e, own, made, needed, u) && LongFields(e)
    ensures p + 56 <= |f| && f[p..p + 4] == Ascii("PK") + [6, 6]
  {
    hide End64At, LongWritten;
    var d := End(0, 0, 0, 0, 0, 0, []);
    LongRead(f, p, e, own, made, needed, u, d);
    LongMissing(f, p, d);
  }

  // ---------- A prefix ----------

  /** What k bytes in front of the file change. */
  ghost function Shifted(t: Toc, k: nat): Toc
  {
    Toc(ShiftedFiles(t.files, k), t.base + k, t.comment)
  }

  ghost function ShiftedFiles(files: seq<FileHeader>, k: nat): seq<FileHeader>
  {
    seq(|files|, i requires 0 <= i < |files| => files[i].(headerOffset := Signed64(files[i].headerOffset + k)))
  }

  lemma {:induction false} HeadersShift(s: Str, base: int, k: nat)
    ensures Headers(s, base + k) ==
      match Headers(s, base)
      case None => None
      case Some(files) => Some(ShiftedFiles(files, k))
    decreases |s|
  {
    hide ReadHeader, Placed, ShiftedFiles;
    NoFilesShift(k);
    match ReadHeader(s)
    case Header(h, rest) =>
      HeadersShift(rest, base, k);
      if Headers(rest, base).Some? {
        FilesShift(h, Headers(rest, base).value, base, k);
      }
    case _ =>
  }

  lemma NoFilesShift(k: nat)
    ensures ShiftedFiles([], k) == []
  {
  }

  lemma FilesShift(h: FileHeader, files: seq<FileHeader>, base: int, k: nat)
    ensures ShiftedFiles([Placed(h, base)] + files, k) == [Placed(h, base + k)] + ShiftedFiles(files, k)
  {
    hide Signed64;
    SignedOfSum(h.headerOffset + base, k);
  }

  lemma EndBehind(g: Str, f: Str, k: nat, at: nat)
    requires k <= |g| && f == g[k..] && FindEnd(f) == Some(at)
    ensures FindEnd(g) == Some(k + at) && EndFits(f, at) && EndFits(g, k + at) && EndAt(g, k + at) == EndAt(f, at)
    ensures at + 22 <= |f| && (AtLimit(g, k + at) <==> AtLimit(f, at))
  {
    hide FindEnd, LastSignature, EndAt, AtLimit;
    FindEndIs(f, at);
    FindEndIs(g, k + at);
    InTail(g, k, k + at);
    FitsIs(f, at);
    EndFitsBehind(g, f, k, at);
    LimitIs(f, at);
    LimitIs(g, k + at);
  }

  lemma EndFitsBehind(g: Str, f: Str, k: nat, at: nat)
    requires k <= |g| && f == g[k..] && EndFits(f, at)
    ensures EndFits(g, k + at) && EndAt(g, k + at) == EndAt(f, at)
    ensures g[k + at + 20] == f[at + 20] && g[k + at + 21] == f[at + 21]
  {
    hide LE16, LE32;
    assert forall i {:trigger f[i..]} :: 0 <= i <= |f| ==> g[k + i..] == f[i..];
    var n := LE16(f[at + 20..]);
    assert g[k + at + 22..k + at + 22 + n] == f[at + 22..at + 22 + n];
  }

  /** If neither file has a header that overrides the offset of the archive, then bytes in front shift
      this offset and those of all headers, and nothing else.  As much of the end is needed as before. */
  lemma PrefixShifts(front: Str, f: Str, at: nat)
    requires var g := front + f;
      && |g| < TWO_63 && FindEnd(f) == Some(at) && EndFits(f, at)
      && (!AtLimit(f, at) || Locate64(g, |front| + at) < 0)
      && EndAt(f, at).size <= at
      && (at > EndAt(f, at).size + EndAt(f, at).offset ==> !ReadHeader(f[EndAt(f, at).offset..]).Header?)
      && (|front| + at > EndAt(f, at).size + EndAt(f, at).offset ==> !ReadHeader(g[EndAt(f, at).offset..]).Header?)
    ensures ParseToc(front + f) ==
      match ParseToc(f)
      case None => None
      case Some(t) => Some(Shifted(t, |front|))
    ensures TocSize(front + f) == TocSize(f)
  {
    hide ReadHeader, FindEnd, Signed64, Headers, ParseToc, TocSize, FindDirectory, Start, EndFits, EndAt, AtLimit, Locate64;
    var g, k, d := front + f, |front|, EndAt(f, at);
    assert f == g[k..];
    EndBehind(g, f, k, at);
    RecordBehind(g, f, k, at);
    SmallOffset(f, at);
    Begins(f, Located(at, d));
    Begins(g, Located(k + at, d));
    var start := at - d.size;
    var base := start - d.offset;
    assert g[k + start..] == f[start..];
    TocOf(f, Directory(d, base), start);
    TocOf(g, Directory(d, base + k), k + start);
    HeadersShift(f[start..], base, k);
  }

  lemma SmallOffset(f: Str, at: nat)
    requires EndFits(f, at)
    ensures EndAt(f, at).offset < TWO_63
  {
    hide LE16, LE32;
  }

  /** The short record counts in both. */
  lemma RecordBehind(g: Str, f: Str, k: nat, at: nat)
    requires k <= |g| && f == g[k..] && FindEnd(f) == Some(at) && FindEnd(g) == Some(k + at)
    requires EndFits(f, at) && EndFits(g, k + at) && EndAt(g, k + at) == EndAt(f, at)
    requires !AtLimit(f, at) || Locate64(g, k + at) < 0
    ensures Record(f) == Some(Located(at, EndAt(f, at))) && Record(g) == Some(Located(k + at, EndAt(f, at)))
  {
    hide FindEnd, EndAt, AtLimit, MayBe64, LE16, LE32, LE64, Signed64;
    LimitIs(f, at);
    if at >= 20 {
      assert g[k + at - 20..] == f[at - 20..];
    }
  }
}
