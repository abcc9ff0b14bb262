/**
 The table of contents of ZIP files: what is found in a file that is completely known.
 The methods of module Zip are proved against the functions here.
 */
module ZipSpec {
  import opened Wrappers
  import opened Bytes

  const DIRECTORY_HEADER_LEN := 46
  const DIRECTORY_END_LEN := 22
  const DIRECTORY_64_LOC_LEN := 20
  const DIRECTORY_64_END_LEN := 56

  const DIRECTORY_HEADER_SIGNATURE := 0x02014b50
  const DIRECTORY_64_LOC_SIGNATURE := 0x07064b50
  const DIRECTORY_64_END_SIGNATURE := 0x06064b50

  // ---------- The end of the directory ----------

  predicate SignatureAt(b: Str, i: nat)
    requires i + DIRECTORY_END_LEN <= |b|
  {
    b[i] == 0x50 && b[i + 1] == 0x4b && b[i + 2] == 0x05 && b[i + 3] == 0x06
  }

  /** The last signature at i or before, or -1 if there is none, or its comment is cut off. */
  function FindFrom(b: Str, i: int): (p: int)
    requires i + DIRECTORY_END_LEN <= |b|
    ensures -1 <= p <= i || (i < 0 && p == -1)
    ensures p >= 0 ==> SignatureAt(b, p) && p + DIRECTORY_END_LEN + LE16(b[p + 20..]) <= |b|
    decreases i + 1
  {
    if i < 0 then -1
    else if SignatureAt(b, i) then
      if LE16(b[i + 20..]) + DIRECTORY_END_LEN + i > |b| then -1 else i
    else FindFrom(b, i - 1)
  }

  function FindSignature(b: Str): int
  {
    FindFrom(b, |b| - DIRECTORY_END_LEN)
  }

  /** Whether a whole record is there. */
  predicate EndFits(f: Str, at: nat)
  {
    at + DIRECTORY_END_LEN <= |f| && at + DIRECTORY_END_LEN + LE16(f[at + 20..]) <= |f|
  }

  /** The record in the last n bytes. */
  function FindInLast(f: Str, n: nat): (at: Option<nat>)
    requires n <= |f|
    ensures at.Some? ==> EndFits(f, at.value)
  {
    var b := f[|f| - n..];
    var p := FindSignature(b);
    if p < 0 then None
    else
      assert b[p + 20..] == f[|f| - n + p + 20..];
      Some(|f| - n + p)
  }

  /** Looks at the last 1 KiB, then at the last 65 KiB. */
  function FindEnd(f: Str): (at: Option<nat>)
    ensures at.Some? ==> EndFits(f, at.value)
  {
    var at := FindInLast(f, Least(1024, |f|));
    if at.Some? || |f| <= 1024 then at
    else FindInLast(f, Least(65 * 1024, |f|))
  }

  /** The record at the end of the directory.  The first three fields are not used. */
  datatype End = End(
    diskNbr: nat, dirDiskNbr: nat, recordsThisDisk: nat,
    records: nat, size: nat, offset: nat, comment: Str)

  function EndAt(f: Str, at: nat): End
    requires EndFits(f, at)
  {
    End(LE16(f[at + 4..]), LE16(f[at + 6..]), LE16(f[at + 8..]), LE16(f[at + 10..]), LE32(f[at + 12..]), LE32(f[at + 16..]),
        f[at + 22..at + 22 + LE16(f[at + 20..])])
  }

  // ---------- zip64 ----------

  /** Values of the short record that hint at a long one; the size is compared with a 16-bit limit. */
  predicate MayBe64(d: End)
  {
    d.records == 0xffff || d.size == 0xffff || d.offset == 0xffff_ffff
  }

  /** Where the locator before the short record says that the long record is; negative if nowhere. */
  function Locate64(f: Str, at: nat): int
    requires at <= |f|
  {
    if at < DIRECTORY_64_LOC_LEN then -1
    else
      var b := f[at - DIRECTORY_64_LOC_LEN..];
      if LE32(b) != DIRECTORY_64_LOC_SIGNATURE then -1
      else if LE32(b[4..]) != 0 then -1
      else if LE32(b[16..]) != 1 then -1
      else Signed64(LE64(b[8..]))
  }

  function End64At(f: Str, p: nat, d: End): Option<End>
  {
    if p + DIRECTORY_64_END_LEN > |f| then None
    else
      var b := f[p..];
      if LE32(b) != DIRECTORY_64_END_SIGNATURE then None
      else Some(End(LE32(b[16..]), LE32(b[20..]), LE64(b[24..]), LE64(b[32..]), LE64(b[40..]), LE64(b[48..]), d.comment))
  }

  /** A record, and where it is. */
  datatype Located = Located(at: nat, end: End)

  /** The short record. */
  function Short(f: Str): (r: Option<Located>)
    ensures r.Some? ==> r.value.at + DIRECTORY_END_LEN <= |f|
  {
    match FindEnd(f)
    case None => None
    case Some(at) => Some(Located(at, EndAt(f, at)))
  }

  /** Whether the long record replaces the short one. */
  predicate Uses64(f: Str, short: Located)
    requires short.at <= |f|
  {
    MayBe64(short.end) && Locate64(f, short.at) >= 0
  }

  function Final(f: Str, short: Located): Option<Located>
    requires short.at <= |f|
  {
    if Uses64(f, short) then
      var p := Locate64(f, short.at);
      match End64At(f, p, short.end)
      case None => None
      case Some(d) => Some(Located(p, d))
    else Some(short)
  }

  // ---------- Where the directory is ----------

  /** The offset of the archive in the file, computed with 64-bit integers. */
  function BaseOffset(r: Located): int
  {
    Signed64(Signed64(r.at - r.end.size) - r.end.offset)
  }

  predicate InFile(f: Str, r: Located)
  {
    && r.end.size < TWO_63 && r.end.offset < TWO_63
    && 0 <= Signed64(BaseOffset(r) + r.end.offset) < |f|
  }

  /** Whether there is a directory header where it would be if the archive began with the file. */
  predicate StartsAtZero(f: Str, r: Located)
  {
    BaseOffset(r) > 0 && ReadHeader(From(f, r.end.offset)).Header?
  }

  datatype Directory = Directory(end: End, base: int)

  /** The record that counts. */
  function Record(f: Str): Option<Located>
  {
    match Short(f)
    case None => None
    case Some(short) => Final(f, short)
  }

  function FindDirectory(f: Str): Option<Directory>
  {
    match Record(f)
    case None => None
    case Some(r) =>
      if !InFile(f, r) then None
      else Some(Directory(r.end, if StartsAtZero(f, r) then 0 else BaseOffset(r)))
  }

  function Start(d: Directory): int
  {
    Signed64(d.base + d.end.offset)
  }

  /** How much of the end of the file is needed to read the directory. */
  function TocSize(f: Str): Option<nat>
  {
    match FindDirectory(f)
    case None => None
    case Some(d) =>
      var t := Signed64(|f| - Start(d));
      if 0 <= t <= |f| then Some(t) else None
  }

  // ---------- Headers ----------

  datatype FileHeader = FileHeader(
    creatorVersion: nat, readerVersion: nat, flags: nat, compression: nat,
    modifiedTime: nat, modifiedDate: nat, crc32: nat,
    compressedSize: nat, uncompressedSize: nat,
    externalAttrs: nat,
    compressedSize64: nat, uncompressedSize64: nat, headerOffset: int,
    name: Str, extra: Str, comment: Str)

  /** NoMore is an end of input where something was to begin. */
  datatype HeaderRead = Header(h: FileHeader, rest: Str) | BadFormat | UnexpectedEnd | NoMore

  /** The values that a zip64 extra field may replace, and which of them still need it. */
  datatype Wide = Wide(
    uncompressed: nat, compressed: nat, offset: int,
    needUncompressed: bool, needCompressed: bool, needOffset: bool)

  function Zip64Uncompressed(b: Str, w: Wide): Option<(Str, Wide)>
  {
    if !w.needUncompressed then Some((b, w))
    else if |b| < 8 then None
    else Some((b[8..], w.(needUncompressed := false, uncompressed := LE64(b))))
  }

  function Zip64Compressed(b: Str, w: Wide): Option<(Str, Wide)>
  {
    if !w.needCompressed then Some((b, w))
    else if |b| < 8 then None
    else Some((b[8..], w.(needCompressed := false, compressed := LE64(b))))
  }

  function Zip64Offset(b: Str, w: Wide): Option<Wide>
  {
    if !w.needOffset then Some(w)
    else if |b| < 8 then None
    else Some(w.(needOffset := false, offset := Signed64(LE64(b))))
  }

  function Zip64Field(b: Str, w: Wide): Option<Wide>
  {
    match Zip64Uncompressed(b, w)
    case None => None
    case Some((b, w)) =>
      match Zip64Compressed(b, w)
      case None => None
      case Some((b, w)) => Zip64Offset(b, w)
  }

  /** Walks through the extra fields; of these only the zip64 ones can be wrong. */
  function Extras(x: Str, w: Wide): Option<Wide>
    decreases |x|
  {
    if |x| < 4 then Some(w)
    else
      var tag, size, x := LE16(x), LE16(x[2..]), x[4..];
      if |x| < size then Some(w)
      else if tag != 1 then Extras(x[size..], w)
      else match Zip64Field(x[..size], w)
        case None => None
        case Some(w) => Extras(x[size..], w)
  }

  /** What the fixed part of a header says. */
  function Fixed(b: Str): FileHeader
    requires |b| >= DIRECTORY_HEADER_LEN
  {
    FileHeader(LE16(b[4..]), LE16(b[6..]), LE16(b[8..]), LE16(b[10..]), LE16(b[12..]), LE16(b[14..]), LE32(b[16..]),
               LE32(b[20..]), LE32(b[24..]), LE32(b[38..]), LE32(b[20..]), LE32(b[24..]), LE32(b[42..]), [], [], [])
  }

  function ReadHeader(s: Str): (r: HeaderRead)
    ensures r.Header? ==> |r.rest| + DIRECTORY_HEADER_LEN <= |s|
  {
    if s == [] then NoMore
    else if |s| < DIRECTORY_HEADER_LEN then UnexpectedEnd
    else if LE32(s) != DIRECTORY_HEADER_SIGNATURE then BadFormat
    else
      var h, d := Fixed(s), s[DIRECTORY_HEADER_LEN..];
      var n, x, c := LE16(s[28..]), LE16(s[30..]), LE16(s[32..]);
      if n + x + c > 0 && d == [] then NoMore
      else if |d| < n + x + c then UnexpectedEnd
      else
        var w := Wide(h.uncompressedSize, h.compressedSize, h.headerOffset,
                      h.uncompressedSize == 0xffff_ffff, h.compressedSize == 0xffff_ffff, h.headerOffset == 0xffff_ffff);
        match Extras(d[n..n + x], w)
        case None => BadFormat
        case Some(w) =>
          if w.needCompressed || w.needOffset then BadFormat
          else Header(h.(name := d[..n], extra := d[n..n + x], comment := d[n + x..n + x + c],
                         uncompressedSize64 := w.uncompressed, compressedSize64 := w.compressed, headerOffset := w.offset),
                      d[n + x + c..])
  }

  /** With the offset from the beginning of the file. */
  function Placed(h: FileHeader, base: int): FileHeader
  {
    h.(headerOffset := Signed64(h.headerOffset + base))
  }

  /** The headers up to something else; the file must not end there. */
  function Headers(s: Str, base: int): Option<seq<FileHeader>>
    decreases |s|
  {
    match ReadHeader(s)
    case Header(h, rest) =>
      (match Headers(rest, base)
       case None => None
       case Some(r) => Some([Placed(h, base)] + r))
    case NoMore => None
    case BadFormat => Some([])
    case UnexpectedEnd => Some([])
  }

  datatype Toc = Toc(files: seq<FileHeader>, base: int, comment: Str)

  function ParseToc(f: Str): Option<Toc>
  {
    match FindDirectory(f)
    case None => None
    case Some(d) =>
      if Start(d) < 0 then None
      else match Headers(From(f, Start(d)), d.base)
        case None => None
        case Some(files) =>
          if |files| % 0x1_0000 != d.end.records % 0x1_0000 then None
          else Some(Toc(files, d.base, d.end.comment))
  }
}
