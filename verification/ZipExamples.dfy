/**
 Files for which a part of what ZipSuffix asks for is missing, and what is read then.
 */
module ZipExamples {
  import opened Wrappers
  import opened Bytes
  import opened ZipSpec
  import opened ZipSuffix

  // ---------- Small numbers ----------

  lemma Small16(f: Str, i: nat)
    requires i + 2 <= |f| && f[i + 1] == 0
    ensures LE16(f[i..]) == f[i]
  {
  }

  lemma At32(f: Str, i: nat)
    requires i + 4 <= |f|
    ensures LE32(f[i..]) == f[i] as int + f[i + 1] as int * 256 + (f[i + 2] as int + f[i + 3] as int * 256) * 0x1_0000
  {
    assert f[i..][2..] == f[i + 2..];
  }

  lemma Small32(f: Str, i: nat)
    requires i + 4 <= |f| && f[i + 1] == f[i + 2] == f[i + 3] == 0
    ensures LE32(f[i..]) == f[i]
  {
    At32(f, i);
  }

  lemma Small64(f: Str, i: nat)
    requires i + 8 <= |f| && forall j :: i < j < i + 8 ==> f[j] == 0
    ensures LE64(f[i..]) == f[i]
  {
    hide LE32;
    assert f[i..][4..] == f[i + 4..];
    Small32(f, i);
    Small32(f, i + 4);
  }

  // ---------- Parts of files ----------

  /** A header of a file without a name, with zeros in all fields. */
  ghost predicate HeaderAt(f: Str, i: nat)
  {
    && i + DIRECTORY_HEADER_LEN <= |f|
    && f[i] == 0x50 && f[i + 1] == 0x4b && f[i + 2] == 1 && f[i + 3] == 2
    && forall j :: i + 4 <= j < i + DIRECTORY_HEADER_LEN ==> f[j] == 0
  }

  lemma ReadHeaderAt(f: Str, i: nat)
    requires HeaderAt(f, i)
    ensures ReadHeader(f[i..]).Header? && ReadHeader(f[i..]).rest == f[i + DIRECTORY_HEADER_LEN..]
  {
    hide LE16, LE32, Fixed;
    var s := f[i..];
    assert HeaderAt(s, 0) && s[0..] == s;
    At32(s, 0);
    Small16(s, 28);
    Small16(s, 30);
    Small16(s, 32);
    Small32(s, 20);
    Small32(s, 24);
    Small32(s, 42);
    FixedSizes(s);
    var d := s[DIRECTORY_HEADER_LEN..];
    assert d[0..0] == [] && d[0..] == d == f[i + DIRECTORY_HEADER_LEN..];
  }

  lemma FixedSizes(b: Str)
    requires |b| >= DIRECTORY_HEADER_LEN
    ensures Fixed(b).uncompressedSize == LE32(b[24..]) && Fixed(b).compressedSize == LE32(b[20..])
    ensures Fixed(b).headerOffset == LE32(b[42..])
  {
  }

  /** Something else where a header could be. */
  lemma NoHeaderAt(f: Str, i: nat, base: int)
    requires i + DIRECTORY_HEADER_LEN <= |f| && f[i + 2] != 1
    ensures Headers(f[i..], base) == Some([])
  {
    hide LE32;
    var s := f[i..];
    assert s[0..] == s;
    At32(s, 0);
  }

  /** An end record with a comment that reaches to the end of the file.  The number of headers is
      records, or the largest one if that is 255. */
  ghost predicate EndRecordAt(f: Str, i: nat, records: Byte, size: Byte)
  {
    && i + DIRECTORY_END_LEN <= |f|
    && f[i] == 0x50 && f[i + 1] == 0x4b && f[i + 2] == 5 && f[i + 3] == 6
    && f[i + 10] == records && f[i + 11] == (if records == 255 then 255 else 0) && f[i + 12] == size
    && f[i + 20] as int == |f| - i - DIRECTORY_END_LEN && f[i + 21] == 0
    && (forall j :: i + 4 <= j < i + 10 ==> f[j] == 0)
    && (forall j :: i + 13 <= j < i + 20 ==> f[j] == 0)
  }

  lemma ReadEndRecordAt(f: Str, i: nat, records: Byte, size: Byte)
    requires EndRecordAt(f, i, records, size)
    ensures EndFits(f, i)
    ensures EndAt(f, i) == End(0, 0, 0, if records == 255 then 0xffff else records, size, 0, f[i + DIRECTORY_END_LEN..])
  {
    hide LE16, LE32;
    Small16(f, i + 4);
    Small16(f, i + 6);
    Small16(f, i + 8);
    if records == 255 { Full16(f, i + 10); } else { Small16(f, i + 10); }
    Small32(f, i + 12);
    Small32(f, i + 16);
    Small16(f, i + 20);
  }

  lemma Full16(f: Str, i: nat)
    requires i + 2 <= |f| && f[i] == f[i + 1] == 255
    ensures LE16(f[i..]) == 0xffff
  {
  }

  lemma {:induction false} SkipToEnd(f: Str, i: nat, j: nat)
    requires i <= j && j + DIRECTORY_END_LEN <= |f| && forall x :: i < x <= j ==> f[x] != 0x50 || f[x + 2] != 5
    ensures FindFrom(f, j) == FindFrom(f, i)
    decreases j
  {
    hide LE16;
    if i < j {
      SkipToEnd(f, i, j - 1);
    }
  }

  /** The end record is found if nothing behind it looks like one. */
  lemma FindEndAt(f: Str, i: nat, records: Byte, size: Byte)
    requires |f| <= 1024 && EndRecordAt(f, i, records, size)
    requires forall x :: i < x <= |f| - DIRECTORY_END_LEN ==> f[x] != 0x50 || f[x + 2] != 5
    ensures Short(f) ==
      Some(Located(i, End(0, 0, 0, if records == 255 then 0xffff else records, size, 0, f[i + DIRECTORY_END_LEN..])))
  {
    hide FindEnd, FindFrom, EndAt, SignatureAt, LE16;
    ReadEndRecordAt(f, i, records, size);
    SkipToEnd(f, i, |f| - DIRECTORY_END_LEN);
    LastIsFound(f, i);
  }

  lemma LastIsFound(f: Str, i: nat)
    requires |f| <= 1024 && EndFits(f, i) && FindFrom(f, |f| - DIRECTORY_END_LEN) == FindFrom(f, i)
    requires f[i] == 0x50 && f[i + 1] == 0x4b && f[i + 2] == 5 && f[i + 3] == 6
    ensures FindEnd(f) == Some(i)
  {
    hide LE16;
    assert f[|f| - |f|..] == f;
    assert SignatureAt(f, i) && FindFrom(f, i) == i;
    assert FindInLast(f, |f|) == Some(i);
  }

  /** A locator that points to p. */
  ghost predicate LocatorAt(f: Str, i: nat, p: Byte)
  {
    && i + DIRECTORY_64_LOC_LEN <= |f|
    && f[i] == 0x50 && f[i + 1] == 0x4b && f[i + 2] == 6 && f[i + 3] == 7
    && f[i + 8] == p && f[i + 16] == 1
    && forall j :: i + 4 <= j < i + DIRECTORY_64_LOC_LEN && j != i + 8 && j != i + 16 ==> f[j] == 0
  }

  lemma LocateAt(f: Str, i: nat, p: Byte)
    requires LocatorAt(f, i, p)
    ensures Locate64(f, i + DIRECTORY_64_LOC_LEN) == p
  {
    hide LE32, LE64;
    var b := f[i..];
    assert LocatorAt(b, 0, p) && b[0..] == b;
    At32(b, 0);
    Small32(b, 4);
    Small64(b, 8);
    Small32(b, 16);
  }

  /** A long record with three values. */
  ghost predicate RecordAt(f: Str, i: nat, records: Byte, size: Byte, offset: Byte)
  {
    && i + DIRECTORY_64_END_LEN <= |f|
    && f[i] == 0x50 && f[i + 1] == 0x4b && f[i + 2] == 6 && f[i + 3] == 6
    && f[i + 32] == records && f[i + 40] == size && f[i + 48] == offset
    && forall j :: i + 4 <= j < i + DIRECTORY_64_END_LEN && j != i + 32 && j != i + 40 && j != i + 48 ==> f[j] == 0
  }

  lemma ReadRecordAt(f: Str, i: nat, records: Byte, size: Byte, offset: Byte, d: End)
    requires RecordAt(f, i, records, size, offset)
    ensures End64At(f, i, d) == Some(End(0, 0, 0, records, size, offset, d.comment))
  {
    hide LE32, LE64;
    var b := f[i..];
    assert RecordAt(b, 0, records, size, offset) && b[0..] == b;
    At32(b, 0);
    Small32(b, 16);
    Small32(b, 20);
    Small64(b, 24);
    Small64(b, 32);
    Small64(b, 40);
    Small64(b, 48);
  }

  // ---------- A header that overrides the base offset ----------

  /** One header, a byte that the end record does not account for, and the end record. */
  function OneFile(): (s: Str)
    ensures |s| == 69
  {
    seq(69, i =>
      if i == 0 || i == 47 then 0x50
      else if i == 1 || i == 48 then 0x4b
      else if i == 2 || i == 57 then 1
      else if i == 3 then 2
      else if i == 49 then 5
      else if i == 50 then 6
      else if i == 59 then 46
      else 0)
  }

  lemma OneFileBytes()
    ensures var f := OneFile();
      && HeaderAt(f, 0) && EndRecordAt(f, 47, 1, 46)
      && f[0..] == f && f[69..] == []
  {
  }

  /** The whole file has one header at its beginning; the end record alone leads to byte 1. */
  lemma FooterTooSmall()
    ensures TocSize(OneFile()) == Some(69)
    ensures TocSize(Padded(69, OneFile()[47..])) == Some(68)
  {
    hide OneFile, TwoFiles, NoFiles, Padded, Masked, TocSize, ParseToc, Short, Record, Seen, InFile, StartSeen, BaseSeen,
         TocSeen, Headers, HeaderAt, RecordAt, LocatorAt, EndRecordAt, ReadHeader, LocatorInToc, From;
    var f := OneFile();
    OneFileBytes();
    OneFileRead(f);
    PaddedIsMasked(f, 22);
    TocSizeIs(f);
    TocSizeMasked(f, 47);
    OneFileSizes(f);
  }

  lemma OneFileRead(f: Str)
    requires |f| == 69 && HeaderAt(f, 0) && EndRecordAt(f, 47, 1, 46) && f[0..] == f && f[69..] == []
    ensures Short(f) == Some(Located(47, End(0, 0, 0, 1, 46, 0, []))) && ReadHeader(f).Header?
  {
    hide ReadHeader, Short, HeaderAt, EndRecordAt;
    FindEndAt(f, 47, 1, 46);
    ReadHeaderAt(f, 0);
  }

  lemma OneFileSizes(f: Str)
    requires |f| == 69 && Short(f) == Some(Located(47, End(0, 0, 0, 1, 46, 0, []))) && ReadHeader(f).Header? && f[0..] == f
    ensures var r := Short(f).value;
      && Record(f) == Some(r) && Seen(f, 47) == Some(r) && InFile(f, r)
      && StartSeen(f, 0, r) == 0 && StartSeen(f, 47, r) == 1
  {
    hide ReadHeader, Short, Locate64, BaseOffset;
    NothingWraps(f, Short(f).value);
  }

  // ---------- A long record that the footer hides ----------

  /** Two headers, a long record, its locator, and an end record that leaves the number to it. */
  function TwoFiles(): (s: Str)
    ensures |s| == 190
  {
    seq(190, i =>
      if i == 0 || i == 46 || i == 92 || i == 148 || i == 168 then 0x50
      else if i == 1 || i == 47 || i == 93 || i == 149 || i == 169 then 0x4b
      else if i == 2 || i == 48 || i == 164 then 1
      else if i == 3 || i == 49 || i == 124 then 2
      else if i == 94 || i == 95 || i == 150 || i == 171 then 6
      else if i == 170 then 5
      else if i == 151 then 7
      else if i == 132 || i == 156 || i == 180 then 92
      else if i == 178 || i == 179 then 255
      else 0)
  }

  lemma TwoFilesFront()
    ensures var f := TwoFiles(); HeaderAt(f, 0) && HeaderAt(f, 46) && f[94] != 1 && f[0..] == f
  {
  }

  lemma TwoFilesBack()
    ensures var f := TwoFiles();
      RecordAt(f, 92, 2, 92, 0) && LocatorAt(f, 148, 92) && EndRecordAt(f, 168, 255, 92) && f[190..] == []
  {
  }

  lemma TwoFilesRecord(f: Str)
    requires |f| == 190 && RecordAt(f, 92, 2, 92, 0) && LocatorAt(f, 148, 92) && EndRecordAt(f, 168, 255, 92)
    requires f[190..] == []
    ensures Short(f) == Some(Located(168, End(0, 0, 0, 0xffff, 92, 0, []))) && Locate64(f, 168) == 92
    ensures Record(f) == Some(Located(92, End(0, 0, 0, 2, 92, 0, [])))
  {
    hide Short, Locate64, End64At, RecordAt, LocatorAt, EndRecordAt;
    FindEndAt(f, 168, 255, 92);
    LocateAt(f, 148, 92);
    ReadRecordAt(f, 92, 2, 92, 0, Short(f).value.end);
  }

  lemma TwoFilesHeaders(f: Str)
    requires |f| == 190 && HeaderAt(f, 0) && HeaderAt(f, 46) && f[94] != 1 && f[0..] == f
    ensures Headers(f, 0).Some? && |Headers(f, 0).value| == 2
  {
    hide ReadHeader, Placed, HeaderAt;
    ReadHeaderAt(f, 0);
    ReadHeaderAt(f, 46);
    NoHeaderAt(f, 92, 0);
    assert Headers(f[46..], 0).Some? && |Headers(f[46..], 0).value| == 1;
  }

  /** A footer with the end record alone asks for 114 bytes instead of 190; in these the long record
      is found, but not the headers. */
  lemma LocatorHidden()
    ensures TocSize(TwoFiles()) == Some(190)
    ensures TocSize(Padded(190, TwoFiles()[168..])) == Some(114)
    ensures ParseToc(TwoFiles()).Some? && |ParseToc(TwoFiles()).value.files| == 2
    ensures ParseToc(Padded(190, TwoFiles()[76..])) == None
  {
    hide OneFile, TwoFiles, NoFiles, Padded, Masked, TocSize, ParseToc, Short, Record, Seen, InFile, StartSeen, BaseSeen,
         TocSeen, Headers, HeaderAt, RecordAt, LocatorAt, EndRecordAt, ReadHeader, LocatorInToc, From;
    var f := TwoFiles();
    TwoFilesFront();
    TwoFilesBack();
    TwoFilesRecord(f);
    TwoFilesHeaders(f);
    PaddedIsMasked(f, 22);
    PaddedIsMasked(f, 114);
    NothingMasked(f);
    TocSizeIs(f);
    TocSizeMasked(f, 168);
    ParseTocMasked(f, 76);
    ParseTocMasked(f, 0);
    TwoFilesSizes(f);
    TwoFilesTocs(f);
  }

  lemma TwoFilesSizes(f: Str)
    requires |f| == 190 && Short(f) == Some(Located(168, End(0, 0, 0, 0xffff, 92, 0, []))) && Locate64(f, 168) == 92
    requires Record(f) == Some(Located(92, End(0, 0, 0, 2, 92, 0, [])))
    ensures Seen(f, 168) == Short(f) && InFile(f, Short(f).value) && StartSeen(f, 168, Short(f).value) == 76
    ensures Seen(f, 76) == Record(f) && InFile(f, Record(f).value)
    ensures StartSeen(f, 0, Record(f).value) == StartSeen(f, 76, Record(f).value) == 0
    ensures BaseSeen(f, 0, Record(f).value) == 0
  {
    hide ReadHeader, Short, Locate64, BaseOffset, End64At;
    NothingWraps(f, Short(f).value);
    NothingWraps(f, Record(f).value);
  }

  lemma TwoFilesTocs(f: Str)
    requires Record(f) == Some(Located(92, End(0, 0, 0, 2, 92, 0, []))) && InFile(f, Record(f).value) && f[0..] == f
    requires StartSeen(f, 0, Record(f).value) == StartSeen(f, 76, Record(f).value) == 0
    requires BaseSeen(f, 0, Record(f).value) == 0
    requires Headers(f, 0).Some? && |Headers(f, 0).value| == 2
    ensures TocSeen(f, 76, Record(f).value) == None
    ensures var t := TocSeen(f, 0, Record(f).value); t.Some? && |t.value.files| == 2
  {
    hide Headers, Record, InFile, StartSeen, BaseSeen;
  }

  // ---------- A long record behind its locator ----------

  /** A locator, an end record, and in its comment a long record of an empty directory. */
  function NoFiles(): (s: Str)
    ensures |s| == 98
  {
    seq(98, i =>
      if i == 0 || i == 20 || i == 42 then 0x50
      else if i == 1 || i == 21 || i == 43 then 0x4b
      else if i == 2 || i == 23 || i == 44 || i == 45 then 6
      else if i == 22 then 5
      else if i == 3 then 7
      else if i == 8 || i == 90 then 42
      else if i == 16 then 1
      else if i == 30 || i == 31 then 255
      else if i == 40 then 56
      else 0)
  }

  lemma NoFilesBytes()
    ensures var f := NoFiles();
      && LocatorAt(f, 0, 42) && EndRecordAt(f, 20, 255, 0) && RecordAt(f, 42, 0, 0, 42) && f[44] != 1
      && forall x :: 20 < x <= 76 ==> f[x] != 0x50 || f[x + 2] != 5
  {
  }

  lemma NoFilesRecord(f: Str)
    requires |f| == 98 && LocatorAt(f, 0, 42) && EndRecordAt(f, 20, 255, 0) && RecordAt(f, 42, 0, 0, 42)
    requires forall x :: 20 < x <= 76 ==> f[x] != 0x50 || f[x + 2] != 5
    ensures Short(f) == Some(Located(20, End(0, 0, 0, 0xffff, 0, 0, f[42..]))) && Locate64(f, 20) == 42
    ensures Record(f) == Some(Located(42, End(0, 0, 0, 0, 0, 42, f[42..])))
  {
    hide Short, Locate64, End64At, RecordAt, LocatorAt, EndRecordAt;
    FindEndAt(f, 20, 255, 0);
    LocateAt(f, 0, 42);
    ReadRecordAt(f, 42, 0, 0, 42, Short(f).value.end);
  }

  lemma NoFilesToc(f: Str)
    requires |f| == 98 && Short(f) == Some(Located(20, End(0, 0, 0, 0xffff, 0, 0, f[42..]))) && Locate64(f, 20) == 42
    requires Record(f) == Some(Located(42, End(0, 0, 0, 0, 0, 42, f[42..]))) && Headers(f[42..], 0) == Some([])
    ensures InFile(f, Record(f).value) && StartOf(f) == 42 && !LocatorInToc(f)
    ensures TocSeen(f, 0, Record(f).value).Some?
  {
    hide ReadHeader, Short, Locate64, BaseOffset, End64At, Headers;
    NothingWraps(f, Record(f).value);
  }

  /** The table of contents is asked for from the long record on, and the end record is not in it. */
  lemma RecordBehindLocator()
    ensures TocSize(NoFiles()) == Some(56) && ParseToc(NoFiles()).Some?
    ensures Record(NoFiles()).Some? && !LocatorInToc(NoFiles())
    ensures ParseToc(Padded(98, NoFiles()[42..])) == None
  {
    hide OneFile, TwoFiles, NoFiles, Padded, Masked, TocSize, ParseToc, Short, Record, Seen, InFile, StartSeen, BaseSeen,
         TocSeen, Headers, HeaderAt, RecordAt, LocatorAt, EndRecordAt, ReadHeader, LocatorInToc, From;
    var f := NoFiles();
    NoFilesBytes();
    NoFilesRecord(f);
    NoHeaderAt(f, 42, 0);
    NoFilesToc(f);
    NothingMasked(f);
    TocSizeIs(f);
    ParseTocMasked(f, 0);
    HiddenLocator(f);
  }
}
