/**
 The table of contents can be read from the end of a file, with zeros in place of the rest.
 */
module ZipSuffix {
  import opened Wrappers
  import opened Bytes
  import opened ZipSpec

  /** The file with its first k bytes replaced by zeros. */
  ghost function Masked(f: Str, k: nat): (m: Str)
    requires k <= |f|
    ensures |m| == |f|
  {
    seq(|f|, i requires 0 <= i < |f| => if i < k then 0 else f[i])
  }

  lemma MaskedTail(f: Str, k: nat, i: nat)
    requires k <= i <= |f|
    ensures Masked(f, k)[i..] == f[i..]
  {
  }

  // ---------- The end record ----------

  /** There is no signature where there are only zeros. */
  lemma {:induction false} NoneInZeros(f: Str, k: nat, i: int)
    requires k <= |f| && i + DIRECTORY_END_LEN <= |f| && i < k
    ensures FindFrom(Masked(f, k), i) == -1
    decreases i + 1
  {
    if i >= 0 {
      assert Masked(f, k)[i] == 0;
      NoneInZeros(f, k, i - 1);
    }
  }

  lemma {:induction false} FindMasked(f: Str, k: nat, i: int)
    requires k <= |f| && i + DIRECTORY_END_LEN <= |f|
    ensures FindFrom(Masked(f, k), i) == if FindFrom(f, i) < k then -1 else FindFrom(f, i)
    decreases i + 1
  {
    hide *;
    if i < k {
      NoneInZeros(f, k, i);
    } else {
      SameAtMasked(f, k, i);
      FindStep(f, i);
      FindStep(Masked(f, k), i);
      FindMasked(f, k, i - 1);
    }
  }

  lemma SameAtMasked(f: Str, k: nat, i: nat)
    requires k <= i && i + DIRECTORY_END_LEN <= |f|
    ensures SignatureAt(Masked(f, k), i) == SignatureAt(f, i) && Masked(f, k)[i + 20..] == f[i + 20..]
  {
  }

  lemma MaskedBlock(f: Str, k: nat, n: nat)
    requires k <= |f| && n <= |f|
    ensures Masked(f, k)[|f| - n..] == Masked(f[|f| - n..], if k < |f| - n then 0 else k - (|f| - n))
  {
  }

  lemma FindInLastMasked(f: Str, k: nat, n: nat)
    requires k <= |f| && n <= |f|
    ensures FindInLast(Masked(f, k), n) ==
      if FindInLast(f, n).Some? && FindInLast(f, n).value >= k then FindInLast(f, n) else None
  {
    hide Masked, FindFrom, SignatureAt, LE16;
    var b := f[|f| - n..];
    MaskedBlock(f, k, n);
    FindMasked(b, if k < |f| - n then 0 else k - (|f| - n), |b| - DIRECTORY_END_LEN);
  }

  /** The record in a short block is also the one in a long block. */
  lemma {:induction false} FindShift(f: Str, m: nat, c: Str, i: int)
    requires m <= |f| && c == f[m..] && i + DIRECTORY_END_LEN <= |c|
    ensures FindFrom(c, i) >= 0 ==> FindFrom(f, m + i) == m + FindFrom(c, i)
    decreases i + 1
  {
    hide *;
    if i >= 0 {
      SameAt(f, m, c, i);
      FindStep(c, i);
      FindStep(f, m + i);
      FindShift(f, m, c, i - 1);
    }
  }

  lemma FindStep(b: Str, i: nat)
    requires i + DIRECTORY_END_LEN <= |b|
    ensures FindFrom(b, i) ==
      if SignatureAt(b, i) then (if LE16(b[i + 20..]) + DIRECTORY_END_LEN + i > |b| then -1 else i)
      else FindFrom(b, i - 1)
  {
  }

  lemma SameAt(f: Str, m: nat, c: Str, i: nat)
    requires m <= |f| && c == f[m..] && i + DIRECTORY_END_LEN <= |c|
    ensures SignatureAt(f, m + i) == SignatureAt(c, i)
    ensures f[m + i + 20..] == c[i + 20..]
  {
  }

  lemma LongerBlock(f: Str, n: nat, m: nat)
    requires n <= m <= |f| && FindInLast(f, n).Some?
    ensures FindInLast(f, m) == FindInLast(f, n)
  {
    hide FindFrom, SignatureAt, LE16;
    var b, c := f[|f| - m..], f[|f| - n..];
    assert c == b[m - n..];
    FindShift(b, m - n, c, |c| - DIRECTORY_END_LEN);
  }

  /** With zeros in front the same record is found, as long as it is not hidden. */
  lemma FindEndMasked(f: Str, k: nat)
    requires k <= |f|
    ensures FindEnd(Masked(f, k)) == if FindEnd(f).Some? && FindEnd(f).value >= k then FindEnd(f) else None
  {
    hide FindInLast, Masked;
    var n, m := Least(1024, |f|), Least(65 * 1024, |f|);
    FindInLastMasked(f, k, n);
    FindInLastMasked(f, k, m);
    if FindInLast(f, n).Some? {
      LongerBlock(f, n, m);
    }
  }

  // ---------- The records ----------

  lemma ShortMasked(f: Str, k: nat)
    requires k <= |f|
    ensures Short(Masked(f, k)) == if Short(f).Some? && Short(f).value.at >= k then Short(f) else None
  {
    hide Masked, FindEnd, EndAt;
    FindEndMasked(f, k);
    if Short(f).Some? && Short(f).value.at >= k {
      EndAtMasked(f, k, Short(f).value.at);
    }
  }

  lemma EndAtMasked(f: Str, k: nat, at: nat)
    requires k <= at && EndFits(f, at)
    ensures EndFits(Masked(f, k), at) && EndAt(Masked(f, k), at) == EndAt(f, at)
  {
    hide Masked;
    var m := Masked(f, k);
    MaskedTail(f, k, at + 4);
    MaskedTail(f, k, at + 6);
    MaskedTail(f, k, at + 8);
    MaskedTail(f, k, at + 10);
    MaskedTail(f, k, at + 12);
    MaskedTail(f, k, at + 16);
    MaskedTail(f, k, at + 20);
    MaskedTail(f, k, at + 22);
    var n := LE16(f[at + 20..]);
    assert m[at + 22..at + 22 + n] == m[at + 22..][..n] && f[at + 22..at + 22 + n] == f[at + 22..][..n];
  }

  /** The offset of the locator, if one is looked for. */
  function LocatorStart(short: Located): int
  {
    short.at - DIRECTORY_64_LOC_LEN
  }

  /** A locator that is partly hidden is not seen, and none appears. */
  lemma Locate64Masked(f: Str, k: nat, at: nat)
    requires k <= at <= |f|
    ensures Locate64(Masked(f, k), at) >= 0 ==> Locate64(f, at) >= 0
    ensures k <= at - DIRECTORY_64_LOC_LEN ==> Locate64(Masked(f, k), at) == Locate64(f, at)
    ensures k > at - DIRECTORY_64_LOC_LEN ==> Locate64(Masked(f, k), at) < 0
  {
    var m := Masked(f, k);
    if at >= DIRECTORY_64_LOC_LEN {
      var i := at - DIRECTORY_64_LOC_LEN;
      if k <= i {
        MaskedTail(f, k, i);
      } else {
        assert m[i..][0] == 0;
        assert LE32(m[i..]) != DIRECTORY_64_LOC_SIGNATURE by { FirstByte(m[i..]); }
      }
    }
  }

  lemma FirstByte(s: Str)
    requires |s| >= 4
    ensures LE32(s) % 256 == s[0]
  {
  }

  lemma End64Masked(f: Str, k: nat, p: nat, d: End)
    requires k <= |f|
    ensures End64At(Masked(f, k), p, d) == if k <= p then End64At(f, p, d) else None
  {
    hide Masked, LE32, LE64;
    if p + DIRECTORY_64_END_LEN <= |f| {
      if k <= p {
        MaskedTail(f, k, p);
      } else {
        var s := Masked(f, k)[p..];
        assert s[0] == 0 by { MaskedHead(f, k, p); }
        FirstByte(s);
      }
    }
  }

  lemma MaskedHead(f: Str, k: nat, i: nat)
    requires i < k <= |f|
    ensures Masked(f, k)[i] == 0
  {
  }

  /** Which record is used if the first k bytes are zeros. */
  ghost function Seen(f: Str, k: nat): Option<Located>
  {
    match Short(f)
    case None => None
    case Some(short) =>
      if k > short.at then None
      else if Uses64(f, short) && k > LocatorStart(short) then Some(short)
      else if Uses64(f, short) && k > Locate64(f, short.at) then None
      else Final(f, short)
  }

  lemma RecordMasked(f: Str, k: nat)
    requires k <= |f|
    ensures Record(Masked(f, k)) == Seen(f, k)
  {
    hide Masked, Short, Locate64, End64At;
    ShortMasked(f, k);
    if Short(f).Some? && k <= Short(f).value.at {
      FinalMasked(f, k, Short(f).value);
    }
  }

  lemma FinalMasked(f: Str, k: nat, short: Located)
    requires k <= short.at <= |f|
    ensures Final(Masked(f, k), short) ==
      if Uses64(f, short) && k > LocatorStart(short) then Some(short)
      else if Uses64(f, short) && k > Locate64(f, short.at) then None
      else Final(f, short)
  {
    hide Masked, Locate64, End64At;
    Locate64Masked(f, k, short.at);
    if Uses64(f, short) {
      End64Masked(f, k, Locate64(f, short.at), short.end);
    }
  }

  // ---------- Offsets ----------

  lemma SignedOfSmall(n: int)
    requires -TWO_63 <= n < TWO_63
    ensures Signed64(n) == n
  {
  }

  lemma SignedOfSum(a: int, b: int)
    ensures Signed64(Signed64(a) + b) == Signed64(a + b)
  {
    var q := (a + TWO_63) / TWO_64;
    assert Signed64(a) == a - q * TWO_64;
    SignedPeriodic(a + b, -q);
  }

  lemma SignedPeriodic(n: int, q: int)
    ensures Signed64(n + q * TWO_64) == Signed64(n)
  {
    var d, r := (n + TWO_63) / TWO_64, (n + TWO_63) % TWO_64;
    assert n + q * TWO_64 + TWO_63 == (d + q) * TWO_64 + r;
    RemainderIs(d + q, r);
  }

  lemma RemainderIs(d: int, r: int)
    requires 0 <= r < TWO_64
    ensures (d * TWO_64 + r) % TWO_64 == r
  {
  }

  /** Although the computation may wrap around, in what passes the check nothing has. */
  lemma NothingWraps(f: Str, r: Located)
    requires |f| < TWO_63 && r.at < TWO_63
    ensures InFile(f, r) <==> r.end.size < TWO_63 && r.end.offset < TWO_63 && 0 <= r.at - r.end.size < |f|
    ensures InFile(f, r) ==>
      && BaseOffset(r) == r.at - r.end.size - r.end.offset
      && Signed64(BaseOffset(r) + r.end.offset) == r.at - r.end.size
  {
    hide Signed64;
    if r.end.size < TWO_63 && r.end.offset < TWO_63 {
      var x := r.at - r.end.size;
      SignedOfSmall(x);
      SignedOfSum(x - r.end.offset, r.end.offset);
      if 0 <= x {
        SignedOfSmall(x - r.end.offset);
      }
    }
  }

  lemma RecordIsSmall(f: Str)
    requires |f| < TWO_63 && Record(f).Some?
    ensures Record(f).value.at < TWO_63
    ensures var short := Short(f).value;
      short.at <= |f| && Record(f).value.at == if Uses64(f, short) then Locate64(f, short.at) else short.at
  {
    hide Short, Locate64;
    Locate64IsSmall(f, Short(f).value.at);
  }

  lemma Locate64IsSmall(f: Str, at: nat)
    requires at <= |f|
    ensures Locate64(f, at) < TWO_63
  {
    hide Signed64;
    if at >= DIRECTORY_64_LOC_LEN {
      SignedIsSmall(LE64(f[at - DIRECTORY_64_LOC_LEN..][8..]));
    }
  }

  lemma SignedIsSmall(n: int)
    ensures -TWO_63 <= Signed64(n) < TWO_63
  {
  }

  lemma SeenIsSmall(f: Str, k: nat)
    requires |f| < TWO_63 && Seen(f, k).Some?
    ensures Seen(f, k).value.at < TWO_63
  {
    hide Short, Locate64;
    Locate64IsSmall(f, Short(f).value.at);
  }

  // ---------- The directory ----------

  /** A header is seen only if nothing of it is hidden. */
  lemma StartsAtZeroMasked(f: Str, k: nat, r: Located)
    requires k <= |f|
    ensures StartsAtZero(Masked(f, k), r) <==> StartsAtZero(f, r) && k <= r.end.offset
  {
    hide BaseOffset, LE32, Fixed, Extras;
    var off := r.end.offset;
    if k <= off {
      if off <= |f| { MaskedTail(f, k, off); }
    } else if off < |f| {
      var s := From(Masked(f, k), off);
      assert s[0] == 0;
      if |s| >= DIRECTORY_HEADER_LEN { FirstByte(s); }
    }
  }

  /** Whether the header that overrides the base offset is seen. */
  ghost predicate OverrideSeen(f: Str, k: nat, r: Located)
  {
    StartsAtZero(f, r) && k <= r.end.offset
  }

  ghost function BaseSeen(f: Str, k: nat, r: Located): int
  {
    if OverrideSeen(f, k, r) then 0 else r.at - r.end.size - r.end.offset
  }

  /** Where the directory begins according to r. */
  ghost function StartSeen(f: Str, k: nat, r: Located): int
  {
    if OverrideSeen(f, k, r) then r.end.offset else r.at - r.end.size
  }

  lemma InFileMasked(f: Str, k: nat, r: Located)
    requires k <= |f|
    ensures InFile(Masked(f, k), r) == InFile(f, r)
  {
  }

  lemma FindDirectoryMasked(f: Str, k: nat)
    requires k <= |f| < TWO_63
    ensures FindDirectory(Masked(f, k)) ==
      match Seen(f, k)
      case None => None
      case Some(r) => if !InFile(f, r) then None else Some(Directory(r.end, BaseSeen(f, k, r)))
  {
    hide Masked, Seen, Record, StartsAtZero, InFile, BaseOffset;
    RecordMasked(f, k);
    if Seen(f, k).Some? {
      var r := Seen(f, k).value;
      StartsAtZeroMasked(f, k, r);
      InFileMasked(f, k, r);
      SeenIsSmall(f, k);
      NothingWraps(f, r);
    }
  }

  /** A directory that is found begins in the file. */
  lemma StartIs(f: Str, k: nat, r: Located)
    requires |f| < TWO_63 && r.at < TWO_63 && InFile(f, r)
    ensures Start(Directory(r.end, BaseSeen(f, k, r))) == StartSeen(f, k, r)
    ensures 0 <= StartSeen(f, k, r) < |f| && StartSeen(f, k, r) <= r.at
    ensures OverrideSeen(f, k, r) ==> StartSeen(f, k, r) < r.at - r.end.size
  {
    hide Signed64, ReadHeader, From;
    NothingWraps(f, r);
    SignedOfSmall(StartSeen(f, k, r));
  }

  // ---------- What is read if the first k bytes are zeros ----------

  /** The size of the table of contents, for any number of hidden bytes. */
  lemma TocSizeMasked(f: Str, k: nat)
    requires k <= |f| < TWO_63
    ensures TocSize(Masked(f, k)) ==
      match Seen(f, k)
      case None => None
      case Some(r) => if !InFile(f, r) then None else Some(|f| - StartSeen(f, k, r))
  {
    hide Masked, Seen, FindDirectory, InFile, Start, Signed64, BaseSeen, StartSeen;
    FindDirectoryMasked(f, k);
    if Seen(f, k).Some? && InFile(f, Seen(f, k).value) {
      var r := Seen(f, k).value;
      SeenIsSmall(f, k);
      StartIs(f, k, r);
      SignedOfSmall(|f| - StartSeen(f, k, r));
    }
  }

  /** The table of contents according to r; a directory that begins in the zeros has no headers. */
  ghost function TocSeen(f: Str, k: nat, r: Located): Option<Toc>
  {
    if !InFile(f, r) then None
    else
      var start, base := StartSeen(f, k, r), BaseSeen(f, k, r);
      match if start < k then Some([]) else Headers(From(f, start), base)
      case None => None
      case Some(files) =>
        if |files| % 0x1_0000 != r.end.records % 0x1_0000 then None else Some(Toc(files, base, r.end.comment))
  }

  /** The table of contents, for any number of hidden bytes. */
  lemma ParseTocMasked(f: Str, k: nat)
    requires k <= |f| < TWO_63
    ensures ParseToc(Masked(f, k)) ==
      match Seen(f, k)
      case None => None
      case Some(r) => TocSeen(f, k, r)
  {
    hide Masked, Seen, FindDirectory, InFile, Start, BaseSeen, StartSeen, Headers, From;
    FindDirectoryMasked(f, k);
    if Seen(f, k).Some? && InFile(f, Seen(f, k).value) {
      var r := Seen(f, k).value;
      SeenIsSmall(f, k);
      StartIs(f, k, r);
      HeadersMasked(f, k, StartSeen(f, k, r), BaseSeen(f, k, r));
    }
  }

  lemma HeadersMasked(f: Str, k: nat, start: nat, base: int)
    requires k <= |f| && start < |f|
    ensures Headers(From(Masked(f, k), start), base) == if start < k then Some([]) else Headers(From(f, start), base)
  {
    hide Masked, LE32, Fixed, Extras;
    if start < k {
      var s := From(Masked(f, k), start);
      assert s[0] == 0 by { MaskedHead(f, k, start); }
      if |s| >= DIRECTORY_HEADER_LEN { FirstByte(s); }
    } else {
      MaskedTail(f, k, start);
    }
  }

  lemma NothingMasked(f: Str)
    ensures Masked(f, 0) == f && Seen(f, 0) == Record(f)
  {
    hide Short, Locate64, End64At;
    if Short(f).Some? && Uses64(f, Short(f).value) { LocatorFits(f, Short(f).value.at); }
  }

  lemma LocatorFits(f: Str, at: nat)
    requires at <= |f| && Locate64(f, at) >= 0
    ensures at >= DIRECTORY_64_LOC_LEN
  {
  }

  /** The file as it is seen if only toc, its last bytes, is there. */
  ghost function Padded(size: nat, toc: Str): Str
    requires |toc| <= size
  {
    Zeros(size - |toc|) + toc
  }

  lemma PaddedIsMasked(f: Str, n: nat)
    requires n <= |f|
    ensures Padded(|f|, f[|f| - n..]) == Masked(f, |f| - n)
  {
  }

  // ---------- Theorems ----------

  /** Where the directory of the whole file begins. */
  ghost function StartOf(f: Str): int
    requires Record(f).Some?
  {
    StartSeen(f, 0, Record(f).value)
  }

  lemma TocSizeIs(f: Str)
    requires |f| < TWO_63
    ensures TocSize(f) == if Record(f).Some? && InFile(f, Record(f).value) then Some(|f| - StartOf(f)) else None
    ensures TocSize(f).Some? ==> 0 <= StartOf(f) <= Record(f).value.at
  {
    hide Masked, Seen, Record, InFile, StartSeen, TocSize;
    NothingMasked(f);
    TocSizeMasked(f, 0);
    if Record(f).Some? && InFile(f, Record(f).value) {
      SeenIsSmall(f, 0);
      StartIs(f, 0, Record(f).value);
    }
  }

  /** The locator of a long record is part of what is asked for. */
  ghost predicate LocatorInToc(f: Str)
    requires Record(f).Some?
  {
    Uses64(f, Short(f).value) ==> StartOf(f) <= LocatorStart(Short(f).value)
  }

  /** So it is if the long record is before its locator. */
  lemma RecordBeforeLocator(f: Str)
    requires |f| < TWO_63 && TocSize(f).Some? && Record(f).Some?
    requires Uses64(f, Short(f).value) ==> Locate64(f, Short(f).value.at) <= LocatorStart(Short(f).value)
    ensures LocatorInToc(f)
  {
    hide Short, Locate64, Record, TocSize, StartOf;
    TocSizeIs(f);
    RecordIsSmall(f);
  }

  /** As many bytes as TocSize asks for, or more, are as good as the whole file. */
  lemma SuffixSuffices(f: Str, n: nat)
    requires |f| < TWO_63 && TocSize(f).Some? && TocSize(f).value <= n <= |f|
    requires Record(f).Some? && LocatorInToc(f)
    ensures ParseToc(Padded(|f|, f[|f| - n..])) == ParseToc(f)
    ensures TocSize(Padded(|f|, f[|f| - n..])) == TocSize(f)
  {
    hide *;
    var k := |f| - n;
    PaddedIsMasked(f, n);
    NothingMasked(f);
    TocSizeIs(f);
    SameSeen(f, k);
    TocSizeMasked(f, k);
    TocSizeMasked(f, 0);
    ParseTocMasked(f, k);
    ParseTocMasked(f, 0);
  }

  /** The record that is used, and what it says, are the same for what is asked for. */
  lemma SameSeen(f: Str, k: nat)
    requires |f| < TWO_63 && TocSize(f).Some? && Record(f).Some? && LocatorInToc(f) && k <= StartOf(f)
    ensures Seen(f, k) == Record(f)
    ensures var r := Record(f).value;
      StartSeen(f, k, r) == StartSeen(f, 0, r) && TocSeen(f, k, r) == TocSeen(f, 0, r)
  {
    hide Short, Locate64, TocSize, StartsAtZero, InFile, Headers, From, Final, End64At;
    TocSizeIs(f);
    RecordIsSmall(f);
  }

  /** Otherwise either there is no end of the directory in what is asked for, or a long record is
      taken for a short one, and the results agree only if that says the same. */
  lemma HiddenLocator(f: Str)
    requires |f| < TWO_63 && TocSize(f).Some? && Record(f).Some?
    ensures 0 <= StartOf(f) <= |f|
    ensures var k, short := StartOf(f), Short(f).value;
      ParseToc(Padded(|f|, f[k..])) ==
        if LocatorInToc(f) then ParseToc(f) else if k > short.at then None else TocSeen(f, k, short)
    ensures var k, short, long := StartOf(f), Short(f).value, Record(f).value;
      ParseToc(Padded(|f|, f[k..])) == ParseToc(f) <==>
        || LocatorInToc(f)
        || (if k > short.at then TocSeen(f, 0, long) == None else TocSeen(f, k, short) == TocSeen(f, 0, long))
  {
    hide Short, Locate64, TocSize, StartOf, Masked, Padded, TocSeen, ParseToc, InFile, Record, Final;
    NothingMasked(f);
    ParseTocMasked(f, 0);
    TocSizeIs(f);
    var k := StartOf(f);
    TocSizeBound(f);
    PaddedIsMasked(f, |f| - k);
    ParseTocMasked(f, k);
    if LocatorInToc(f) { SuffixSuffices(f, |f| - k); } else { HiddenRecord(f, k); }
  }

  /** If the locator is hidden, the short record is used. */
  lemma HiddenRecord(f: Str, k: nat)
    requires Record(f).Some? && Uses64(f, Short(f).value) && k > LocatorStart(Short(f).value)
    ensures Seen(f, k) == if k > Short(f).value.at then None else Short(f)
  {
    hide Short, Locate64;
  }

  lemma TocSizeBound(f: Str)
    requires TocSize(f).Some?
    ensures TocSize(f).value <= |f|
  {
  }

  // ---------- Sizes from footers ----------

  /** Whether a footer, behind k bytes that are not in it, is enough to compute the size.  If it hides
      the locator of a long record, the short record must happen to say the same.  Else the long
      record must be in it, and a header that overrides the base offset as well. */
  ghost predicate FooterEnough(f: Str, k: nat)
    requires Record(f).Some?
  {
    var short, r := Short(f).value, Record(f).value;
    && k <= short.at
    && if Uses64(f, short) && k > LocatorStart(short) then
         InFile(f, short) && StartSeen(f, k, short) == StartOf(f)
       else
         && (Uses64(f, short) ==> k <= Locate64(f, short.at))
         && (StartsAtZero(f, r) ==> k <= r.end.offset)
  }

  /** The size that a footer gives is that of the whole file exactly if the footer is enough. */
  lemma SizeFromFooter(f: Str, n: nat)
    requires |f| < TWO_63 && n <= |f| && TocSize(f).Some? && Record(f).Some?
    ensures TocSize(Padded(|f|, f[|f| - n..])) == TocSize(f) <==> FooterEnough(f, |f| - n)
  {
    hide Masked, Padded, TocSize, InFile, Short, Locate64, Final, StartsAtZero;
    var k := |f| - n;
    PaddedIsMasked(f, n);
    TocSizeIs(f);
    TocSizeMasked(f, k);
    RecordIsSmall(f);
    StartIs(f, 0, Record(f).value);
  }

  /** What can be checked in the footer alone: the end record is in it and cannot be a long one, or
      its locator, and the long record if there is one, are in the footer too. */
  ghost predicate FooterShowsEnd(m: Str, k: nat)
  {
    && Short(m).Some?
    && var short := Short(m).value;
       && k <= short.at
       && (MayBe64(short.end) ==> k <= LocatorStart(short) && (Locate64(m, short.at) >= 0 ==> k <= Locate64(m, short.at)))
  }

  /** Then only a header that overrides the base offset can be missed, and too little is asked for. */
  lemma SizeFromEnd(f: Str, n: nat)
    requires |f| < TWO_63 && n <= |f| && FooterShowsEnd(Padded(|f|, f[|f| - n..]), |f| - n)
    ensures var t, u := TocSize(f), TocSize(Padded(|f|, f[|f| - n..]));
      if Record(f).Some? && InFile(f, Record(f).value) && StartsAtZero(f, Record(f).value) && |f| - n > Record(f).value.end.offset
      then t.Some? && u.Some? && u.value < t.value
      else u == t
  {
    hide Masked, Padded, TocSize, InFile, Short, Locate64, Final, StartsAtZero, MayBe64;
    var k := |f| - n;
    PaddedIsMasked(f, n);
    ShortMasked(f, k);
    Locate64Masked(f, k, Short(f).value.at);
    TocSizeIs(f);
    TocSizeMasked(f, k);
    if Record(f).Some? && InFile(f, Record(f).value) {
      RecordIsSmall(f);
      StartIs(f, 0, Record(f).value);
    }
  }

  /** Two requests are enough: for a footer, and for what it asks for. */
  lemma TwoRequests(f: Str, n: nat)
    requires |f| < TWO_63 && n <= |f| && TocSize(f).Some? && Record(f).Some? && LocatorInToc(f)
    requires FooterEnough(f, |f| - n)
    ensures var u := TocSize(Padded(|f|, f[|f| - n..]));
      u.Some? && u.value <= |f| && ParseToc(Padded(|f|, f[|f| - u.value..])) == ParseToc(f)
  {
    hide *;
    SizeFromFooter(f, n);
    TocSizeBound(f);
    SuffixSuffices(f, TocSize(f).value);
  }
}
