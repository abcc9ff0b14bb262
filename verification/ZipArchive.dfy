/**
 Archives, written record by record, have the table of contents that was written.
 */
module ZipArchive {
  import opened Wrappers
  import opened Bytes
  import opened ZipSpec
  import opened ZipSuffix
  import opened ZipWritten

  // ---------- The end record ----------

  ghost predicate EndSignature(f: Str, i: nat)
    requires i + 22 <= |f|
  {
    f[i..i + 4] == Ascii("PK") + [5, 6]
  }

  /** The last signature of the file that is far enough from its end. */
  ghost predicate LastSignature(f: Str, at: nat)
  {
    at + 22 <= |f| && EndSignature(f, at) && forall j :: at < j <= |f| - 22 ==> !EndSignature(f, j)
  }

  lemma SameSignature(f: Str, i: nat)
    requires i + 22 <= |f|
    ensures SignatureAt(f, i) <==> EndSignature(f, i)
  {
    var q := Ascii("PK") + [5, 6];
    assert |q| == 4 && q[0] == 0x50 && q[1] == 0x4b && q[2] == 5 && q[3] == 6;
    hide Ascii;
    FirstFour(f[i..], q);
    assert f[i..][..4] == f[i..i + 4];
  }

  lemma {:induction false} FindFromIs(f: Str, i: nat, at: nat)
    requires at <= i && i + 22 <= |f|
    ensures FindFrom(f, i) == at <==>
      EndSignature(f, at) && EndFits(f, at) && forall j :: at < j <= i ==> !EndSignature(f, j)
    decreases i
  {
    hide SignatureAt, EndSignature, FindFrom, LE16;
    SameSignature(f, i);
    FindStep(f, i);
    if i > at { FindFromIs(f, i - 1, at); }
  }

  lemma InTail(f: Str, m: nat, at: nat)
    requires m <= at && m <= |f|
    ensures LastSignature(f[m..], at - m) <==> LastSignature(f, at)
    ensures EndFits(f[m..], at - m) <==> EndFits(f, at)
  {
    hide LE16, EndSignature;
    var b := f[m..];
    if at + 22 <= |f| {
      assert b[at - m + 20..] == f[at + 20..];
    }
    forall j | m <= j <= |f| - 22 ensures EndSignature(b, j - m) <==> EndSignature(f, j) {
      SignatureInTail(f, m, j);
    }
    forall j | 0 <= j <= |b| - 22 ensures EndSignature(b, j) <==> EndSignature(f, j + m) {
      SignatureInTail(f, m, j + m);
    }
  }

  lemma SignatureInTail(f: Str, m: nat, j: nat)
    requires m <= j && j + 22 <= |f|
    ensures EndSignature(f[m..], j - m) <==> EndSignature(f, j)
  {
    assert f[m..][j - m..j - m + 4] == f[j..j + 4];
  }

  lemma FindInLastIs(f: Str, n: nat, at: nat)
    requires n <= |f|
    ensures FindInLast(f, n) == Some(at) <==> |f| - n <= at && LastSignature(f, at) && EndFits(f, at)
  {
    hide SignatureAt, EndSignature, FindFrom, LE16;
    var m := |f| - n;
    if m <= at && at + 22 <= |f| {
      FindFromIs(f[m..], n - 22, at - m);
      InTail(f, m, at);
    }
  }

  /** The end record that is found: the last signature, in the last 65 KiB, unless its comment is cut off. */
  lemma FindEndIs(f: Str, at: nat)
    ensures FindEnd(f) == Some(at) <==>
      |f| - at <= 0x1_0400 && LastSignature(f, at) && at + 22 + f[at + 20] as int + f[at + 21] as int * 256 <= |f|
  {
    hide LastSignature, EndFits, FindInLast;
    hide LE16;
    FindInLastIs(f, Least(1024, |f|), at);
    FindInLastIs(f, Least(65 * 1024, |f|), at);
    FitsIs(f, at);
    if FindInLast(f, Least(1024, |f|)).Some? {
      var p := FindInLast(f, Least(1024, |f|)).value;
      FindInLastIs(f, Least(1024, |f|), p);
      OneLast(f, at, p);
    }
  }

  lemma FitsIs(f: Str, at: nat)
    ensures LastSignature(f, at) ==>
      at + 22 <= |f| && (EndFits(f, at) <==> at + 22 + f[at + 20] as int + f[at + 21] as int * 256 <= |f|)
  {
    hide EndSignature;
  }

  lemma OneLast(f: Str, at: nat, p: nat)
    ensures LastSignature(f, at) && LastSignature(f, p) ==> at == p
  {
    hide EndSignature;
  }

  /** The fields of the end record fit. */
  ghost predicate EndFields(d: End)
  {
    && d.diskNbr < 0x1_0000 && d.dirDiskNbr < 0x1_0000 && d.recordsThisDisk < 0x1_0000 && d.records < 0x1_0000
    && d.size < TWO_32 && d.offset < TWO_32 && |d.comment| < 0x1_0000
  }

  ghost function EndWritten(d: End, t: Str): Str
  {
    Ascii("PK") + ([5, 6] + (Bytes2(d.diskNbr) + (Bytes2(d.dirDiskNbr) + (Bytes2(d.recordsThisDisk) + Totals(d, t)))))
  }

  ghost function Totals(d: End, t: Str): Str
  {
    Bytes2(d.records) + (Bytes4(d.size) + (Bytes4(d.offset) + (Bytes2(|d.comment|) + (d.comment + t))))
  }

  lemma TotalsRead(d: End, t: Str)
    requires EndFields(d)
    ensures var s := Totals(d, t);
      && |s| >= 12 && LE16(s) == d.records && LE32(s[2..]) == d.size && LE32(s[6..]) == d.offset
      && LE16(s[10..]) == |d.comment| && s[12..] == d.comment + t
  {
    hide Bytes2, Bytes4, LE16, LE32;
    var t4 := d.comment + t;
    var t3 := Bytes2(|d.comment|) + t4;
    var t2 := Bytes4(d.offset) + t3;
    var t1 := Bytes4(d.size) + t2;
    var s := Bytes2(d.records) + t1;
    Behind(s, 0, Bytes2(d.records), t1);
    Behind(s, 2, Bytes4(d.size), t2);
    Behind(s, 6, Bytes4(d.offset), t3);
    Behind(s, 10, Bytes2(|d.comment|), t4);
    LE16Written(d.records, t1);
    LE32Written(d.size, t2);
    LE32Written(d.offset, t3);
    LE16Written(|d.comment|, t4);
  }

  lemma DisksRead(d: End, t: Str)
    requires EndFields(d)
    ensures var s := EndWritten(d, t);
      && |s| >= 10 && s[..4] == Ascii("PK") + [5, 6] && LE16(s[4..]) == d.diskNbr && LE16(s[6..]) == d.dirDiskNbr
      && LE16(s[8..]) == d.recordsThisDisk && s[10..] == Totals(d, t)
  {
    hide Bytes2, LE16, Totals, Ascii;
    var t3 := Totals(d, t);
    var t2 := Bytes2(d.recordsThisDisk) + t3;
    var t1 := Bytes2(d.dirDiskNbr) + t2;
    var t0 := Bytes2(d.diskNbr) + t1;
    var s := EndWritten(d, t);
    assert s == (Ascii("PK") + [5, 6]) + t0;
    Behind(s, 0, Ascii("PK") + [5, 6], t0);
    Behind(s, 4, Bytes2(d.diskNbr), t1);
    Behind(s, 6, Bytes2(d.dirDiskNbr), t2);
    Behind(s, 8, Bytes2(d.recordsThisDisk), t3);
    LE16Written(d.diskNbr, t1);
    LE16Written(d.dirDiskNbr, t2);
    LE16Written(d.recordsThisDisk, t3);
  }

  lemma EndRead(f: Str, at: nat, d: End, t: Str)
    requires EndFields(d) && at <= |f| && f[at..] == EndWritten(d, t)
    ensures EndFits(f, at) && EndAt(f, at) == d
    ensures at + 22 <= |f| && EndSignature(f, at)
  {
    hide LE16, LE32, Totals, EndWritten, Ascii;
    DisksRead(d, t);
    TotalsRead(d, t);
    var s := EndWritten(d, t);
    Part(s, 10, Totals(d, t));
    Part(f, at, s);
    var n := |d.comment|;
    assert s[22..] == d.comment + t;
    assert f[at + 22..at + 22 + n] == f[at + 22..][..n] == d.comment;
    assert f[at..at + 4] == s[..4];
  }

  // ---------- zip64 ----------

  ghost function Locator(p: nat): (s: Str)
    ensures |s| == 20
  {
    (Ascii("PK") + [6, 7]) + ([0, 0, 0, 0] + (Bytes8(p) + [1, 0, 0, 0]))
  }

  /** Only these 20 bytes in front of the end record lead to p. */
  lemma LocatorIs(f: Str, at: nat, p: nat)
    requires at <= |f| && p < TWO_63
    ensures Locate64(f, at) == p <==> at >= 20 && f[at - 20..at] == Locator(p)
  {
    if at >= 20 {
      hide LE32, LE64, Bytes4, Bytes8, Signed64, Ascii, Locator;
      var b := f[at - 20..];
      assert f[at - 20..at] == b[..20];
      LocatorParts(b, p);
      NoSignature(b, 6, 7);
      Is32(b[4..], 0);
      Is32(b[16..], 1);
      Is64(b[8..], p);
    }
  }

  lemma LocatorParts(b: Str, p: nat)
    requires |b| >= 20
    ensures b[..20] == Locator(p) <==>
      && b[..4] == Ascii("PK") + [6, 7] && b[4..][..4] == [0, 0, 0, 0]
      && b[8..][..8] == Bytes8(p) && b[16..][..4] == [1, 0, 0, 0]
  {
    hide Ascii, Bytes8;
    var b1, b2, b3, b4 := b[..4], b[4..][..4], b[8..][..8], b[16..][..4];
    var c := b[..20];
    assert c == b1 + (b2 + (b3 + b4));
    var q1, q2, q3, q4 := Ascii("PK") + [6, 7], [0, 0, 0, 0], Bytes8(p), [1, 0, 0, 0];
    var q := Locator(p);
    assert c[..4] == b1 && c[4..8] == b2 && c[8..16] == b3 && c[16..] == b4;
    assert q[..4] == q1 && q[4..8] == q2 && q[8..16] == q3 && q[16..] == q4;
  }

  lemma Is32(s: Str, n: Byte)
    requires |s| >= 4
    ensures LE32(s) == n <==> s[..4] == [n, 0, 0, 0]
  {
    hide LE32;
    Bytes4OfLE32(s);
    LE32Written(n, s[4..]);
    assert Bytes4(n) == [n, 0, 0, 0];
    assert s[..4] + s[4..] == s;
  }

  lemma Is64(s: Str, p: nat)
    requires |s| >= 8 && p < TWO_63
    ensures Signed64(LE64(s)) == p <==> s[..8] == Bytes8(p)
  {
    hide LE64, Bytes8;
    Bytes8OfLE64(s);
    LE64Written(p, s[8..]);
    assert s[..8] + s[8..] == s;
  }

  /** A locator leads somewhere exactly if it is one of these. */
  lemma LocatorsAre(f: Str, at: nat)
    requires at <= |f|
    ensures Locate64(f, at) >= 0 <==> at >= 20 && exists p: nat :: p < TWO_63 && f[at - 20..at] == Locator(p)
  {
    hide Locate64, Locator;
    Locate64IsSmall(f, at);
    if Locate64(f, at) >= 0 {
      LocatorIs(f, at, Locate64(f, at));
    }
    if at >= 20 {
      forall p: nat | p < TWO_63 && f[at - 20..at] == Locator(p) ensures Locate64(f, at) >= 0 {
        LocatorIs(f, at, p);
      }
    }
  }

  ghost predicate LongFields(e: End)
  {
    && e.diskNbr < TWO_32 && e.dirDiskNbr < TWO_32 && e.recordsThisDisk < TWO_64 && e.records < TWO_64
    && e.size < TWO_64 && e.offset < TWO_64
  }

  /** The long record, with its own size and two versions, which are not used. */
  ghost function LongWritten(e: End, own: nat, made: nat, needed: nat, t: Str): Str
  {
    Ascii("PK") + ([6, 6] + (Bytes8(own) + (Bytes2(made) + (Bytes2(needed) + LongDisks(e, t)))))
  }

  ghost function LongDisks(e: End, t: Str): Str
  {
    Bytes4(e.diskNbr) + (Bytes4(e.dirDiskNbr) + (Bytes8(e.recordsThisDisk) + LongTotals(e, t)))
  }

  ghost function LongTotals(e: End, t: Str): Str
  {
    Bytes8(e.records) + (Bytes8(e.size) + (Bytes8(e.offset) + t))
  }

  lemma LongRead(f: Str, p: nat, e: End, own: nat, made: nat, needed: nat, t: Str, d: End)
    requires LongFields(e) && p <= |f| && f[p..] == LongWritten(e, own, made, needed, t)
    ensures End64At(f, p, d) == Some(e.(comment := d.comment))
  {
    hide LE32, LE64, Bytes8, Bytes4, Bytes2, LongDisks, LongTotals, Ascii;
    LongFront(e, own, made, needed, t);
    LongDisksRead(e, t);
    LongTotalsRead(e, t);
    var s := f[p..];
    Part(s, 16, LongDisks(e, t));
    Part(s, 32, LongTotals(e, t));
  }

  lemma LongFront(e: End, own: nat, made: nat, needed: nat, t: Str)
    ensures var s := LongWritten(e, own, made, needed, t);
      |s| >= 16 && LE32(s) == DIRECTORY_64_END_SIGNATURE && s[16..] == LongDisks(e, t)
  {
    hide LE32, Bytes8, Bytes2, LongDisks, Ascii;
    var t3 := LongDisks(e, t);
    var t2 := Bytes2(needed) + t3;
    var t1 := Bytes2(made) + t2;
    var t0 := Bytes8(own) + t1;
    var s := LongWritten(e, own, made, needed, t);
    Signature(6, 6, t0);
    Behind(s, 4, Bytes8(own), t1);
    Behind(s, 12, Bytes2(made), t2);
    Behind(s, 14, Bytes2(needed), t3);
  }

  lemma LongDisksRead(e: End, t: Str)
    requires LongFields(e)
    ensures var s := LongDisks(e, t);
      && |s| >= 16 && LE32(s) == e.diskNbr && LE32(s[4..]) == e.dirDiskNbr
      && LE64(s[8..]) == e.recordsThisDisk && s[16..] == LongTotals(e, t)
  {
    hide LE32, LE64, Bytes8, Bytes4, LongTotals;
    var t2 := LongTotals(e, t);
    var t1 := Bytes8(e.recordsThisDisk) + t2;
    var t0 := Bytes4(e.dirDiskNbr) + t1;
    var s := LongDisks(e, t);
    Behind(s, 0, Bytes4(e.diskNbr), t0);
    Behind(s, 4, Bytes4(e.dirDiskNbr), t1);
    Behind(s, 8, Bytes8(e.recordsThisDisk), t2);
    LE32Written(e.diskNbr, t0);
    LE32Written(e.dirDiskNbr, t1);
    LE64Written(e.recordsThisDisk, t2);
  }

  lemma LongTotalsRead(e: End, t: Str)
    requires LongFields(e)
    ensures var s := LongTotals(e, t);
      && |s| >= 24 && LE64(s) == e.records && LE64(s[8..]) == e.size && LE64(s[16..]) == e.offset
  {
    hide LE64, Bytes8;
    var t1 := Bytes8(e.offset) + t;
    var t0 := Bytes8(e.size) + t1;
    var s := LongTotals(e, t);
    Behind(s, 0, Bytes8(e.records), t0);
    Behind(s, 8, Bytes8(e.size), t1);
    LE64Written(e.records, t0);
    LE64Written(e.size, t1);
    LE64Written(e.offset, t);
  }

  /** The long record is missing exactly if it does not fit or begins with other bytes. */
  lemma LongMissing(f: Str, p: nat, d: End)
    ensures End64At(f, p, d).None? <==> p + 56 > |f| || f[p..p + 4] != Ascii("PK") + [6, 6]
  {
    hide LE32, LE64, Ascii;
    if p + 56 <= |f| {
      NoSignature(f[p..], 6, 6);
      assert f[p..][..4] == f[p..p + 4];
    }
  }

  // ---------- Which record counts ----------

  /** The fields at their limits, in the bytes of the end record; the size is compared with 16 bits. */
  ghost predicate AtLimit(f: Str, at: nat)
    requires at + 22 <= |f|
  {
    f[at + 10..at + 12] == [255, 255] || f[at + 12..at + 16] == [255, 255, 0, 0] || f[at + 16..at + 20] == [255, 255, 255, 255]
  }

  lemma LimitIs(f: Str, at: nat)
    requires EndFits(f, at)
    ensures AtLimit(f, at) <==> MayBe64(EndAt(f, at))
  {
    hide LE16, LE32;
    Is16Limit(f[at + 10..]);
    Is32Limits(f[at + 12..]);
    Is32Limits(f[at + 16..]);
    assert f[at + 10..at + 12] == f[at + 10..][..2];
    assert f[at + 12..at + 16] == f[at + 12..][..4];
    assert f[at + 16..at + 20] == f[at + 16..][..4];
  }

  lemma Is16Limit(s: Str)
    requires |s| >= 2
    ensures LE16(s) == 0xffff <==> s[..2] == [255, 255]
  {
    assert s[..2] == [s[0], s[1]];
  }

  lemma Is32Limits(s: Str)
    requires |s| >= 4
    ensures LE32(s) == 0xffff <==> s[..4] == [255, 255, 0, 0]
    ensures LE32(s) == 0xffff_ffff <==> s[..4] == [255, 255, 255, 255]
  {
    FirstFour(s, [255, 255, 0, 0]);
    FirstFour(s, [255, 255, 255, 255]);
  }

  /** With a locator and a long record, the long one counts exactly if one of the three fields of the
      short one is at its limit. */
  lemma LongOrShort(f: Str, at: nat, d: End, t: Str, p: nat, e: End, own: nat, made: nat, needed: nat, u: Str)
    requires FindEnd(f) == Some(at) && at >= 20 && f[at - 20..at] == Locator(p) && p < TWO_63
    requires EndFields(d) && f[at..] == EndWritten(d, t)
    requires LongFields(e) && p <= |f| && f[p..] == LongWritten(e, own, made, needed, u)
    ensures Record(f) == Some(if AtLimit(f, at) then Located(p, e.(comment := d.comment)) else Located(at, d))
  {
    hide EndWritten, LongWritten, Locator, Locate64, End64At, FindEnd, AtLimit, MayBe64, EndAt;
    EndRead(f, at, d, t);
    LimitIs(f, at);
    LocatorIs(f, at, p);
    LongRead(f, p, e, own, made, needed, u, d);
  }

  /** Without a limit or without a locator the short record counts. */
  lemma OnlyShort(f: Str, at: nat, d: End, t: Str)
    requires FindEnd(f) == Some(at) && EndFields(d) && f[at..] == EndWritten(d, t)
    requires at + 22 <= |f| ==> !AtLimit(f, at) || at < 20 || forall p: nat :: p < TWO_63 ==> f[at - 20..at] != Locator(p)
    ensures Record(f) == Some(Located(at, d))
  {
    hide EndWritten, Locator, Locate64, End64At, FindEnd, AtLimit, MayBe64, EndAt;
    EndRead(f, at, d, t);
    LimitIs(f, at);
    LocatorsAre(f, at);
  }

  /** A locator that leads to something else makes the archive unreadable if there is a limit. */
  lemma NoLongRecord(f: Str, at: nat, p: nat)
    requires FindEnd(f) == Some(at) && at >= 20 && f[at - 20..at] == Locator(p) && p < TWO_63
    requires p + 56 > |f| || f[p..p + 4] != Ascii("PK") + [6, 6]
    ensures at + 22 <= |f| && (Record(f).None? <==> AtLimit(f, at))
  {
    hide Locator, Locate64, End64At, FindEnd, AtLimit, MayBe64, EndAt, Ascii;
    LimitIs(f, at);
    LocatorIs(f, at, p);
    LongMissing(f, p, EndAt(f, at));
  }
}
