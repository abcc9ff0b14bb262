/**
 The boxes that describe items, written in all versions and widths, are read as what was written.
 */
module BmffItemsWritten {
  import opened Wrappers
  import opened Bytes
  import opened Bmff
  import opened BmffWritten

  // ---------- infe ----------

  function StringWritten(v: Str, t: Str): Str
  {
    v + ([0] + t)
  }

  /** The strings after the type, which begins the name. */
  ghost function StringsWritten(typ: Tag, name: Str, x: Strings, t: Str): Str
  {
    typ + StringWritten(name,
      if typ == MIME then
        StringWritten(x.contentType, if x.contentEncoding == [] then [] else StringWritten(x.contentEncoding, t))
      else if typ == URI then StringWritten(x.uriType, t)
      else t)
  }

  /** Only the strings for the type are there; an empty encoding is left out. */
  ghost predicate StringsFit(typ: Tag, x: Strings)
  {
    && 0 !in x.contentType && 0 !in x.contentEncoding && 0 !in x.uriType
    && (typ != MIME ==> x.contentType == x.contentEncoding == [])
    && (typ != URI ==> x.uriType == [])
  }

  lemma ReadStringsWritten(typ: Tag, name: Str, x: Strings, t: Str)
    requires 0 !in typ && 0 !in name && StringsFit(typ, x) && x.name == typ + name
    ensures EntryStrings(typ, StringsWritten(typ, name, x, t)) == Some(x)
  {
    hide TakeString;
    var s := StringsWritten(typ, name, x, t);
    if typ == MIME {
      var u := if x.contentEncoding == [] then [] else StringWritten(x.contentEncoding, t);
      assert s == x.name + ([0] + StringWritten(x.contentType, u));
      TakeStringWritten(x.name, StringWritten(x.contentType, u));
      TakeStringWritten(x.contentType, u);
      TakeStringWritten(x.contentEncoding, t);
    } else if typ == URI {
      assert s == x.name + ([0] + StringWritten(x.uriType, t));
      TakeStringWritten(x.name, StringWritten(x.uriType, t));
      TakeStringWritten(x.uriType, t);
    } else {
      assert s == x.name + ([0] + t);
      TakeStringWritten(x.name, t);
    }
  }

  ghost function InfeWritten(flags: nat, i: ItemInfo, name: Str, t: Str): Str
  {
    FullWritten(Full(2, flags), BE16(i.id) + (BE16(i.protection) + StringsWritten(i.typ, name, i.strings, t)))
  }

  ghost predicate InfoFits(i: ItemInfo, name: Str)
  {
    && i.id < 0x1_0000 && i.protection < 0x1_0000
    && 0 !in i.typ && 0 !in name && StringsFit(i.typ, i.strings) && i.strings.name == i.typ + name
  }

  lemma ReadInfeWritten(flags: nat, i: ItemInfo, name: Str, t: Str)
    requires InfoFits(i, name)
    ensures ParseItemInfoEntry(InfeWritten(flags, i, name, t)) == Some(i)
  {
    hide EntryStrings, StringsFit, U16, BE16;
    var v := StringsWritten(i.typ, name, i.strings, t);
    var s := InfeWritten(flags, i, name, t);
    assert s[4..] == BE16(i.id) + (BE16(i.protection) + v) && s[6..] == BE16(i.protection) + v && s[8..] == v;
    assert s[8..12] == i.typ && s[0] == 2;
    U16OfBE16(i.id, BE16(i.protection) + v);
    U16OfBE16(i.protection, v);
    ReadStringsWritten(i.typ, name, i.strings, t);
  }

  /** Other versions are errors. */
  lemma OtherInfe(f: Full, t: Str)
    requires f.version != 2
    ensures ParseItemInfoEntry(FullWritten(f, t)) == None
  {
  }

  // ---------- ipma ----------

  ghost function AssociationWritten(wide: bool, a: Association, t: Str): Str
  {
    if wide then BE16((if a.essential then 0x8000 else 0) + a.index) + t
    else [((if a.essential then 128 else 0) + a.index) % 256] + t
  }

  ghost predicate IndexFits(wide: bool, a: Association)
  {
    a.index < if wide then 0x8000 else 128
  }

  lemma TakeAssociationWritten(wide: bool, a: Association, t: Str)
    requires IndexFits(wide, a)
    ensures TakeAssociation(wide, AssociationWritten(wide, a, t)) == Some(Read(a, t))
  {
    var s := AssociationWritten(wide, a, t);
    if wide {
      WideBytes(if a.essential then 128 else 0, a.index);
      hide BE16;
      assert s[2..] == t;
      DivMod256(a.index / 256, a.index % 256);
    } else {
      assert s[1..] == t;
    }
  }

  lemma WideBytes(flag: nat, index: nat)
    requires (flag == 0 || flag == 128) && index < 0x8000
    ensures BE16(flag * 256 + index) == [flag + index / 256, index % 256]
  {
    DivMod256(flag + index / 256, index % 256);
  }

  ghost function AssociationsWritten(wide: bool, a: seq<Association>, t: Str): Str
  {
    if a == [] then t else AssociationWritten(wide, a[0], AssociationsWritten(wide, a[1..], t))
  }

  lemma {:induction false} TakeAssociationsWritten(wide: bool, a: seq<Association>, t: Str)
    requires forall i :: 0 <= i < |a| ==> IndexFits(wide, a[i])
    ensures TakeAssociations(wide, |a|, AssociationsWritten(wide, a, t)) == Some(Read(a, t))
  {
    if a != [] {
      hide AssociationWritten, TakeAssociation, IndexFits;
      TakeAssociationsWritten(wide, a[1..], t);
      TakeAssociationWritten(wide, a[0], AssociationsWritten(wide, a[1..], t));
      assert [a[0]] + a[1..] == a;
    }
  }

  ghost predicate EntryFits(f: Full, e: Entry)
  {
    && e.id < (if f.version < 1 then 0x1_0000 else TWO_32) && |e.associations| < 256
    && forall i :: 0 <= i < |e.associations| ==> IndexFits(f.flags % 2 == 1, e.associations[i])
  }

  ghost function EntryWritten(f: Full, e: Entry, t: Str): Str
  {
    (if f.version < 1 then BE16(e.id) else BE32(e.id))
    + ([|e.associations| % 256] + AssociationsWritten(f.flags % 2 == 1, e.associations, t))
  }

  lemma TakeEntryWritten(f: Full, e: Entry, t: Str)
    requires EntryFits(f, e)
    ensures TakeEntry(f, EntryWritten(f, e, t)) == Some(Read(e, t))
  {
    hide Take16, Take32, BE16, BE32, TakeAssociations, AssociationsWritten, IndexFits;
    var u := AssociationsWritten(f.flags % 2 == 1, e.associations, t);
    var v := [|e.associations|] + u;
    if f.version < 1 { Take16Written(e.id, v); } else { Take32Written(e.id, v); }
    assert v[1..] == u;
    TakeAssociationsWritten(f.flags % 2 == 1, e.associations, t);
  }

  ghost function EntriesWritten(f: Full, es: seq<Entry>, t: Str): Str
  {
    if es == [] then t else EntryWritten(f, es[0], EntriesWritten(f, es[1..], t))
  }

  lemma {:induction false} TakeEntriesWritten(f: Full, es: seq<Entry>, t: Str)
    requires forall i :: 0 <= i < |es| ==> EntryFits(f, es[i])
    ensures TakeEntries(f, |es|, EntriesWritten(f, es, t)) == Some(es)
  {
    if es != [] {
      hide EntryWritten, TakeEntry, EntryFits;
      TakeEntriesWritten(f, es[1..], t);
      TakeEntryWritten(f, es[0], EntriesWritten(f, es[1..], t));
      assert [es[0]] + es[1..] == es;
    }
  }

  /** All versions, narrow and wide. */
  lemma ReadIpmaWritten(f: Full, es: seq<Entry>, t: Str)
    requires f.flags < 0x100_0000 && |es| < TWO_32 && forall i :: 0 <= i < |es| ==> EntryFits(f, es[i])
    ensures ParseAssociations(FullWritten(f, BE32(|es|) + EntriesWritten(f, es, t))) == Some(es)
  {
    hide TakeFull, FullWritten, Take32, BE32, TakeEntries, EntriesWritten, EntryFits;
    var u := EntriesWritten(f, es, t);
    TakeFullWritten(f, BE32(|es|) + u);
    Take32Written(|es|, u);
    TakeEntriesWritten(f, es, t);
  }

  // ---------- iloc ----------

  /** The index of an extent, which is not kept, is any number x. */
  ghost function ExtentWritten(z: Sizes, e: Extent, x: nat, t: Str): Str
  {
    var u := NumberWritten(z.offset, e.offset) + (NumberWritten(z.length, e.length) + t);
    if z.version > 0 then NumberWritten(z.index, x) + u else u
  }

  ghost predicate ExtentFits(z: Sizes, e: Extent)
  {
    FitsSize(z.offset, e.offset) && FitsSize(z.length, e.length)
  }

  lemma TakeExtentWritten(z: Sizes, e: Extent, x: nat, t: Str)
    requires ExtentFits(z, e) && FitsSize(z.index, x)
    ensures TakeExtent(z, ExtentWritten(z, e, x, t)) == Some(Read(e, t))
  {
    hide TakeN, NumberWritten, FitsSize;
    var v := NumberWritten(z.length, e.length) + t;
    var u := NumberWritten(z.offset, e.offset) + v;
    TakeNumber(z.index, x, u);
    TakeNumber(z.offset, e.offset, v);
    TakeNumber(z.length, e.length, t);
  }

  ghost function ExtentsWritten(z: Sizes, es: seq<Extent>, x: nat, t: Str): Str
  {
    if es == [] then t else ExtentWritten(z, es[0], x, ExtentsWritten(z, es[1..], x, t))
  }

  lemma {:induction false} TakeExtentsWritten(z: Sizes, es: seq<Extent>, x: nat, t: Str)
    requires FitsSize(z.index, x) && forall i :: 0 <= i < |es| ==> ExtentFits(z, es[i])
    ensures TakeExtents(z, |es|, ExtentsWritten(z, es, x, t)) == Some(Read(es, t))
  {
    if es != [] {
      hide ExtentWritten, TakeExtent, ExtentFits, FitsSize;
      TakeExtentsWritten(z, es[1..], x, t);
      TakeExtentWritten(z, es[0], x, ExtentsWritten(z, es[1..], x, t));
      assert [es[0]] + es[1..] == es;
    }
  }

  ghost predicate LocationFits(z: Sizes, l: Location)
  {
    && l.id < (if z.version < 2 then 0x1_0000 else TWO_32) && l.construction < (if z.version > 0 then 16 else 1)
    && l.dataReference < 0x1_0000 && FitsSize(z.base, l.base) && |l.extents| < 0x1_0000
    && forall i :: 0 <= i < |l.extents| ==> ExtentFits(z, l.extents[i])
  }

  /** The twelve bits above the construction method are reserved. */
  ghost function LocationWritten(z: Sizes, l: Location, x: nat, reserved: nat, t: Str): Str
  {
    var e := BE16(|l.extents|) + ExtentsWritten(z, l.extents, x, t);
    var d := BE16(l.dataReference) + (NumberWritten(z.base, l.base) + e);
    (if z.version < 2 then BE16(l.id) else BE32(l.id))
    + (if z.version > 0 then BE16(16 * reserved + l.construction) + d else d)
  }

  lemma TakeLocationWritten(z: Sizes, l: Location, x: nat, reserved: nat, t: Str)
    requires LocationFits(z, l) && FitsSize(z.index, x) && reserved < 0x1000
    ensures TakeLocation(z, LocationWritten(z, l, x, reserved, t)) == Some(Read(l, t))
  {
    hide Take16, Take32, BE16, BE32, TakeN, NumberWritten, FitsSize, TakeExtents, ExtentsWritten, ExtentFits;
    var u := ExtentsWritten(z, l.extents, x, t);
    var e := BE16(|l.extents|) + u;
    var b := NumberWritten(z.base, l.base) + e;
    var d := BE16(l.dataReference) + b;
    var c := if z.version > 0 then BE16(16 * reserved + l.construction) + d else d;
    if z.version < 2 { Take16Written(l.id, c); } else { Take32Written(l.id, c); }
    if z.version > 0 { Take16Written(16 * reserved + l.construction, d); }
    Take16Written(l.dataReference, b);
    TakeNumber(z.base, l.base, e);
    Take16Written(|l.extents|, u);
    TakeExtentsWritten(z, l.extents, x, t);
  }

  ghost function LocationsWritten(z: Sizes, ls: seq<Location>, x: nat, reserved: nat, t: Str): Str
  {
    if ls == [] then t else LocationWritten(z, ls[0], x, reserved, LocationsWritten(z, ls[1..], x, reserved, t))
  }

  ghost predicate LocationsFit(z: Sizes, ls: seq<Location>)
  {
    forall i :: 0 <= i < |ls| ==> LocationFits(z, ls[i])
  }

  lemma {:induction false} TakeLocationsWritten(z: Sizes, ls: seq<Location>, x: nat, reserved: nat, t: Str)
    requires FitsSize(z.index, x) && reserved < 0x1000 && LocationsFit(z, ls)
    ensures TakeLocations(z, |ls|, LocationsWritten(z, ls, x, reserved, t)) == Some(ls)
  {
    if ls != [] {
      hide *;
      var rest := ls[1..];
      var u := LocationsWritten(z, rest, x, reserved, t);
      FirstFits(z, ls);
      TakeLocationsWritten(z, rest, x, reserved, t);
      TakeLocationWritten(z, ls[0], x, reserved, u);
      OneLocation(z, ls, LocationWritten(z, ls[0], x, reserved, u), u);
      assert LocationsWritten(z, ls, x, reserved, t) == LocationWritten(z, ls[0], x, reserved, u) by {
        LocationsStep(z, ls, x, reserved, t);
      }
    }
  }

  lemma LocationsStep(z: Sizes, ls: seq<Location>, x: nat, reserved: nat, t: Str)
    requires ls != []
    ensures LocationsWritten(z, ls, x, reserved, t)
      == LocationWritten(z, ls[0], x, reserved, LocationsWritten(z, ls[1..], x, reserved, t))
  {
  }

  lemma OneLocation(z: Sizes, ls: seq<Location>, s: Str, t: Str)
    requires ls != [] && TakeLocation(z, s) == Some(Read(ls[0], t)) && TakeLocations(z, |ls| - 1, t) == Some(ls[1..])
    ensures TakeLocations(z, |ls|, s) == Some(ls)
  {
    hide TakeLocation;
    assert [ls[0]] + ls[1..] == ls;
  }

  lemma FirstFits(z: Sizes, ls: seq<Location>)
    requires ls != [] && LocationsFit(z, ls)
    ensures LocationFits(z, ls[0]) && LocationsFit(z, ls[1..])
  {
  }

  /** The last four bits of the sizes are the size of an index, except in version 0. */
  ghost function IlocWritten(z: Sizes, flags: nat, unused: nat, ls: seq<Location>, x: nat, reserved: nat, t: Str): Str
  {
    FullWritten(Full(z.version, flags),
      [(16 * z.offset + z.length) % 256, (16 * z.base + if z.version > 0 then z.index else unused) % 256]
      + ((if z.version < 2 then BE16(|ls|) else BE32(|ls|)) + LocationsWritten(z, ls, x, reserved, t)))
  }

  /** All versions, and all widths of fields. */
  lemma ReadIlocWritten(z: Sizes, flags: nat, unused: nat, ls: seq<Location>, x: nat, reserved: nat, t: Str)
    requires z.offset < 16 && z.length < 16 && z.base < 16 && z.index < 16 && unused < 16
    requires z.version == 0 ==> z.index == 0
    requires |ls| < (if z.version < 2 then 0x1_0000 else TWO_32) && FitsSize(z.index, x) && reserved < 0x1000
    requires LocationsFit(z, ls)
    ensures ParseItemLocation(IlocWritten(z, flags, unused, ls, x, reserved, t)) == Some(ls)
  {
    hide Take16, Take32, BE16, BE32, TakeLocations, LocationsWritten, LocationsFit, FitsSize;
    var u := LocationsWritten(z, ls, x, reserved, t);
    var n := if z.version < 2 then BE16(|ls|) else BE32(|ls|);
    var s := IlocWritten(z, flags, unused, ls, x, reserved, t);
    assert s[6..] == n + u;
    Nibbles(z.offset, z.length);
    Nibbles(z.base, if z.version > 0 then z.index else unused);
    if z.version < 2 { Take16Written(|ls|, u); } else { Take32Written(|ls|, u); }
    TakeLocationsWritten(z, ls, x, reserved, t);
    ShortIloc(s, n);
  }

  lemma Nibbles(a: nat, b: nat)
    requires a < 16 && b < 16
    ensures (16 * a + b) % 256 / 16 == a && (16 * a + b) % 256 % 16 == b
  {
  }

  lemma ShortIloc(s: Str, n: Str)
    requires |s| >= 6 && |s[6..]| >= |n| >= 2
    ensures |s| >= 8
  {
  }

  // ---------- iinf and iprp ----------

  lemma {:induction false} InfosWritten(bs: seq<Box>, infos: seq<ItemInfo>, n: nat)
    requires |bs| == |infos| && forall b :: b in bs ==> |b.body| < n
    requires forall i :: 0 <= i < |bs| ==> ParseBox(bs[i]) == Ok(PItemInfoEntry(infos[i]))
    ensures Infos(bs, n) == Some(infos)
  {
    hide ParseBox;
    if bs != [] {
      InfosWritten(bs[1..], infos[1..], n);
      assert bs[0] in bs && [infos[0]] + infos[1..] == infos;
    }
  }

  /** As many entries as there are; the count in front of them does not matter. */
  lemma ReadIinfWritten(f: Full, count: nat, bs: seq<Sized>, infos: seq<ItemInfo>)
    requires AllFit(bs) && |bs| == |infos|
    requires forall i :: 0 <= i < |bs| ==> ParseBox(bs[i].box) == Ok(PItemInfoEntry(infos[i]))
    ensures ParseItemInfo(FullWritten(f, BE16(count) + BoxesWritten(bs))) == Some(infos)
  {
    hide SplitBoxes, ParseBox, Infos, BE16, AllFit, BoxesWritten;
    var s := FullWritten(f, BE16(count) + BoxesWritten(bs));
    assert s[6..] == BoxesWritten(bs);
    SplitWritten(bs);
    var r := BoxesOf(bs);
    assert forall b :: b in r ==> |b.body| + 8 <= |BoxesWritten(bs)|;
    InfosWritten(r, infos, |s|);
  }

  /** A child that is no entry is left out if it parses, and else an error. */
  lemma OtherInIinf(b: Box, rest: seq<Box>, n: nat)
    requires |b.body| < n && forall c :: c in rest ==> |c.body| < n
    ensures Infos([b] + rest, n) ==
      if !ParseBox(b).Ok? then None
      else if ParseBox(b).value.PItemInfoEntry? then Prepend([ParseBox(b).value.info], Infos(rest, n))
      else Infos(rest, n)
  {
    hide ParseBox;
    assert ([b] + rest)[1..] == rest;
    PrependNothing(Infos(rest, n));
  }

  lemma {:induction false} AssociationBoxesWritten(bs: seq<Box>, entries: seq<seq<Entry>>, n: nat)
    requires |bs| == |entries| && forall b :: b in bs ==> |b.body| < n
    requires forall i :: 0 <= i < |bs| ==> ParseBox(bs[i]) == Ok(PAssociations(entries[i]))
    ensures AssociationBoxes(bs, n) == Some(entries)
  {
    hide ParseBox;
    if bs != [] {
      AssociationBoxesWritten(bs[1..], entries[1..], n);
      assert bs[0] in bs && [entries[0]] + entries[1..] == entries;
    }
  }

  /** One container, and any positive number of association boxes. */
  lemma ReadIprpWritten(c: Sized, properties: seq<Sized>, bs: seq<Sized>, entries: seq<seq<Entry>>)
    requires AllFit([c] + bs) && AllFit(properties) && |bs| == |entries| > 0
    requires c.box == Box(IPCO, BoxesWritten(properties))
    requires forall i :: 0 <= i < |bs| ==> ParseBox(bs[i].box) == Ok(PAssociations(entries[i]))
    ensures ParseItemProperties(BoxesWritten([c] + bs)) == Some(PItemProperties(BoxesOf(properties), entries))
  {
    hide SplitBoxes, BoxesWritten, AssociationBoxes, AllFit;
    var s := BoxesWritten([c] + bs);
    var all := BoxesOf([c] + bs);
    SplitWritten([c] + bs);
    SplitWritten(properties);
    assert ParseBox(all[0]) == Ok(PContainer(BoxesOf(properties)));
    hide ParseBox;
    assert forall b :: b in all[1..] ==> b in all;
    AssociationBoxesWritten(all[1..], entries, |s|);
  }

  /** Anything else in first place, and fewer than two boxes, are errors. */
  lemma NoContainer(s: Str, bs: seq<Box>)
    requires SplitBoxes(s) == Some(bs)
    requires |bs| < 2 || !(ParseBox(bs[0]).Ok? && ParseBox(bs[0]).value.PContainer?)
    ensures ParseItemProperties(s) == None
  {
    hide SplitBoxes, ParseBox;
  }
}
