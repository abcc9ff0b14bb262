/**
 What each item of a file gets: its own entry, location, properties and data.
 */
module HeifItems {
  import opened Wrappers
  import opened Bytes
  import opened Bmff
  import opened BmffWritten
  import opened HeifSpec

  // ---------- Entries, locations and infos ----------

  /** Item k is the last one with its number. */
  ghost predicate LastWith<T(!new)>(xs: seq<T>, idOf: T -> nat, id: nat, k: nat)
  {
    k < |xs| && idOf(xs[k]) == id && forall j :: k < j < |xs| ==> idOf(xs[j]) != id
  }

  ghost predicate NoneWith<T(!new)>(xs: seq<T>, idOf: T -> nat, id: nat)
  {
    forall j :: 0 <= j < |xs| ==> idOf(xs[j]) != id
  }

  ghost const InfoId: ItemInfo -> nat := (i: ItemInfo) => i.id
  ghost const LocationId: Location -> nat := (l: Location) => l.id

  lemma {:induction false} InfoIs(infos: seq<ItemInfo>, id: nat, k: nat)
    ensures LastWith(infos, InfoId, id, k) ==> LastInfo(infos, id) == Some(infos[k])
    ensures NoneWith(infos, InfoId, id) ==> LastInfo(infos, id) == None
  {
    if infos != [] {
      var rest := infos[1..];
      InfoIs(rest, id, if k > 0 then k - 1 else 0);
      assert forall j :: 0 <= j < |rest| ==> rest[j] == infos[j + 1];
    }
  }

  lemma {:induction false} LocationIs(locations: seq<Location>, id: nat, k: nat)
    ensures LastWith(locations, LocationId, id, k) ==> LastLocation(locations, id) == Some(locations[k])
    ensures NoneWith(locations, LocationId, id) ==> LastLocation(locations, id) == None
  {
    if locations != [] {
      var rest := locations[1..];
      LocationIs(rest, id, if k > 0 then k - 1 else 0);
      assert forall j :: 0 <= j < |rest| ==> rest[j] == locations[j + 1];
    }
  }

  // ---------- Associations ----------

  /** The entries for the item, in order. */
  ghost function Own(entries: seq<Entry>, id: nat): seq<Entry>
  {
    if entries == [] then []
    else if entries[0].id == id then [entries[0]] + Own(entries[1..], id)
    else Own(entries[1..], id)
  }

  lemma {:induction false} OwnDecides(entries: seq<Entry>, id: nat, n: nat)
    ensures OfItem(entries, id, n) == OfItem(Own(entries, id), id, n)
  {
    if entries != [] {
      OwnDecides(entries[1..], id, n);
      if entries[0].id == id {
        assert ([entries[0]] + Own(entries[1..], id))[1..] == Own(entries[1..], id);
      }
    }
  }

  lemma {:induction false} OwnBoxesDecide(a: seq<seq<Entry>>, b: seq<seq<Entry>>, id: nat, n: nat)
    requires |a| == |b| && forall i :: 0 <= i < |a| ==> Own(a[i], id) == Own(b[i], id)
    ensures FirstOfItem(a, id, n) == FirstOfItem(b, id, n)
  {
    if a != [] {
      hide Own, OfItem;
      OwnDecides(a[0], id, n);
      OwnDecides(b[0], id, n);
      OwnBoxesDecide(a[1..], b[1..], id, n);
    }
  }

  /** Whatever is changed in the entries of other items, or removed, does not matter to the item. */
  lemma OthersDoNotMatter(m: Meta, other: Meta, id: nat)
    requires m.properties.Some? && other.properties.Some?
    requires var p, q := m.properties.value, other.properties.value;
      && |p.container| == |q.container| && |p.associations| == |q.associations|
      && forall i :: 0 <= i < |p.associations| ==> Own(p.associations[i], id) == Own(q.associations[i], id)
    ensures PropertyAssociations(m, id) == PropertyAssociations(other, id)
  {
    hide FirstOfItem, Own;
    var p, q := m.properties.value, other.properties.value;
    OwnBoxesDecide(p.associations, q.associations, id, |p.container|);
  }

  ghost predicate AllValid(a: seq<Association>, n: nat)
  {
    forall i :: 0 <= i < |a| ==> 1 <= a[i].index <= n
  }

  lemma {:induction false} ValidStay(a: seq<Association>, n: nat)
    requires AllValid(a, n)
    ensures WithIndex(a, n) == a
  {
    if a != [] {
      ValidStay(a[1..], n);
      assert [a[0]] + a[1..] == a;
    }
  }

  lemma {:induction false} OwnOnly(entries: seq<Entry>, k: nat)
    requires k < |entries| && forall i :: 0 <= i < |entries| && i != k ==> entries[i].id != entries[k].id
    ensures Own(entries, entries[k].id) == [entries[k]]
  {
    var id, rest := entries[k].id, entries[1..];
    if k == 0 {
      OwnNothing(rest, id);
      assert [entries[0]] + [] == [entries[k]];
    } else {
      assert forall i :: 0 <= i < |rest| ==> rest[i] == entries[i + 1];
      OwnOnly(rest, k - 1);
    }
  }

  lemma {:induction false} OwnNothing(entries: seq<Entry>, id: nat)
    requires forall i :: 0 <= i < |entries| ==> entries[i].id != id
    ensures Own(entries, id) == []
  {
    if entries != [] {
      OwnNothing(entries[1..], id);
    }
  }

  /** In a box with one entry for each item, each item gets exactly what its entry says; an item
      without an entry gets nothing. */
  lemma ItemGetsItsEntry(m: Meta, entries: seq<Entry>, id: nat, k: nat)
    requires m.properties.Some? && m.properties.value.associations == [entries]
    requires forall i, j :: 0 <= i < j < |entries| ==> entries[i].id != entries[j].id
    ensures k < |entries| && entries[k].id == id && AllValid(entries[k].associations, |m.properties.value.container|) ==>
      PropertyAssociations(m, id) == entries[k].associations
    ensures (forall i :: 0 <= i < |entries| ==> entries[i].id != id) ==> PropertyAssociations(m, id) == []
  {
    var n := |m.properties.value.container|;
    OneBox(m, entries, id);
    OwnDecides(entries, id, n);
    hide FirstOfItem, Own;
    if k < |entries| && entries[k].id == id && AllValid(entries[k].associations, n) {
      OwnOnly(entries, k);
      OneEntry(entries[k], n);
    }
    if forall i :: 0 <= i < |entries| ==> entries[i].id != id {
      OwnNothing(entries, id);
    }
  }

  lemma OneBox(m: Meta, entries: seq<Entry>, id: nat)
    requires m.properties.Some? && m.properties.value.associations == [entries]
    ensures PropertyAssociations(m, id) == OfItem(entries, id, |m.properties.value.container|)
  {
    var boxes := [entries];
    assert boxes[1..] == [] && FirstOfItem(boxes[1..], id, |m.properties.value.container|) == [];
  }

  lemma OneEntry(e: Entry, n: nat)
    requires AllValid(e.associations, n)
    ensures OfItem([e], e.id, n) == e.associations
  {
    ValidStay(e.associations, n);
    var es := [e];
    assert es[1..] == [] && OfItem(es[1..], e.id, n) == [];
    assert e.associations + [] == e.associations;
  }

  /** Two items, each with its own associations. */
  lemma TwoItems(m: Meta, a: seq<Association>, b: seq<Association>)
    requires m.properties.Some? && m.properties.value.associations == [[Entry(1, a), Entry(2, b)]]
    requires AllValid(a, |m.properties.value.container|) && AllValid(b, |m.properties.value.container|)
    ensures PropertyAssociations(m, 1) == a && PropertyAssociations(m, 2) == b
  {
    ItemGetsItsEntry(m, [Entry(1, a), Entry(2, b)], 1, 0);
    ItemGetsItsEntry(m, [Entry(1, a), Entry(2, b)], 2, 1);
  }

  /** One association more: it is kept exactly if its index is valid. */
  lemma InvalidIsOmitted(m: Meta, other: Meta, id: nat, a: seq<Association>, x: Association)
    requires m.properties.Some? && m.properties.value.associations == [[Entry(id, a)]]
    requires other.properties == Some(m.properties.value.(associations := [[Entry(id, a + [x])]]))
    ensures PropertyAssociations(other, id) ==
      PropertyAssociations(m, id) + (if x.index == 0 || x.index > |m.properties.value.container| then [] else [x])
  {
    var n := |m.properties.value.container|;
    OneBox(m, [Entry(id, a)], id);
    OneBox(other, [Entry(id, a + [x])], id);
    Alone(Entry(id, a), n);
    Alone(Entry(id, a + [x]), n);
    hide WithIndex, OfItem, FirstOfItem, PropertyAssociations;
    OneMoreAssociation(a, x, n);
  }

  lemma Alone(e: Entry, n: nat)
    ensures OfItem([e], e.id, n) == WithIndex(e.associations, n)
  {
    var es := [e];
    assert es[1..] == [] && OfItem(es[1..], e.id, n) == [];
    assert WithIndex(e.associations, n) + [] == WithIndex(e.associations, n);
  }

  lemma {:induction false} OneMoreAssociation(a: seq<Association>, x: Association, n: nat)
    ensures WithIndex(a + [x], n) == WithIndex(a, n) + (if x.index == 0 || x.index > n then [] else [x])
  {
    if a == [] {
      assert [] + [x] == [x] && [x][1..] == [];
    } else {
      assert (a + [x])[1..] == a[1..] + [x];
      OneMoreAssociation(a[1..], x, n);
    }
  }

  /** A further box counts only if there is nothing for the item in front of it. */
  lemma {:induction false} FirstBoxCounts(boxes: seq<seq<Entry>>, more: seq<Entry>, id: nat, n: nat)
    ensures FirstOfItem(boxes + [more], id, n) ==
      if FirstOfItem(boxes, id, n) != [] then FirstOfItem(boxes, id, n) else FirstOfItem([more], id, n)
  {
    if boxes == [] {
      assert [] + [more] == [more];
    } else {
      hide OfItem;
      assert (boxes + [more])[1..] == boxes[1..] + [more];
      FirstBoxCounts(boxes[1..], more, id, n);
    }
  }

  // ---------- Files with several items ----------

  /** Item k has the entry, the location and the properties at place k. */
  ghost predicate Aligned(m: Meta, infos: seq<ItemInfo>, locations: seq<Location>, entries: seq<Entry>)
  {
    && m.infos == Some(infos) && m.locations == Some(locations)
    && m.properties.Some? && m.properties.value.associations == [entries]
    && |infos| == |locations| == |entries|
    && (forall i :: 0 <= i < |infos| ==> infos[i].id == locations[i].id == entries[i].id)
    && (forall i, j :: 0 <= i < j < |infos| ==> infos[i].id != infos[j].id)
    && (forall i :: 0 <= i < |infos| ==> AllValid(entries[i].associations, |m.properties.value.container|))
  }

  /** So each item has what is its own, and no other number is an item. */
  lemma ItemsApart(m: Meta, infos: seq<ItemInfo>, locations: seq<Location>, entries: seq<Entry>, k: nat)
    requires Aligned(m, infos, locations, entries) && k < |infos|
    ensures ItemById(m, infos[k].id).Some?
    ensures var it, a := ItemById(m, infos[k].id).value, entries[k].associations;
      && it.id == infos[k].id && it.info == infos[k] && it.location == Some(locations[k])
      && |it.properties| == |a|
      && forall i :: 0 <= i < |a| ==> it.properties[i] == m.properties.value.container[a[i].index - 1]
  {
    hide LastInfo, LastLocation, PropertyAssociations;
    var id := infos[k].id;
    InfoIs(infos, id, k);
    LocationIs(locations, id, k);
    ItemGetsItsEntry(m, entries, id, k);
  }

  lemma NoItem(m: Meta, id: nat)
    requires m.infos.None? || NoneWith(m.infos.value, InfoId, id)
    ensures ItemById(m, id) == None
  {
    hide LastInfo, PropertyAssociations;
    if m.infos.Some? { InfoIs(m.infos.value, id, 0); }
  }

  // ---------- Data ----------

  /** An extent lies inside the file, and its offset is no larger than a signed number can be. */
  ghost predicate Inside(file: Str, base: nat, e: Extent)
  {
    base + e.offset < TWO_63 && base + e.offset + e.length <= |file|
  }

  /** Where the bytes of extent k begin in the data. */
  ghost function Before(extents: seq<Extent>, k: nat): nat
    requires k <= |extents|
  {
    if k == 0 then 0 else Before(extents, k - 1) + extents[k - 1].length
  }

  lemma {:induction false} BeforeRest(extents: seq<Extent>, k: nat)
    requires 0 < k <= |extents|
    ensures Before(extents, k) == extents[0].length + Before(extents[1..], k - 1)
  {
    if k > 1 {
      BeforeRest(extents, k - 1);
      assert extents[1..][k - 2] == extents[k - 1];
    }
  }

  lemma {:induction false} TotalIsBefore(extents: seq<Extent>)
    ensures TotalLength(extents) == Before(extents, |extents|)
  {
    if extents != [] {
      TotalIsBefore(extents[1..]);
      BeforeRest(extents, |extents|);
    }
  }

  /** Data can be read exactly if it is in the file itself, in extents that are not empty, all inside,
      and together have at most 64 MiB. */
  lemma DataIff(file: Str, location: Option<Location>)
    requires |file| < TWO_63
    requires location.Some? ==> location.value.base < TWO_64 && forall e :: e in location.value.extents ==> e.offset < TWO_64
    ensures ItemData(file, location).Some? <==>
      && location.Some?
      && var l := location.value;
         && l.construction == 0 && l.dataReference == 0 && l.extents != []
         && (forall e :: e in l.extents ==> e.length > 0 && Inside(file, l.base, e))
         && Before(l.extents, |l.extents|) <= 67_108_864
  {
    if location.Some? {
      var l := location.value;
      hide ExtentData;
      TotalIsBefore(l.extents);
      ExtentsIff(file, l.base, l.extents);
    }
  }

  lemma {:induction false} ExtentsIff(file: Str, base: nat, extents: seq<Extent>)
    requires |file| < TWO_63 && base < TWO_64 && forall e :: e in extents ==> e.offset < TWO_64
    ensures ExtentData(file, base, extents).Some? <==> forall e :: e in extents ==> Inside(file, base, e)
  {
    if extents != [] {
      ExtentsIff(file, base, extents[1..]);
      WrapsAround(base, extents[0].offset);
      assert forall e :: e in extents <==> e == extents[0] || e in extents[1..];
    }
  }

  /** A sum that wraps around is less than what is added to. */
  lemma WrapsAround(base: nat, offset: nat)
    requires base < TWO_64 && offset < TWO_64
    ensures var sum := (base + offset) % TWO_64;
      (sum < base <==> base + offset >= TWO_64) && (sum >= base ==> sum == base + offset)
  {
  }

  /** Byte j of extent k is that of the file, in the order of the extents. */
  lemma {:induction false} DataBytes(file: Str, base: nat, extents: seq<Extent>, k: nat, j: nat)
    requires |file| < TWO_63 && base < TWO_64 && (forall e :: e in extents ==> e.offset < TWO_64)
    requires ExtentData(file, base, extents).Some? && k < |extents| && j < extents[k].length
    ensures var d := ExtentData(file, base, extents).value;
      && |d| == Before(extents, |extents|)
      && Before(extents, k) + j < |d|
      && base + extents[k].offset + j < |file|
      && d[Before(extents, k) + j] == file[base + extents[k].offset + j]
    decreases |extents|
  {
    WrapsAround(base, extents[0].offset);
    var rest := extents[1..];
    DataSizeIs(file, base, extents);
    TotalIsBefore(extents);
    if k > 0 {
      DataBytes(file, base, rest, k - 1, j);
      BeforeRest(extents, k);
    } else {
      TotalIsBefore(rest);
      BeforeRest(extents, |extents|);
    }
  }

  lemma {:induction false} DataSizeIs(file: Str, base: nat, extents: seq<Extent>)
    requires ExtentData(file, base, extents).Some?
    ensures |ExtentData(file, base, extents).value| == TotalLength(extents)
  {
    if extents != [] {
      DataSizeIs(file, base, extents[1..]);
    }
  }

  // ---------- What an item looks like ----------

  ghost predicate GivesExtents(b: Box)
  {
    ParseBox(b).Ok? && ParseBox(b).value.PSpatialExtents?
  }

  ghost predicate GivesRotation(b: Box)
  {
    ParseBox(b).Ok? && ParseBox(b).value.PRotation?
  }

  /** The first property that gives extents counts. */
  lemma {:induction false} ExtentsAre(ps: seq<Box>, k: nat)
    ensures k < |ps| && GivesExtents(ps[k]) && (forall j :: 0 <= j < k ==> !GivesExtents(ps[j])) ==>
      SpatialExtents(ps) == Some((ParseBox(ps[k]).value.width, ParseBox(ps[k]).value.height))
    ensures (forall j :: 0 <= j < |ps| ==> !GivesExtents(ps[j])) ==> SpatialExtents(ps) == None
  {
    hide ParseBox;
    if ps != [] {
      var rest := ps[1..];
      ExtentsAre(rest, if k > 0 then k - 1 else 0);
      assert forall j :: 0 <= j < |rest| ==> rest[j] == ps[j + 1];
    }
  }

  /** The first rotation counts, and without one there is none. */
  lemma {:induction false} RotationIs(ps: seq<Box>, k: nat)
    ensures k < |ps| && GivesRotation(ps[k]) && (forall j :: 0 <= j < k ==> !GivesRotation(ps[j])) ==>
      Rotations(ps) == ParseBox(ps[k]).value.angle
    ensures (forall j :: 0 <= j < |ps| ==> !GivesRotation(ps[j])) ==> Rotations(ps) == 0
  {
    hide ParseBox;
    if ps != [] {
      var rest := ps[1..];
      RotationIs(rest, if k > 0 then k - 1 else 0);
      assert forall j :: 0 <= j < |rest| ==> rest[j] == ps[j + 1];
    }
  }

  /** The types that are not copied. */
  lemma UnsupportedTypes(typ: Tag)
    ensures Unsupported(typ) <==>
      || typ == Ascii("grid") || typ == Ascii("iden") || typ == Ascii("iovl")
      || typ == Ascii("Exif") || typ == Ascii("mime") || typ == Ascii("uri ")
  {
    hide Ascii;
    FourCharacters("grid");
    FourCharacters("iden");
    FourCharacters("iovl");
    FourCharacters("Exif");
    FourCharacters("mime");
    FourCharacters("uri ");
  }

  // ---------- Children of meta ----------

  /** One child more: it is skipped if its type is unknown, an error if it does not parse, and else
      the last of its type. */
  lemma {:induction false} OneMoreChild(children: seq<Box>, b: Box, m: Meta)
    ensures Collect(children + [b], m) ==
      match (Collect(children, m), ParseBox(b))
      case (None, _) => None
      case (_, Failed) => None
      case (Some(n), Unknown) => Some(n)
      case (Some(n), Ok(PHandler(h))) => Some(Meta(n.fileType, Some(h), n.primary, n.infos, n.properties, n.locations))
      case (Some(n), Ok(PPrimaryItem(i))) => Some(Meta(n.fileType, n.handler, Some(i), n.infos, n.properties, n.locations))
      case (Some(n), Ok(PItemInfo(i))) => Some(Meta(n.fileType, n.handler, n.primary, Some(i), n.properties, n.locations))
      case (Some(n), Ok(PItemProperties(c, a))) =>
        Some(Meta(n.fileType, n.handler, n.primary, n.infos, Some(Properties(c, a)), n.locations))
      case (Some(n), Ok(PItemLocation(l))) => Some(Meta(n.fileType, n.handler, n.primary, n.infos, n.properties, Some(l)))
      case (Some(n), _) => Some(n)
  {
    hide ParseBox;
    if children == [] {
      assert [] + [b] == [b] && [b][1..] == [] && forall n: Meta :: Collect([], n) == Some(n);
    } else {
      assert (children + [b])[1..] == children[1..] + [b];
      match ParseBox(children[0])
      case Unknown => OneMoreChild(children[1..], b, m);
      case Failed =>
      case Ok(v) => OneMoreChild(children[1..], b, AddChild(m, v));
    }
  }

  // ---------- The first two boxes ----------

  /** Whatever follows them, and however their sizes are written. */
  lemma ReadMetaBoxes(ftyp: Sized, f: FileType, meta: Sized, children: seq<Box>, t: Str)
    requires FitsForm(ftyp) && FitsForm(meta) && !ftyp.form.Open? && (meta.form.Open? ==> t == [])
    requires ftyp.box.typ == FTYP && ParseFileType(ftyp.box.body) == Some(f)
    requires meta.box.typ == META && ParseMeta(meta.box.body) == Some(children)
    ensures ReadMeta(BoxWritten(ftyp, BoxWritten(meta, t))) == Collect(children, Meta(f, None, None, None, None, None))
  {
    hide ReadHeader, ParseFileType, ParseMeta, Collect, BoxWritten, BoxEnd;
    FirstIs(ftyp, BoxWritten(meta, t));
    FirstIs(meta, t);
  }

  lemma FirstIs(b: Sized, t: Str)
    requires FitsForm(b) && (b.form.Open? ==> t == [])
    ensures var s := BoxWritten(b, t);
      var h := ReadHeader(s);
      && h.Header? && h.typ == b.box.typ && (h.remain.None? <==> b.form.Open?)
      && s[h.headerSize..BoxEnd(h, |s|)] == b.box.body && s[BoxEnd(h, |s|)..] == t
  {
    hide ReadHeader, BE32, BE64;
    var body, s := b.box.body, BoxWritten(b, t);
    match b.form
    case Short =>
      ShortHeader(b.box.typ, 8 + |body|, body + t);
    case Long =>
      LongHeader(b.box.typ, 16 + |body|, body + t);
      assert ReadHeader(s) == Header(b.box.typ, 16 + |body|, 16, Some(|body|)) && BoxEnd(ReadHeader(s), |s|) == 16 + |body|;
      assert s[16..16 + |body|] == body && s[16 + |body|..] == t;
    case Open =>
      ShortHeader(b.box.typ, 0, body + t);
  }

  /** Another first box, a first box without an end, and another second box are errors. */
  lemma OtherBoxes(first: Sized, second: Sized, t: Str)
    requires FitsForm(first) && FitsForm(second) && (second.form.Open? ==> t == [])
    ensures !first.form.Open? && (first.box.typ != FTYP || second.box.typ != META) ==>
      ReadMeta(BoxWritten(first, BoxWritten(second, t))) == None
    ensures first.form.Open? ==> ReadMeta(BoxWritten(first, [])) == None
  {
    hide ReadHeader, ParseFileType, ParseMeta, Collect, BoxWritten, BoxEnd;
    FirstIs(second, t);
    if first.form.Open? { FirstIs(first, []); } else { FirstIs(first, BoxWritten(second, t)); }
  }
}
