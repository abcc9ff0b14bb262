/**
 A copy of an item in a file of its own is the same image.
 */
module HeifStandalone {
  import opened Wrappers
  import opened Bytes
  import opened Bmff
  import opened HeifSpec
  import opened HeifRoundTrip
  import HeifItems

  // ---------- Copied properties ----------

  lemma CopiedAreBoxes(m: Meta, id: nat)
    ensures AllBoxes(Copied(m, id))
  {
    hide PropertyAssociations, BoxBytes, IsBox;
    var a := PropertyAssociations(m, id);
    if m.properties.Some? {
      var c := m.properties.value.container;
      forall i | 0 <= i < |a| ensures IsBox(Copied(m, id)[i].box) {
        BoxTail(c[a[i].index - 1].typ, c[a[i].index - 1].body);
      }
    }
  }

  /** The copies hold the boxes they were made of, with the same flags. */
  lemma CopiesAreEqual(m: Meta, id: nat, item: Item)
    requires ItemById(m, id) == Some(item)
    ensures AllBoxes(Copied(m, id)) && BoxesOf(Copied(m, id)) == item.properties
    ensures Flags(Copied(m, id)) == FlagsOf(PropertyAssociations(m, id))
  {
    hide PropertyAssociations, BoxBytes, IsBox, LastInfo, LastLocation;
    CopiedAreBoxes(m, id);
    var a, props := PropertyAssociations(m, id), Copied(m, id);
    if m.properties.Some? {
      var c := m.properties.value.container;
      forall i | 0 <= i < |a| ensures BoxesOf(props)[i] == c[a[i].index - 1] {
        BoxTail(c[a[i].index - 1].typ, c[a[i].index - 1].body);
      }
      assert item.properties == PropertyBoxes(c, a);
    }
    assert |BoxesOf(props)| == |item.properties|;
  }

  ghost function FlagsOf(a: seq<Association>): (f: seq<bool>)
    ensures |f| == |a|
  {
    seq(|a|, i requires 0 <= i < |a| => a[i].essential)
  }

  /** Data that can be read at all is neither empty nor too long to be read again. */
  lemma DataSize(file: Str, location: Option<Location>)
    requires ItemData(file, location).Some?
    ensures 1 <= |ItemData(file, location).value| <= MAX_ITEM_DATA_SIZE
  {
    hide ExtentData;
    HeifItems.DataSizeIs(file, location.value.base, location.value.extents);
    assert location.value.extents[0] in location.value.extents;
  }

  // ---------- The theorem ----------

  /** Re-opened, the copy's primary item has the type, the data, the property boxes and the flags of
      the original, and so the same extents, rotation and visual dimensions. */
  lemma StandalonePreserves(file: Str, m: Meta, id: nat, item: Item, out: Str) returns (m2: Meta, item2: Item)
    requires ReadMeta(Section(file)) == Some(m) && ItemById(m, id) == Some(item)
    requires Standalone(file, m, item) == Some(out)
    ensures ReadMeta(Section(out)) == Some(m2) && m2.fileType.majorBrand == m.fileType.majorBrand
    ensures m2.primary == Some(1) && ItemById(m2, 1) == Some(item2) && item2.id == 1
    ensures item2.info.typ == item.info.typ
    ensures item2.properties == item.properties
    ensures FlagsOf(PropertyAssociations(m2, 1)) == FlagsOf(PropertyAssociations(m, id))
    ensures ItemData(file, item.location).Some? && ItemData(out, item2.location) == ItemData(file, item.location)
    ensures SpatialExtents(item2.properties) == SpatialExtents(item.properties)
    ensures Rotations(item2.properties) == Rotations(item.properties)
    ensures VisualDimensions(item2.properties) == VisualDimensions(item.properties)
  {
    hide ReadMeta, Section, ItemData, Encoded, Encodable, Copied, PropertyAssociations, AllBoxes, BoxesOf, Flags;
    var props, data := Copied(m, id), ItemData(file, item.location).value;
    assert item.id == id;
    CopiesAreEqual(m, id, item);
    DataSize(file, item.location);
    m2, item2 := RoundTrip(m.fileType.majorBrand, item.info.typ, props, data);
    assert FlagsOf(PropertyAssociations(m2, 1)) == Flags(props);
  }

  /** When a copy can be made. */
  lemma StandaloneSucceeds(file: Str, m: Meta, id: nat, item: Item)
    requires ItemById(m, id) == Some(item)
    ensures Standalone(file, m, item).Some? <==>
      && !Unsupported(item.info.typ)
      && ItemData(file, item.location).Some?
      && |PropertyAssociations(m, id)| <= 127
      && DataOffset(Copied(m, id)) + |ItemData(file, item.location).value| < TWO_32
  {
    hide ItemData, Copied, AllBoxes, DataOffset, Encoded;
    CopiedAreBoxes(m, id);
  }

  // ---------- Properties read back ----------

  lemma ExtentsReadBack(width: nat, height: nat)
    requires width < TWO_32 && height < TWO_32
    ensures IsBox(ExtentsProperty(width, height).box)
    ensures ParseBox(BoxOf(ExtentsProperty(width, height).box)) == Ok(PSpatialExtents(width, height))
  {
    hide BoxBytes, BE32, U32;
    var body := [0, 0, 0, 0] + BE32(width) + BE32(height);
    BoxTail(ISPE, body);
    assert body[4..] == BE32(width) + BE32(height);
    assert body[8..] == BE32(height) + [];
    U32OfBE32(width, BE32(height));
    U32OfBE32(height, []);
  }

  lemma RotationReadsBack(quarterTurns: int)
    ensures IsBox(RotationProperty(quarterTurns).box)
    ensures ParseBox(BoxOf(RotationProperty(quarterTurns).box)) == Ok(PRotation(quarterTurns % 4))
  {
    hide BoxBytes;
    BoxTail(IROT, [quarterTurns % 4]);
  }

  /** An image that is written with extents and a rotation is displayed with them. */
  lemma DisplayedAsWritten(brand: Str, itemType: Str, config: Property, width: nat, height: nat, quarterTurns: int, data: Str)
    returns (m: Meta, item: Item)
    requires width < TWO_32 && height < TWO_32
    requires IsBox(config.box) && BoxOf(config.box).typ !in {ISPE, IROT}
    requires var props := [config, ExtentsProperty(width, height), RotationProperty(quarterTurns)];
      Encodable(brand, itemType, props, data) && Writable(itemType)
    ensures var file := Encoded(brand, itemType, [config, ExtentsProperty(width, height), RotationProperty(quarterTurns)], data);
      ReadMeta(Section(file)) == Some(m) && m.primary == Some(1) && ItemById(m, 1) == Some(item)
    ensures SpatialExtents(item.properties) == Some((width, height))
    ensures Rotations(item.properties) == quarterTurns % 4
    ensures VisualDimensions(item.properties) ==
      Some(if quarterTurns % 2 == 0 then (width, height) else (height, width))
  {
    hide ExtentsProperty, RotationProperty, ReadMeta, Section, Encoded, Encodable, ItemById, ItemData, IsBox, BoxOf, ParseBox, BoxesOf, SpatialExtents, Rotations;
    var e, r := ExtentsProperty(width, height), RotationProperty(quarterTurns);
    var props := [config, e, r];
    ExtentsReadBack(width, height);
    RotationReadsBack(quarterTurns);
    m, item := RoundTrip(brand, itemType, props, data);
    OnlyTheirTypes(BoxOf(config.box));
    BoxesOfThree(config, e, r);
    var angle := Turned(quarterTurns);
    FoundInOrder(BoxOf(config.box), BoxOf(e.box), BoxOf(r.box), width, height, angle);
  }

  lemma Turned(quarterTurns: int) returns (angle: Angle)
    ensures angle == quarterTurns % 4 && angle % 2 == quarterTurns % 2
  {
    angle := quarterTurns % 4;
    IsRemainder(2 * (quarterTurns / 4) + angle / 2, angle % 2);
    assert quarterTurns == 2 * (2 * (quarterTurns / 4) + angle / 2) + angle % 2;
  }

  lemma IsRemainder(q: int, r: int)
    requires 0 <= r < 2
    ensures (2 * q + r) % 2 == r
  {
  }

  lemma BoxesOfThree(a: Property, b: Property, c: Property)
    requires IsBox(a.box) && IsBox(b.box) && IsBox(c.box)
    ensures AllBoxes([a, b, c]) && BoxesOf([a, b, c]) == [BoxOf(a.box), BoxOf(b.box), BoxOf(c.box)]
  {
    hide IsBox, BoxOf;
  }

  lemma FoundInOrder(a: Box, b: Box, c: Box, width: nat, height: nat, angle: Angle)
    requires ParseBox(a).Ok? ==> !ParseBox(a).value.PSpatialExtents? && !ParseBox(a).value.PRotation?
    requires ParseBox(b) == Ok(PSpatialExtents(width, height)) && ParseBox(c) == Ok(PRotation(angle))
    ensures SpatialExtents([a, b, c]) == Some((width, height)) && Rotations([a, b, c]) == angle
  {
    hide ParseBox;
    assert [a, b, c][1..] == [b, c] && [b, c][1..] == [c];
    assert SpatialExtents([b, c]) == Some((width, height));
    assert Rotations([c]) == angle && Rotations([b, c]) == angle;
  }

  lemma OnlyTheirTypes(b: Box)
    requires b.typ !in {ISPE, IROT}
    ensures ParseBox(b).Ok? ==> !ParseBox(b).value.PSpatialExtents? && !ParseBox(b).value.PRotation?
  {
  }
}
