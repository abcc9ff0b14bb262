/**
 HEIF files: the bytes that are written for one image, and what items a file has.
 The methods of module Heif are proved against the functions here.
 */
module HeifSpec {
  import opened Wrappers
  import opened Bytes
  import opened Bmff

  // ---------- Writing ----------

  /** A box with a 32-bit size, which is truncated if the body is too long. */
  function BoxBytes(typ: Str, body: Str): Str
  {
    BE32((8 + |body|) % TWO_32) + typ + body
  }

  datatype Property = Property(box: Str, essential: bool)

  ghost predicate IsBox(p: Str)
  {
    |p| >= 8 && U32(p) == |p| % TWO_32
  }

  ghost predicate AllBoxes(props: seq<Property>)
  {
    forall i :: 0 <= i < |props| ==> IsBox(props[i].box)
  }

  ghost function Container(props: seq<Property>): Str
  {
    if props == [] then [] else props[0].box + Container(props[1..])
  }

  /** One byte a property: its 1-based index, and the essential flag. */
  ghost function Indexes(props: seq<Property>): (s: Str)
    requires |props| <= 127
    ensures |s| == |props|
  {
    seq(|props|, i requires 0 <= i < |props| => (if props[i].essential then 128 else 0) + i + 1)
  }

  ghost function FtypBody(brand: Str): Str
  {
    brand + [0, 0, 0, 0] + MIF1 + brand
  }

  ghost function HdlrBody(): Str
  {
    Zeros(8) + PICT + Zeros(13)
  }

  ghost function PitmBody(): Str
  {
    Zeros(4) + BE16(1)
  }

  ghost function InfeBody(itemType: Str): Str
  {
    [2, 0, 0, 0] + BE16(1) + BE16(0) + itemType + [0]
  }

  ghost function IinfBody(itemType: Str): Str
  {
    Zeros(4) + BE16(1) + BoxBytes(INFE, InfeBody(itemType))
  }

  ghost function IpmaBody(indexes: Str): Str
    requires |indexes| < 256
  {
    Zeros(4) + BE32(1) + BE16(1) + [|indexes|] + indexes
  }

  ghost function IprpBody(props: seq<Property>): Str
    requires |props| <= 127
  {
    BoxBytes(IPCO, Container(props)) + BoxBytes(IPMA, IpmaBody(Indexes(props)))
  }

  ghost function IlocBody(off: nat, len: nat): (s: Str)
    ensures |s| == 22
  {
    [0, 0, 0, 0, 0x44, 0] + BE16(1) + BE16(1) + BE16(0) + BE16(1) + BE32(off) + BE32(len)
  }

  ghost function MetaBody(itemType: Str, props: seq<Property>, off: nat, len: nat): Str
    requires |props| <= 127
  {
    Zeros(4)
    + BoxBytes(HDLR, HdlrBody())
    + BoxBytes(PITM, PitmBody())
    + BoxBytes(IINF, IinfBody(itemType))
    + BoxBytes(ILOC, IlocBody(off, len))
    + BoxBytes(IPRP, IprpBody(props))
  }

  /** Where the data of the item begins.  Apart from the properties, and the one byte for each in
      their associations, the size of what is before it is fixed. */
  ghost function DataOffset(props: seq<Property>): nat
  {
    191 + |Container(props)| + |props|
  }

  ghost predicate Encodable(brand: Str, itemType: Str, props: seq<Property>, data: Str)
  {
    && |brand| == 4 && |itemType| == 4
    && |props| <= 127
    && AllBoxes(props)
    && DataOffset(props) + |data| < TWO_32
  }

  ghost function Encoded(brand: Str, itemType: Str, props: seq<Property>, data: Str): Str
    requires |props| <= 127
  {
    BoxBytes(FTYP, FtypBody(brand))
    + BoxBytes(META, MetaBody(itemType, props, DataOffset(props) % TWO_32, |data| % TWO_32))
    + BoxBytes(MDAT, data)
  }

  // ---------- Reading ----------

  const ASSUMED_MAX_SIZE := 5 * 0x100_0000_0000

  /** The part of the file in which boxes are looked for. */
  function Section(s: Str): Str
  {
    if |s| <= ASSUMED_MAX_SIZE then s else s[..ASSUMED_MAX_SIZE]
  }

  datatype Meta = Meta(
    fileType: FileType,
    handler: Option<Handler>,
    primary: Option<nat>,
    infos: Option<seq<ItemInfo>>,
    properties: Option<Properties>,
    locations: Option<seq<Location>>)

  datatype Properties = Properties(container: seq<Box>, associations: seq<seq<Entry>>)

  /** What one child of the meta box adds.  Of several children of one type the last one counts. */
  function AddChild(m: Meta, v: Parsed): Meta
  {
    match v
    case PHandler(handler) => m.(handler := Some(handler))
    case PPrimaryItem(item) => m.(primary := Some(item))
    case PItemInfo(infos) => m.(infos := Some(infos))
    case PItemProperties(c, a) => m.(properties := Some(Properties(c, a)))
    case PItemLocation(l) => m.(locations := Some(l))
    case _ => m
  }

  /** Children of unknown types are skipped; one that does not parse is an error. */
  function Collect(children: seq<Box>, m: Meta): Option<Meta>
  {
    if children == [] then Some(m)
    else match ParseBox(children[0])
      case Unknown => Collect(children[1..], m)
      case Failed => None
      case Ok(v) => Collect(children[1..], AddChild(m, v))
  }

  /** The first box must be ftyp and the second one meta. */
  function ReadMeta(file: Str): Option<Meta>
  {
    var h := ReadHeader(file);
    if !h.Header? || h.typ != FTYP then None
    else
      var e := BoxEnd(h, |file|);
      match ParseFileType(file[h.headerSize..e])
      case None => None
      case Some(fileType) =>
        if h.remain.None? then None
        else
          var rest := file[e..];
          var h2 := ReadHeader(rest);
          if !h2.Header? || h2.typ != META then None
          else match ParseMeta(rest[h2.headerSize..BoxEnd(h2, |rest|)])
            case None => None
            case Some(children) => Collect(children, Meta(fileType, None, None, None, None, None))
  }

  datatype Item = Item(id: nat, info: ItemInfo, location: Option<Location>, properties: seq<Box>)

  function LastInfo(infos: seq<ItemInfo>, id: nat): Option<ItemInfo>
  {
    if infos == [] then None
    else match LastInfo(infos[1..], id)
      case Some(i) => Some(i)
      case None => if infos[0].id == id then Some(infos[0]) else None
  }

  function LastLocation(locations: seq<Location>, id: nat): Option<Location>
  {
    if locations == [] then None
    else match LastLocation(locations[1..], id)
      case Some(l) => Some(l)
      case None => if locations[0].id == id then Some(locations[0]) else None
  }

  /** The associations with valid indexes. */
  function WithIndex(associations: seq<Association>, n: nat): (r: seq<Association>)
    ensures forall a :: a in r ==> 1 <= a.index <= n
  {
    if associations == [] then []
    else (if 1 <= associations[0].index <= n then [associations[0]] else []) + WithIndex(associations[1..], n)
  }

  function OfItem(entries: seq<Entry>, id: nat, n: nat): (r: seq<Association>)
    ensures forall a :: a in r ==> 1 <= a.index <= n
  {
    if entries == [] then []
    else (if entries[0].id == id then WithIndex(entries[0].associations, n) else []) + OfItem(entries[1..], id, n)
  }

  /** The first association box that has anything for the item counts. */
  function FirstOfItem(boxes: seq<seq<Entry>>, id: nat, n: nat): (r: seq<Association>)
    ensures forall a :: a in r ==> 1 <= a.index <= n
  {
    if boxes == [] then []
    else
      var r := OfItem(boxes[0], id, n);
      if r != [] then r else FirstOfItem(boxes[1..], id, n)
  }

  function PropertyAssociations(m: Meta, id: nat): (r: seq<Association>)
    ensures m.properties.Some? ==> forall a :: a in r ==> 1 <= a.index <= |m.properties.value.container|
    ensures m.properties.None? ==> r == []
  {
    match m.properties
    case None => []
    case Some(p) => FirstOfItem(p.associations, id, |p.container|)
  }

  function PropertyBoxes(container: seq<Box>, associations: seq<Association>): (bs: seq<Box>)
    requires forall a :: a in associations ==> 1 <= a.index <= |container|
    ensures |bs| == |associations|
  {
    seq(|associations|, i requires 0 <= i < |associations| => container[associations[i].index - 1])
  }

  function ItemById(m: Meta, id: nat): Option<Item>
  {
    match (match m.infos case Some(infos) => LastInfo(infos, id) case None => None)
    case None => None
    case Some(info) =>
      var location := match m.locations case Some(l) => LastLocation(l, id) case None => None;
      var asses := PropertyAssociations(m, id);
      Some(Item(id, info, location,
                if m.properties.Some? then PropertyBoxes(m.properties.value.container, asses) else []))
  }

  const MAX_ITEM_DATA_SIZE := 64 * 0x10_0000

  function TotalLength(extents: seq<Extent>): nat
  {
    if extents == [] then 0 else extents[0].length + TotalLength(extents[1..])
  }

  /** No extent may be empty, and together they may not be too long. */
  ghost predicate SizesAllowed(extents: seq<Extent>)
  {
    (forall e :: e in extents ==> e.length > 0) && TotalLength(extents) <= MAX_ITEM_DATA_SIZE
  }

  /** The bytes of the extents, if all of them lie inside the file. */
  ghost function ExtentData(file: Str, base: nat, extents: seq<Extent>): Option<Str>
  {
    if extents == [] then Some([])
    else
      var off := (base + extents[0].offset) % TWO_64;
      if off < base || off >= TWO_63 || off + extents[0].length > |file| then None
      else match ExtentData(file, base, extents[1..])
        case None => None
        case Some(r) => Some(file[off..off + extents[0].length] + r)
  }

  ghost function ItemData(file: Str, location: Option<Location>): Option<Str>
  {
    match location
    case None => None
    case Some(l) =>
      if l.construction != 0 || l.dataReference != 0 || l.extents == [] || !SizesAllowed(l.extents) then None
      else ExtentData(file, l.base, l.extents)
  }

  // ---------- Properties ----------

  function ExtentsProperty(width: nat, height: nat): Property
  {
    Property(BoxBytes(ISPE, [0, 0, 0, 0] + BE32(width) + BE32(height)), false)
  }

  /** Also for negative numbers of turns. */
  function RotationProperty(quarterTurns: int): Property
  {
    Property(BoxBytes(IROT, [quarterTurns % 4]), true)
  }

  /** The first property that gives an extent, not corrected for rotations. */
  function SpatialExtents(properties: seq<Box>): Option<(nat, nat)>
  {
    if properties == [] then None
    else match ParseBox(properties[0])
      case Ok(PSpatialExtents(w, h)) => Some((w, h))
      case _ => SpatialExtents(properties[1..])
  }

  function Rotations(properties: seq<Box>): Angle
  {
    if properties == [] then 0
    else match ParseBox(properties[0])
      case Ok(PRotation(angle)) => angle
      case _ => Rotations(properties[1..])
  }

  function VisualDimensions(properties: seq<Box>): Option<(nat, nat)>
  {
    match SpatialExtents(properties)
    case None => None
    case Some((w, h)) => Some(if Rotations(properties) % 2 == 0 then (w, h) else (h, w))
  }

  // ---------- An item as a file of its own ----------

  /** Items that are no coded images: derived ones, and metadata. */
  predicate Unsupported(typ: Str)
  {
    typ in {GRID, IDEN, IOVL, EXIF, MIME, URI}
  }

  const GRID: Str := [103, 114, 105, 100]
  const IDEN: Str := [105, 100, 101, 110]
  const IOVL: Str := [105, 111, 118, 108]
  const EXIF: Str := [69, 120, 105, 102]

  /** The properties of an item, to be written again. */
  ghost function Copied(m: Meta, id: nat): (props: seq<Property>)
    ensures |props| == |PropertyAssociations(m, id)|
  {
    var a := PropertyAssociations(m, id);
    if m.properties.None? then []
    else
      var c := m.properties.value.container;
      seq(|a|, i requires 0 <= i < |a| && 1 <= a[i].index <= |c| =>
        Property(BoxBytes(c[a[i].index - 1].typ, c[a[i].index - 1].body), a[i].essential))
  }

  ghost function Standalone(file: Str, m: Meta, item: Item): Option<Str>
  {
    if Unsupported(item.info.typ) then None
    else match ItemData(file, item.location)
      case None => None
      case Some(data) =>
        var props := Copied(m, item.id);
        if Encodable(m.fileType.majorBrand, item.info.typ, props, data)
        then Some(Encoded(m.fileType.majorBrand, item.info.typ, props, data))
        else None
  }
}
