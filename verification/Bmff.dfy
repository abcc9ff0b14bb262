/**
 Boxes of the ISO base media file format, and what the parsers make of their bodies.
 The functions below say which value, if any, the parsers of the next module return.
 */
module Bmff {
  import opened Wrappers
  import opened Bytes

  /** Four characters. */
  type Tag = s: Str | |s| == 4 witness [0, 0, 0, 0]

  // ---------- Boxes ----------

  /** What the first bytes of the input say about the next box.  remain is the length of the
      body, which extends to the end of the input if remain is None. */
  datatype Header =
    | End
    | Bad
    | Header(typ: Tag, size: nat, headerSize: nat, remain: Option<nat>)

  /** An input that ends right before the type, or right before a 64-bit size, counts as a regular end. */
  function ReadHeader(s: Str): (h: Header)
    ensures h.Header? ==> 8 <= h.headerSize <= |s|
    ensures h.Header? && h.remain.Some? ==> h.size == h.headerSize + h.remain.value
  {
    if |s| == 0 || |s| == 4 then End
    else if |s| < 8 then Bad
    else
      var size, typ := U32(s), s[4..8];
      if size == 1 then
        if |s| == 8 then End
        else if |s| < 16 then Bad
        else
          var large := U64(s[8..]);
          if 16 <= large < TWO_63 then Header(typ, large, 16, Some(large - 16)) else Bad
      else if size == 0 then Header(typ, 0, 8, None)
      else if size < 8 then Bad
      else Header(typ, size, 8, Some(size - 8))
  }

  /** Where the box ends in the input; a body may be cut short by the end of the input. */
  function BoxEnd(h: Header, n: nat): (e: nat)
    requires h.Header? && h.headerSize <= n
    ensures h.headerSize <= e <= n
  {
    if h.remain.None? || h.headerSize + h.remain.value > n then n else h.headerSize + h.remain.value
  }

  datatype Box = Box(typ: Tag, body: Str)

  /** The boxes in s up to its end, or None if there is something that is not a box. */
  function SplitBoxes(s: Str): (bs: Option<seq<Box>>)
    ensures bs.Some? ==> forall b :: b in bs.value ==> |b.body| + 8 <= |s|
    decreases |s|
  {
    match ReadHeader(s)
    case End => Some([])
    case Bad => None
    case Header(typ, size, headerSize, remain) =>
      var e := BoxEnd(ReadHeader(s), |s|);
      var box := Box(typ, s[headerSize..e]);
      if remain.None? then Some([box])
      else match SplitBoxes(s[e..])
        case Some(rest) => Some([box] + rest)
        case None => None
  }

  // ---------- Fields ----------

  /** A value read from the front, and what follows it. */
  datatype Read<+T> = Read(value: T, rest: Str)

  function Take16(s: Str): Option<Read<nat>>
  {
    if |s| < 2 then None else Some(Read(U16(s), s[2..]))
  }

  function Take32(s: Str): Option<Read<nat>>
  {
    if |s| < 4 then None else Some(Read(U32(s), s[4..]))
  }

  function Take8(s: Str): Option<Read<nat>>
  {
    if |s| < 1 then None else Some(Read(s[0], s[1..]))
  }

  lemma Take16Written(n: nat, t: Str)
    requires n < 0x1_0000
    ensures Take16(BE16(n) + t) == Some(Read(n, t))
  {
    U16OfBE16(n, t);
    assert (BE16(n) + t)[2..] == t;
  }

  lemma Take32Written(n: nat, t: Str)
    requires n < TWO_32
    ensures Take32(BE32(n) + t) == Some(Read(n, t))
  {
    U32OfBE32(n, t);
    assert (BE32(n) + t)[4..] == t;
  }

  /** An integer of 0, 1, 2, 4 or 8 bytes. */
  function TakeN(size: nat, s: Str): Option<Read<nat>>
  {
    if size == 0 then Some(Read(0, s))
    else if size == 1 then Take8(s)
    else if size == 2 then Take16(s)
    else if size == 4 then Take32(s)
    else if size == 8 && |s| >= 8 then Some(Read(U64(s), s[8..]))
    else None
  }

  /** A string up to a zero byte, which must be there. */
  function TakeString(s: Str): Option<Read<Str>>
    decreases |s|
  {
    if s == [] then None
    else if s[0] == 0 then Some(Read([], s[1..]))
    else match TakeString(s[1..])
      case Some(r) => Some(Read([s[0]] + r.value, r.rest))
      case None => None
  }

  /** A string that need not be ended by a zero byte. */
  function UpToZero(s: Str): Str
    decreases |s|
  {
    if s == [] || s[0] == 0 then [] else [s[0]] + UpToZero(s[1..])
  }

  /** Version and flags, the first four bytes of a full box. */
  datatype Full = Full(version: Byte, flags: nat)

  function TakeFull(s: Str): Option<Read<Full>>
  {
    if |s| < 4 then None else Some(Read(Full(s[0], s[1] as int * 0x1_0000 + s[2] as int * 256 + s[3]), s[4..]))
  }

  // ---------- ftyp ----------

  datatype FileType = FileType(majorBrand: Tag, minorVersion: Tag, compatible: seq<Tag>)

  function Quads(s: Str): seq<Tag>
    decreases |s|
  {
    if |s| < 4 then [] else [s[..4]] + Quads(s[4..])
  }

  function ParseFileType(s: Str): Option<FileType>
  {
    if |s| < 8 then None else Some(FileType(s[..4], s[4..8], Quads(s[8..])))
  }

  // ---------- meta ----------

  /** Version and flags are missing if the bytes behind a size spell the type of a first child. */
  function ParseMeta(s: Str): Option<seq<Box>>
  {
    if |s| >= 8 && s[4..8] == HDLR then SplitBoxes(s)
    else if |s| < 4 then None
    else SplitBoxes(s[4..])
  }

  // ---------- hdlr and pitm ----------

  datatype Handler = Handler(typ: Tag, name: Str)

  function ParseHandler(s: Str): Option<Handler>
  {
    if |s| < 24 then None else Some(Handler(s[8..12], UpToZero(s[24..])))
  }

  function ParsePrimaryItem(s: Str): Option<nat>
  {
    match TakeFull(s)
    case None => None
    case Some(f) =>
      match if f.value.version == 0 then Take16(f.rest) else Take32(f.rest)
      case Some(r) => Some(r.value)
      case None => None
  }

  // ---------- infe and iinf ----------

  /** The last three are empty for most types. */
  datatype Strings = Strings(name: Str, contentType: Str, contentEncoding: Str, uriType: Str)

  datatype ItemInfo = ItemInfo(id: nat, protection: nat, typ: Tag, strings: Strings)

  /** The strings that the type asks for, if they are there. */
  function EntryStrings(typ: Tag, s: Str): Option<Strings>
  {
    match TakeString(s)
    case None => None
    case Some(name) =>
      if typ == MIME then
        match TakeString(name.rest)
        case None => None
        case Some(content) =>
          if content.rest == [] then Some(Strings(name.value, content.value, [], []))
          else match TakeString(content.rest)
            case None => None
            case Some(encoding) => Some(Strings(name.value, content.value, encoding.value, []))
      else if typ == URI then
        match TakeString(name.rest)
        case None => None
        case Some(uri) => Some(Strings(name.value, [], [], uri.value))
      else Some(Strings(name.value, [], [], []))
  }

  /** The item type is looked at but not consumed, so it is read once more as part of the name. */
  function ParseItemInfoEntry(s: Str): Option<ItemInfo>
  {
    if |s| < 4 || s[0] != 2 || |s| < 12 then None
    else match EntryStrings(s[8..12], s[8..])
      case None => None
      case Some(strings) => Some(ItemInfo(U16(s[4..]), U16(s[6..]), s[8..12], strings))
  }

  // ---------- ipma ----------

  datatype Association = Association(essential: bool, index: nat)

  datatype Entry = Entry(id: nat, associations: seq<Association>)

  function TakeAssociation(wide: bool, s: Str): Option<Read<Association>>
  {
    if |s| < 1 then None
    else if !wide then Some(Read(Association(s[0] >= 128, s[0] % 128), s[1..]))
    else if |s| < 2 then None
    else Some(Read(Association(s[0] >= 128, s[0] as int % 128 * 256 + s[1]), s[2..]))
  }

  function TakeAssociations(wide: bool, n: nat, s: Str): Option<Read<seq<Association>>>
  {
    if n == 0 then Some(Read([], s))
    else match TakeAssociation(wide, s)
      case None => None
      case Some(a) =>
        match TakeAssociations(wide, n - 1, a.rest)
        case None => None
        case Some(r) => Some(Read([a.value] + r.value, r.rest))
  }

  function TakeEntry(f: Full, s: Str): Option<Read<Entry>>
  {
    match if f.version < 1 then Take16(s) else Take32(s)
    case None => None
    case Some(id) =>
      match Take8(id.rest)
      case None => None
      case Some(n) =>
        match TakeAssociations(f.flags % 2 == 1, n.value, n.rest)
        case None => None
        case Some(r) => Some(Read(Entry(id.value, r.value), r.rest))
  }

  function TakeEntries(f: Full, n: nat, s: Str): Option<seq<Entry>>
  {
    if n == 0 then Some([])
    else match TakeEntry(f, s)
      case None => None
      case Some(e) =>
        match TakeEntries(f, n - 1, e.rest)
        case None => None
        case Some(r) => Some([e.value] + r)
  }

  function ParseAssociations(s: Str): Option<seq<Entry>>
  {
    match TakeFull(s)
    case None => None
    case Some(f) =>
      match Take32(f.rest)
      case None => None
      case Some(n) => TakeEntries(f.value, n.value, n.rest)
  }

  // ---------- iloc ----------

  datatype Extent = Extent(offset: nat, length: nat)

  datatype Location = Location(id: nat, construction: nat, dataReference: nat, base: nat, extents: seq<Extent>)

  datatype Sizes = Sizes(version: Byte, offset: nat, length: nat, base: nat, index: nat)

  function TakeExtent(z: Sizes, s: Str): Option<Read<Extent>>
  {
    match if z.version > 0 then TakeN(z.index, s) else Some(Read(0, s))
    case None => None
    case Some(i) =>
      match TakeN(z.offset, i.rest)
      case None => None
      case Some(o) =>
        match TakeN(z.length, o.rest)
        case None => None
        case Some(l) => Some(Read(Extent(o.value, l.value), l.rest))
  }

  function TakeExtents(z: Sizes, n: nat, s: Str): Option<Read<seq<Extent>>>
  {
    if n == 0 then Some(Read([], s))
    else match TakeExtent(z, s)
      case None => None
      case Some(e) =>
        match TakeExtents(z, n - 1, e.rest)
        case None => None
        case Some(r) => Some(Read([e.value] + r.value, r.rest))
  }

  function TakeLocation(z: Sizes, s: Str): Option<Read<Location>>
  {
    match if z.version < 2 then Take16(s) else Take32(s)
    case None => None
    case Some(id) =>
      match if z.version > 0 then Take16(id.rest) else Some(Read(0, id.rest))
      case None => None
      case Some(m) =>
        match Take16(m.rest)
        case None => None
        case Some(d) =>
          match TakeN(z.base, d.rest)
          case None => None
          case Some(b) =>
            match Take16(b.rest)
            case None => None
            case Some(n) =>
              match TakeExtents(z, n.value, n.rest)
              case None => None
              case Some(x) => Some(Read(Location(id.value, m.value % 16, d.value, b.value, x.value), x.rest))
  }

  function TakeLocations(z: Sizes, n: nat, s: Str): Option<seq<Location>>
  {
    if n == 0 then Some([])
    else match TakeLocation(z, s)
      case None => None
      case Some(l) =>
        match TakeLocations(z, n - 1, l.rest)
        case None => None
        case Some(r) => Some([l.value] + r)
  }

  function ParseItemLocation(s: Str): Option<seq<Location>>
  {
    if |s| < 8 then None
    else
      var z := Sizes(s[0], s[4] / 16, s[4] % 16, s[5] / 16, if s[0] > 0 then s[5] % 16 else 0);
      match if z.version < 2 then Take16(s[6..]) else Take32(s[6..])
      case None => None
      case Some(n) => TakeLocations(z, n.value, n.rest)
  }

  // ---------- ispe and irot ----------

  function ParseSpatialExtents(s: Str): Option<(nat, nat)>
  {
    if |s| < 12 then None else Some((U32(s[4..]), U32(s[8..])))
  }

  /** A number of quarter turns. */
  type Angle = n: nat | n < 4

  function ParseRotation(s: Str): Option<Angle>
  {
    if |s| < 1 then None else Some(s[0] % 4)
  }

  // ---------- Any box ----------

  datatype Parsed =
    | PFileType(fileType: FileType)
    | PMeta(children: seq<Box>)
    | PHandler(handler: Handler)
    | PPrimaryItem(item: nat)
    | PItemInfo(infos: seq<ItemInfo>)
    | PItemInfoEntry(info: ItemInfo)
    | PItemLocation(locations: seq<Location>)
    | PItemProperties(container: seq<Box>, associations: seq<seq<Entry>>)
    | PContainer(properties: seq<Box>)
    | PAssociations(entries: seq<Entry>)
    | PSpatialExtents(width: nat, height: nat)
    | PRotation(angle: Angle)

  datatype Outcome = Unknown | Failed | Ok(value: Parsed)

  /** The value of the parser for the type of the box. */
  function ParseBox(b: Box): Outcome
    decreases |b.body|, 2, 0
  {
    var s := b.body;
    if b.typ == FTYP then (match ParseFileType(s) case Some(v) => Ok(PFileType(v)) case None => Failed)
    else if b.typ == META then (match ParseMeta(s) case Some(v) => Ok(PMeta(v)) case None => Failed)
    else if b.typ == HDLR then (match ParseHandler(s) case Some(v) => Ok(PHandler(v)) case None => Failed)
    else if b.typ == PITM then (match ParsePrimaryItem(s) case Some(v) => Ok(PPrimaryItem(v)) case None => Failed)
    else if b.typ == IINF then (match ParseItemInfo(s) case Some(v) => Ok(PItemInfo(v)) case None => Failed)
    else if b.typ == INFE then (match ParseItemInfoEntry(s) case Some(v) => Ok(PItemInfoEntry(v)) case None => Failed)
    else if b.typ == ILOC then (match ParseItemLocation(s) case Some(v) => Ok(PItemLocation(v)) case None => Failed)
    else if b.typ == IPRP then (match ParseItemProperties(s) case Some(v) => Ok(v) case None => Failed)
    else if b.typ == IPCO then (match SplitBoxes(s) case Some(v) => Ok(PContainer(v)) case None => Failed)
    else if b.typ == IPMA then (match ParseAssociations(s) case Some(v) => Ok(PAssociations(v)) case None => Failed)
    else if b.typ == ISPE then (match ParseSpatialExtents(s) case Some((w, h)) => Ok(PSpatialExtents(w, h)) case None => Failed)
    else if b.typ == IROT then (match ParseRotation(s) case Some(a) => Ok(PRotation(a)) case None => Failed)
    else Unknown
  }

  /** All children must parse; those that are not entries are dropped. */
  function Infos(bs: seq<Box>, n: nat): Option<seq<ItemInfo>>
    requires forall b :: b in bs ==> |b.body| < n
    decreases n, 0, |bs|
  {
    if bs == [] then Some([])
    else match ParseBox(bs[0])
      case Unknown => None
      case Failed => None
      case Ok(v) =>
        match Infos(bs[1..], n)
        case None => None
        case Some(r) => Some((if v.PItemInfoEntry? then [v.info] else []) + r)
  }

  function ParseItemInfo(s: Str): Option<seq<ItemInfo>>
    decreases |s|, 1, 0
  {
    if |s| < 6 then None
    else match SplitBoxes(s[6..])
      case None => None
      case Some(bs) => Infos(bs, |s|)
  }

  /** All these boxes must be association boxes. */
  function AssociationBoxes(bs: seq<Box>, n: nat): Option<seq<seq<Entry>>>
    requires forall b :: b in bs ==> |b.body| < n
    decreases n, 0, |bs|
  {
    if bs == [] then Some([])
    else match ParseBox(bs[0])
      case Ok(PAssociations(entries)) =>
        (match AssociationBoxes(bs[1..], n)
         case None => None
         case Some(r) => Some([entries] + r))
      case _ => None
  }

  function ParseItemProperties(s: Str): Option<Parsed>
    decreases |s|, 1, 0
  {
    match SplitBoxes(s)
    case None => None
    case Some(bs) =>
      if |bs| < 2 then None
      else match ParseBox(bs[0])
        case Ok(PContainer(properties)) =>
          (match AssociationBoxes(bs[1..], |s|)
           case None => None
           case Some(a) => Some(PItemProperties(properties, a)))
        case _ => None
  }

  // ---------- Box types ----------

  const FTYP: Str := [102, 116, 121, 112]
  const META: Str := [109, 101, 116, 97]
  const HDLR: Str := [104, 100, 108, 114]
  const PITM: Str := [112, 105, 116, 109]
  const IINF: Str := [105, 105, 110, 102]
  const INFE: Str := [105, 110, 102, 101]
  const ILOC: Str := [105, 108, 111, 99]
  const IPRP: Str := [105, 112, 114, 112]
  const IPCO: Str := [105, 112, 99, 111]
  const IPMA: Str := [105, 112, 109, 97]
  const ISPE: Str := [105, 115, 112, 101]
  const IROT: Str := [105, 114, 111, 116]
  const MDAT: Str := [109, 100, 97, 116]
  const MIME: Str := [109, 105, 109, 101]
  const URI: Str := [117, 114, 105, 32]
  const PICT: Str := [112, 105, 99, 116]
  const MIF1: Str := [109, 105, 102, 49]
}
