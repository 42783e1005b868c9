/** The linked-offset lists inside QUERY_DIRECTORY and CHANGE_NOTIFY responses. */
module OffsetChain {
  import opened Bytes
  import opened Framing
  import opened EaChain
  import opened Utf

  /** Fixed part of an entry, where its name length sits, and the alignment asked
      of the link to the next entry. The name follows the fixed part. */
  datatype Layout = Layout(fixed: nat, nameLengthAt: nat, alignment: nat) {
    predicate Valid() { 4 <= nameLengthAt && nameLengthAt + 4 <= fixed && alignment > 0 }
  }

  const DIRECTORY := Layout(104, 60, 1)
  const NOTIFY := Layout(12, 8, 4)

  datatype Region = Region(start: nat, nameLength: nat, next: nat, name: bytes)

  /** One entry of the list between `at` and `end`, with every check of the decoder.
      The sum in the link check is taken in 32 bits, as the decoder takes it. */
  function RegionAt(data: bytes, at: nat, end: nat, layout: Layout): (r: Result<Region>)
    requires layout.Valid() && at < end <= |data|
  {
    if end - at < layout.fixed then Err(IoError)
    else
      var next := ReadU32(data, at);
      var nameLength := ReadU32(data, at + layout.nameLengthAt);
      var nameAt := at + layout.fixed;
      if nameAt + nameLength > end then Err(IoError)
      else if next != 0 && (next % layout.alignment != 0
                            || next < (layout.fixed + nameLength) % 0x1_0000_0000
                            || at + next > end) then Err(IoError)
      else match DecodeUtf16Le(data[nameAt..nameAt + nameLength])
        case Err(e) => Err(e)
        case Ok(name) => Ok(Region(at, nameLength, next, name))
  }

  function Walk(data: bytes, at: nat, end: nat, layout: Layout): Result<seq<Region>>
    requires layout.Valid() && end <= |data|
    decreases end - at
  {
    if at >= end then Ok([])
    else match RegionAt(data, at, end, layout)
      case Err(e) => Err(e)
      case Ok(region) =>
        if region.next == 0 then Ok([region])
        else Prepend(region, Walk(data, at + region.next, end, layout))
  }

  // --------------------------------------------------------- entry contents

  datatype DirectoryEntry = DirectoryEntry(
    name: bytes, fileIndex: u32, creationTime: u64, lastAccessTime: u64, lastWriteTime: u64,
    changeTime: u64, endOfFile: u64, allocationSize: u64, fileAttributes: u32,
    eaSizeOrReparseTag: u32, fileId: u64)

  datatype NotifyEntry = NotifyEntry(action: u32, name: bytes)

  function ParseDirectory(data: bytes, r: Region): DirectoryEntry
    requires r.start + 104 <= |data|
  {
    var at := r.start;
    DirectoryEntry(r.name, ReadU32(data, at + 4), ReadU64(data, at + 8), ReadU64(data, at + 16),
                   ReadU64(data, at + 24), ReadU64(data, at + 32), ReadU64(data, at + 40),
                   ReadU64(data, at + 48), ReadU32(data, at + 56), ReadU32(data, at + 64),
                   ReadU64(data, at + 96))
  }

  function ParseNotify(data: bytes, r: Region): NotifyEntry
    requires r.start + 12 <= |data|
  {
    NotifyEntry(ReadU32(data, r.start + 4), r.name)
  }

  predicate InBounds(data: bytes, rs: seq<Region>, fixed: nat) {
    forall r | r in rs :: r.start + fixed <= |data|
  }

  lemma {:induction false} WalkInBounds(data: bytes, at: nat, end: nat, layout: Layout)
    requires layout.Valid() && end <= |data| && Walk(data, at, end, layout).Ok?
    ensures InBounds(data, Walk(data, at, end, layout).value, layout.fixed)
    decreases end - at
  {
    hide RegionAt;
    if at < end {
      RegionOk(data, at, end, layout);
      var region := RegionAt(data, at, end, layout).value;
      if region.next != 0 { WalkInBounds(data, at + region.next, end, layout); }
    }
  }

  // ------------------------------------------------------ the whole response

  const QUERY_DIRECTORY: nat := 14
  const CHANGE_NOTIFY: nat := 15
  const STATUS_SUCCESS: nat := 0
  const STATUS_NO_MORE_FILES: nat := 0x8000_0006
  const STATUS_NOTIFY_ENUM_DIR: nat := 0x0000_010C

  /** Header checks shared by both responses: the command and the response flag. */
  function ResponseHeader(data: bytes, command: nat): Result<Header> {
    match DecodeHeader(data)
    case Err(e) => Err(e)
    case Ok(h) => if h.command != command || h.flags % 2 == 0 then Err(ProtocolUnsupported) else Ok(h)
  }

  /** Start and end of the output buffer named by the fixed part of the body. */
  function OutputBounds(data: bytes): (r: Result<(nat, nat)>)
    ensures r.Ok? ==> r.value.1 <= |data|
  {
    if |data| < HEADER_SIZE + 8 then Err(IoError)
    else if ReadU16(data, 64) != 9 then Err(ProtocolUnsupported)
    else
      var offset, length := ReadU16(data, 66), ReadU32(data, 68);
      if length == 0 then Ok((0, 0))
      else if offset < HEADER_SIZE || offset + length > |data| then Err(IoError)
      else Ok((offset, offset + length))
  }

  function WalkOutput(data: bytes, layout: Layout): Result<seq<Region>>
    requires layout.Valid()
  {
    match OutputBounds(data)
    case Err(e) => Err(e)
    case Ok((start, end)) => Walk(data, start, end, layout)
  }

  datatype Response<T> = Response(status: nat, entries: seq<T>)

  function MapDirectory(data: bytes, rs: seq<Region>): (es: seq<DirectoryEntry>)
    requires InBounds(data, rs, 104)
    ensures |es| == |rs|
  {
    seq(|rs|, i requires 0 <= i < |rs| => ParseDirectory(data, rs[i]))
  }

  function MapNotify(data: bytes, rs: seq<Region>): (es: seq<NotifyEntry>)
    requires InBounds(data, rs, 12)
    ensures |es| == |rs|
  {
    seq(|rs|, i requires 0 <= i < |rs| => ParseNotify(data, rs[i]))
  }

  function DirectoryOf(data: bytes, status: nat, walked: Result<seq<Region>>): Result<Response<DirectoryEntry>>
    requires walked.Ok? ==> InBounds(data, walked.value, 104)
  {
    match walked
    case Err(e) => Err(e)
    case Ok(rs) => Ok(Response(status, MapDirectory(data, rs)))
  }

  function NotifyOf(data: bytes, status: nat, walked: Result<seq<Region>>): Result<Response<NotifyEntry>>
    requires walked.Ok? ==> InBounds(data, walked.value, 12)
  {
    match walked
    case Err(e) => Err(e)
    case Ok(rs) => Ok(Response(status, MapNotify(data, rs)))
  }

  lemma OutputInBounds(data: bytes, layout: Layout)
    requires layout.Valid() && WalkOutput(data, layout).Ok?
    ensures InBounds(data, WalkOutput(data, layout).value, layout.fixed)
  {
    var (start, end) := OutputBounds(data).value;
    WalkInBounds(data, start, end, layout);
  }

  function DecodeDirectory(data: bytes): Result<Response<DirectoryEntry>> {
    match ResponseHeader(data, QUERY_DIRECTORY)
    case Err(e) => Err(e)
    case Ok(h) =>
      if h.status == STATUS_NO_MORE_FILES then Ok(Response(h.status, []))
      else if h.status != STATUS_SUCCESS then Err(FromStatus(h.status))
      else
        if WalkOutput(data, DIRECTORY).Ok? then
          OutputInBounds(data, DIRECTORY);
          DirectoryOf(data, h.status, WalkOutput(data, DIRECTORY))
        else Err(WalkOutput(data, DIRECTORY).code)
  }

  function DecodeNotify(data: bytes): Result<Response<NotifyEntry>> {
    match ResponseHeader(data, CHANGE_NOTIFY)
    case Err(e) => Err(e)
    case Ok(h) =>
      if h.status != STATUS_SUCCESS && h.status != STATUS_NOTIFY_ENUM_DIR then Err(FromStatus(h.status))
      else
        if WalkOutput(data, NOTIFY).Ok? then
          OutputInBounds(data, NOTIFY);
          NotifyOf(data, h.status, WalkOutput(data, NOTIFY))
        else Err(WalkOutput(data, NOTIFY).code)
  }

  // -------------------------------------------------------------- the loops

  /** The 32-bit sum of the link check cannot wrap: the name fits in an output
      buffer whose length is itself a 32-bit value. */
  lemma RegionOk(data: bytes, at: nat, end: nat, layout: Layout)
    requires layout.Valid() && at < end <= |data| && RegionAt(data, at, end, layout).Ok?
    ensures var r := RegionAt(data, at, end, layout).value;
            && r.start == at && at + layout.fixed + r.nameLength <= end
            && (r.next != 0 ==> at + r.next <= end && r.next % layout.alignment == 0)
            && (r.next != 0 && end - at < 0x1_0000_0000 ==> layout.fixed + r.nameLength <= r.next)
  {
  }

  lemma WalkStep(data: bytes, done: seq<Region>, at: nat, end: nat, layout: Layout)
    requires layout.Valid() && at < end <= |data| && RegionAt(data, at, end, layout).Ok?
    ensures var r := RegionAt(data, at, end, layout).value;
            PrependAll(done, Walk(data, at, end, layout)) ==
            if r.next == 0 then Ok(done + [r]) else PrependAll(done + [r], Walk(data, at + r.next, end, layout))
  {
    hide RegionAt;
    var r := RegionAt(data, at, end, layout).value;
    if r.next != 0 { PrependMore(done, r, Walk(data, at + r.next, end, layout)); }
  }

  lemma WalkEnds(data: bytes, done: seq<Region>, at: nat, end: nat, layout: Layout)
    requires layout.Valid() && end <= |data|
    ensures at >= end ==> PrependAll(done, Walk(data, at, end, layout)) == Ok(done)
    ensures PrependAll([], Walk(data, at, end, layout)) == Walk(data, at, end, layout)
  {
    assert done + [] == done;
    PrependNothing(Walk(data, at, end, layout));
  }

  lemma MapDirectoryAppend(data: bytes, rs: seq<Region>, r: Region)
    requires InBounds(data, rs, 104) && r.start + 104 <= |data|
    ensures InBounds(data, rs + [r], 104)
    ensures MapDirectory(data, rs + [r]) == MapDirectory(data, rs) + [ParseDirectory(data, r)]
  {
    hide ParseDirectory;
  }

  lemma MapNotifyAppend(data: bytes, rs: seq<Region>, r: Region)
    requires InBounds(data, rs, 12) && r.start + 12 <= |data|
    ensures InBounds(data, rs + [r], 12)
    ensures MapNotify(data, rs + [r]) == MapNotify(data, rs) + [ParseNotify(data, r)]
  {
    hide ParseNotify;
  }

  method DirectoryEntries(data: bytes, start: nat, end: nat, status: nat) returns (r: Result<Response<DirectoryEntry>>)
    requires end <= |data|
    ensures Walk(data, start, end, DIRECTORY).Ok? ==> InBounds(data, Walk(data, start, end, DIRECTORY).value, 104)
    ensures r == DirectoryOf(data, status, Walk(data, start, end, DIRECTORY))
  {
    hide RegionAt, ParseDirectory, MapDirectory, Walk;
    var entries: seq<DirectoryEntry> := [];
    var at := start;
    ghost var regions: seq<Region> := [];
    WalkEnds(data, [], start, end, DIRECTORY);
    assert MapDirectory(data, []) == [];
    while at < end
      invariant InBounds(data, regions, 104) && entries == MapDirectory(data, regions)
      invariant Walk(data, start, end, DIRECTORY) == PrependAll(regions, Walk(data, at, end, DIRECTORY))
      decreases end - at
    {
      var region := RegionAt(data, at, end, DIRECTORY);
      if region.Err? {
        WalkFails(data, regions, at, end, DIRECTORY);
        return Err(region.code);
      }
      RegionOk(data, at, end, DIRECTORY);
      WalkStep(data, regions, at, end, DIRECTORY);
      MapDirectoryAppend(data, regions, region.value);
      entries := entries + [ParseDirectory(data, region.value)];
      regions := regions + [region.value];
      if region.value.next == 0 { return Ok(Response(status, entries)); }
      at := at + region.value.next;
    }
    WalkEnds(data, regions, at, end, DIRECTORY);
    r := Ok(Response(status, entries));
  }

  lemma WalkFails(data: bytes, done: seq<Region>, at: nat, end: nat, layout: Layout)
    requires layout.Valid() && at < end <= |data| && RegionAt(data, at, end, layout).Err?
    ensures PrependAll(done, Walk(data, at, end, layout)) == Err(RegionAt(data, at, end, layout).code)
  {
  }

  method NotifyEntries(data: bytes, start: nat, end: nat, status: nat) returns (r: Result<Response<NotifyEntry>>)
    requires end <= |data|
    ensures Walk(data, start, end, NOTIFY).Ok? ==> InBounds(data, Walk(data, start, end, NOTIFY).value, 12)
    ensures r == NotifyOf(data, status, Walk(data, start, end, NOTIFY))
  {
    hide RegionAt, ParseNotify, MapNotify, Walk;
    var entries: seq<NotifyEntry> := [];
    var at := start;
    ghost var regions: seq<Region> := [];
    WalkEnds(data, [], start, end, NOTIFY);
    assert MapNotify(data, []) == [];
    while at < end
      invariant InBounds(data, regions, 12) && entries == MapNotify(data, regions)
      invariant Walk(data, start, end, NOTIFY) == PrependAll(regions, Walk(data, at, end, NOTIFY))
      decreases end - at
    {
      var region := RegionAt(data, at, end, NOTIFY);
      if region.Err? {
        WalkFails(data, regions, at, end, NOTIFY);
        return Err(region.code);
      }
      RegionOk(data, at, end, NOTIFY);
      WalkStep(data, regions, at, end, NOTIFY);
      MapNotifyAppend(data, regions, region.value);
      entries := entries + [ParseNotify(data, region.value)];
      regions := regions + [region.value];
      if region.value.next == 0 { return Ok(Response(status, entries)); }
      at := at + region.value.next;
    }
    WalkEnds(data, regions, at, end, NOTIFY);
    r := Ok(Response(status, entries));
  }

  method DecodeDirectoryBytes(data: bytes) returns (r: Result<Response<DirectoryEntry>>)
    ensures r == DecodeDirectory(data)
  {
    hide DecodeHeader, OutputBounds, Walk, MapDirectory;
    var header := ResponseHeader(data, QUERY_DIRECTORY);
    if header.Err? { return Err(header.code); }
    var status := header.value.status;
    if status == STATUS_NO_MORE_FILES { return Ok(Response(status, [])); }
    if status != STATUS_SUCCESS { return Err(FromStatus(status)); }
    var bounds := OutputBounds(data);
    if bounds.Err? { return Err(bounds.code); }
    r := DirectoryEntries(data, bounds.value.0, bounds.value.1, status);
  }

  method DecodeNotifyBytes(data: bytes) returns (r: Result<Response<NotifyEntry>>)
    ensures r == DecodeNotify(data)
  {
    hide DecodeHeader, OutputBounds, Walk, MapNotify;
    var header := ResponseHeader(data, CHANGE_NOTIFY);
    if header.Err? { return Err(header.code); }
    var status := header.value.status;
    if status != STATUS_SUCCESS && status != STATUS_NOTIFY_ENUM_DIR { return Err(FromStatus(status)); }
    var bounds := OutputBounds(data);
    if bounds.Err? { return Err(bounds.code); }
    r := NotifyEntries(data, bounds.value.0, bounds.value.1, status);
  }

  // ------------------------------------------------ what an accepted list is

  /** Entry regions lie in order, do not overlap and stay inside the buffer. */
  ghost predicate Laid(rs: seq<Region>, at: nat, end: nat, layout: Layout)
    requires layout.Valid()
  {
    && (forall i | 0 <= i < |rs| :: at <= rs[i].start && rs[i].start + layout.fixed + rs[i].nameLength <= end)
    && (forall i, j | 0 <= i < j < |rs| :: rs[i].start + layout.fixed + rs[i].nameLength <= rs[j].start)
    && (forall i | 0 <= i < |rs| :: (rs[i].start - at) % layout.alignment == 0)
  }

  lemma {:induction false} WalkLaid(data: bytes, at: nat, end: nat, layout: Layout)
    requires layout.Valid() && at <= end <= |data| && end - at < 0x1_0000_0000 && Walk(data, at, end, layout).Ok?
    requires layout.alignment == 1 || layout.alignment == 4
    ensures var rs := Walk(data, at, end, layout).value;
            Laid(rs, at, end, layout) && layout.fixed * |rs| <= end - at
    decreases end - at
  {
    hide RegionAt, Laid;
    LaidBase(Region(at, 0, 0, []), at, end, layout);
    if at < end {
      RegionOk(data, at, end, layout);
      var region := RegionAt(data, at, end, layout).value;
      if region.next == 0 {
        assert Walk(data, at, end, layout).value == [region];
        LaidBase(region, at, end, layout);
      } else {
        WalkLaid(data, at + region.next, end, layout);
        var rest := Walk(data, at + region.next, end, layout).value;
        assert Walk(data, at, end, layout).value == [region] + rest;
        LaidPrepend(region, rest, at, end, layout);
        OneMore(layout.fixed, |rest|);
      }
    }
  }

  lemma OneMore(a: nat, n: nat)
    ensures a * (1 + n) == a + a * n
  {
  }

  lemma LaidBase(region: Region, at: nat, end: nat, layout: Layout)
    requires layout.Valid() && region.start == at
    ensures Laid([], at, end, layout)
    ensures at + layout.fixed + region.nameLength <= end ==> Laid([region], at, end, layout)
  {
  }

  lemma LaidPrepend(region: Region, rest: seq<Region>, at: nat, end: nat, layout: Layout)
    requires layout.Valid() && (layout.alignment == 1 || layout.alignment == 4)
    requires region.start == at && region.next % layout.alignment == 0
    requires layout.fixed + region.nameLength <= region.next && at + region.next <= end
    requires Laid(rest, at + region.next, end, layout)
    ensures Laid([region] + rest, at, end, layout)
  {
    var rs := [region] + rest;
    forall i | 0 <= i < |rs|
      ensures at <= rs[i].start && rs[i].start + layout.fixed + rs[i].nameLength <= end
      ensures (rs[i].start - at) % layout.alignment == 0
    {
      if i > 0 {
        assert rs[i] == rest[i - 1];
        AlignedSum(rest[i - 1].start - (at + region.next), region.next, layout.alignment);
      }
    }
    forall i, j | 0 <= i < j < |rs| ensures rs[i].start + layout.fixed + rs[i].nameLength <= rs[j].start {
      assert rs[j] == rest[j - 1];
      if i > 0 { assert rs[i] == rest[i - 1]; }
    }
  }

  lemma AlignedSum(a: int, b: int, alignment: nat)
    requires (alignment == 1 || alignment == 4) && a % alignment == 0 && b % alignment == 0
    ensures (a + b) % alignment == 0
  {
  }

  /** An accepted listing: entries in order, disjoint, inside the output buffer,
      so never more than one per 104 bytes of it. */
  lemma DirectoryShape(data: bytes)
    requires WalkOutput(data, DIRECTORY).Ok?
    ensures OutputBounds(data).Ok?
    ensures var (start, end) := OutputBounds(data).value;
            var rs := WalkOutput(data, DIRECTORY).value;
            Laid(rs, start, end, DIRECTORY) && 104 * |rs| <= end - start
  {
    hide Walk;
    var (start, end) := OutputBounds(data).value;
    WalkLaid(data, start, end, DIRECTORY);
  }

  /** The same for notifications; here every entry also starts on a four-byte
      boundary of the output buffer. */
  lemma NotifyShape(data: bytes)
    requires WalkOutput(data, NOTIFY).Ok?
    ensures OutputBounds(data).Ok?
    ensures var (start, end) := OutputBounds(data).value;
            var rs := WalkOutput(data, NOTIFY).value;
            && Laid(rs, start, end, NOTIFY) && 12 * |rs| <= end - start
            && forall r | r in rs :: (r.start - start) % 4 == 0
  {
    hide Walk;
    var (start, end) := OutputBounds(data).value;
    WalkLaid(data, start, end, NOTIFY);
  }

  // ------------------------------------------------ specification encoder

  /** An entry to be laid out: the bytes around the name length, the name, and
      filler up to the next entry. */
  datatype Item = Item(head: bytes, tail: bytes, text: seq<scalar>, gap: bytes) {
    predicate Fits(layout: Layout) {
      |head| == layout.nameLengthAt - 4 && |tail| == layout.fixed - layout.nameLengthAt - 4
    }
    function Size(): nat { 8 + |head| + |tail| + |Utf16(text)| + |gap| }
  }

  function ItemBytes(item: Item, next: nat): (r: bytes)
    ensures |r| == item.Size()
  {
    hide Le;
    Le(next, 4) + item.head + Le(|Utf16(item.text)|, 4) + item.tail + Utf16(item.text) + item.gap
  }

  function LaidOut(items: seq<Item>): bytes {
    if items == [] then []
    else if |items| == 1 then ItemBytes(items[0], 0)
    else ItemBytes(items[0], items[0].Size()) + LaidOut(items[1..])
  }

  ghost predicate CanLayOut(items: seq<Item>, layout: Layout) {
    && layout.Valid() && |LaidOut(items)| < 0x1_0000_0000
    && (forall i | 0 <= i < |items| :: items[i].Fits(layout))
    && (forall i | 0 <= i < |items| - 1 :: items[i].Size() % layout.alignment == 0)
  }

  lemma ItemSlices(p0: bytes, head: bytes, p1: bytes, tail: bytes, name: bytes, gap: bytes, rest: bytes)
    requires |p0| == 4 && |p1| == 4
    ensures var b := p0 + head + p1 + tail + name + gap + rest;
            && b[0..4] == p0 && b[4..4 + |head|] == head
            && b[4 + |head|..8 + |head|] == p1 && b[8 + |head|..8 + |head| + |tail|] == tail
            && b[8 + |head| + |tail|..8 + |head| + |tail| + |name|] == name
  {
  }

  /** `data` holds `item` at `at`: its fixed parts can be read there. */
  ghost predicate Holds(data: bytes, at: nat, item: Item, layout: Layout)
    requires layout.Valid()
  {
    && item.Fits(layout) && at + layout.fixed <= |data|
    && data[at + 4..at + layout.nameLengthAt] == item.head
    && data[at + layout.nameLengthAt + 4..at + layout.fixed] == item.tail
  }

  /** Where the parts of an item in place can be read. */
  lemma ItemParts(data: bytes, at: nat, end: nat, layout: Layout, item: Item, next: u32, rest: bytes)
    requires layout.Valid() && at < end <= |data| && item.Fits(layout)
    requires data[at..end] == ItemBytes(item, next) + rest
    ensures var name := Utf16(item.text);
            && at + layout.fixed + |name| <= at + item.Size() <= end
            && data[at..at + 4] == Le(next, 4)
            && data[at + layout.nameLengthAt..at + layout.nameLengthAt + 4] == Le(|name|, 4)
            && data[at + layout.fixed..at + layout.fixed + |name|] == name
    ensures Holds(data, at, item, layout)
  {
    hide Le, Utf16, ItemBytes;
    var name, fixed, sizeAt := Utf16(item.text), layout.fixed, layout.nameLengthAt;
    var whole: bytes := data[at..end];
    ItemBytesSlices(item, next, rest, layout);
    Within(data, at, whole, 0, 4);
    Within(data, at, whole, 4, sizeAt);
    Within(data, at, whole, sizeAt, sizeAt + 4);
    Within(data, at, whole, sizeAt + 4, fixed);
    Within(data, at, whole, fixed, fixed + |name|);
  }

  lemma ItemBytesSlices(item: Item, next: u32, rest: bytes, layout: Layout)
    requires layout.Valid() && item.Fits(layout)
    ensures var b := ItemBytes(item, next) + rest;
            var name := Utf16(item.text);
            && layout.fixed + |name| <= item.Size() <= |b|
            && b[0..4] == Le(next, 4) && b[4..layout.nameLengthAt] == item.head
            && b[layout.nameLengthAt..layout.nameLengthAt + 4] == Le(|name|, 4)
            && b[layout.nameLengthAt + 4..layout.fixed] == item.tail
            && b[layout.fixed..layout.fixed + |name|] == name
  {
    hide Le, Utf16;
    var name := Utf16(item.text);
    ItemSlices(Le(next, 4), item.head, Le(|name|, 4), item.tail, name, item.gap, rest);
  }

  lemma ItemDecodes(data: bytes, at: nat, end: nat, layout: Layout, item: Item, next: u32, rest: bytes)
    requires layout.Valid() && at < end <= |data| && item.Fits(layout) && item.Size() < 0x1_0000_0000
    requires data[at..end] == ItemBytes(item, next) + rest
    requires next == 0 || (next == item.Size() && next % layout.alignment == 0)
    ensures RegionAt(data, at, end, layout) == Ok(Region(at, |Utf16(item.text)|, next, Utf8(item.text)))
    ensures Holds(data, at, item, layout)
  {
    hide Le, FromLe, Utf16, Utf8, DecodeUtf16Le, ItemBytes, Holds;
    Pow256Values();
    ItemParts(data, at, end, layout, item, next, rest);
    LeRoundTrip(next, 4);
    LeRoundTrip(|Utf16(item.text)|, 4);
    DecodeMeaning(item.text);
  }

  /** Walking a laid-out list finds one region per item, each holding the item's
      fixed parts and its name in UTF-8. */
  lemma {:induction false} WalkInverts(data: bytes, at: nat, end: nat, layout: Layout, items: seq<Item>)
    requires CanLayOut(items, layout) && at <= end <= |data| && data[at..end] == LaidOut(items)
    ensures Walk(data, at, end, layout).Ok?
    ensures var rs := Walk(data, at, end, layout).value;
            && |rs| == |items|
            && forall i | 0 <= i < |rs| ::
                 rs[i].name == Utf8(items[i].text) && Holds(data, rs[i].start, items[i], layout)
    decreases |items|
  {
    hide RegionAt, Holds, ItemBytes, Utf8;
    if items != [] {
      var item := items[0];
      if |items| == 1 {
        assert data[at..end] == ItemBytes(item, 0) + [];
        ItemDecodes(data, at, end, layout, item, 0, []);
      } else {
        var size := item.Size();
        ItemDecodes(data, at, end, layout, item, size, LaidOut(items[1..]));
        assert data[at + size..end] == data[at..end][size..] == LaidOut(items[1..]);
        WalkInverts(data, at + size, end, layout, items[1..]);
      }
    }
  }

  // ------------------------------------------------- round trips of responses

  function BodyBytes(chain: bytes): bytes {
    Le(9, 2) + Le(72, 2) + Le(|chain|, 4) + chain
  }

  lemma BodySlices(header: bytes, p0: bytes, p1: bytes, p2: bytes, chain: bytes)
    requires |header| == 64 && |p0| == 2 && |p1| == 2 && |p2| == 4
    ensures var b := header + (p0 + p1 + p2 + chain);
            && b[64..66] == p0 && b[66..68] == p1 && b[68..72] == p2
            && b[72..72 + |chain|] == chain && |b| == 72 + |chain|
  {
  }

  /** The output buffer of such a response holds the list; an empty one is at zero. */
  lemma BodyBounds(h: Header, chain: bytes) returns (start: nat, end: nat)
    requires |chain| < 0x1_0000_0000
    ensures var data := EncodeHeader(h) + BodyBytes(chain);
            && start <= end <= |data| && end - start == |chain|
            && OutputBounds(data) == Ok((start, end)) && data[start..end] == chain
  {
    hide Le, FromLe, EncodeHeader;
    Pow256Values();
    BodySlices(EncodeHeader(h), Le(9, 2), Le(72, 2), Le(|chain|, 4), chain);
    LeRoundTrip(9, 2);
    LeRoundTrip(72, 2);
    LeRoundTrip(|chain|, 4);
    start := if chain == [] then 0 else 72;
    end := start + |chain|;
  }

  function DirectoryItem(e: DirectoryEntry, text: seq<scalar>, shortName: bytes, gap: bytes): (r: Item)
    requires |shortName| == 28
    ensures r.text == text
  {
    Item(Le(e.fileIndex, 4) + Le(e.creationTime, 8) + Le(e.lastAccessTime, 8) + Le(e.lastWriteTime, 8)
         + Le(e.changeTime, 8) + Le(e.endOfFile, 8) + Le(e.allocationSize, 8) + Le(e.fileAttributes, 4),
         Le(e.eaSizeOrReparseTag, 4) + shortName + Le(e.fileId, 8), text, gap)
  }

  lemma HeadSlices(p0: bytes, p1: bytes, p2: bytes, p3: bytes, p4: bytes, p5: bytes, p6: bytes, p7: bytes)
    requires |p0| == 4 && |p1| == 8 && |p2| == 8 && |p3| == 8 && |p4| == 8 && |p5| == 8 && |p6| == 8 && |p7| == 4
    ensures var b := p0 + p1 + p2 + p3 + p4 + p5 + p6 + p7;
            && b[0..4] == p0 && b[4..12] == p1 && b[12..20] == p2 && b[20..28] == p3
            && b[28..36] == p4 && b[36..44] == p5 && b[44..52] == p6 && b[52..56] == p7
  {
  }

  lemma Within(data: bytes, at: nat, part: bytes, i: nat, j: nat)
    requires at + |part| <= |data| && data[at..at + |part|] == part && i <= j <= |part|
    ensures data[at + i..at + j] == part[i..j]
  {
    SliceOfSlice(data, at, at + |part|, at + i, at + j);
  }

  /** An entry held at a region is parsed back from it. */
  lemma DirectoryItemParses(data: bytes, r: Region, e: DirectoryEntry, text: seq<scalar>, shortName: bytes, gap: bytes)
    requires |shortName| == 28 && e.name == r.name
    requires Holds(data, r.start, DirectoryItem(e, text, shortName, gap), DIRECTORY)
    ensures ParseDirectory(data, r) == e
  {
    hide Le, FromLe;
    Pow256Values();
    var item := DirectoryItem(e, text, shortName, gap);
    var at := r.start;
    HeadSlices(Le(e.fileIndex, 4), Le(e.creationTime, 8), Le(e.lastAccessTime, 8), Le(e.lastWriteTime, 8),
               Le(e.changeTime, 8), Le(e.endOfFile, 8), Le(e.allocationSize, 8), Le(e.fileAttributes, 4));
    Within(data, at + 4, item.head, 0, 4);
    Within(data, at + 4, item.head, 4, 12);
    Within(data, at + 4, item.head, 12, 20);
    Within(data, at + 4, item.head, 20, 28);
    Within(data, at + 4, item.head, 28, 36);
    Within(data, at + 4, item.head, 36, 44);
    Within(data, at + 4, item.head, 44, 52);
    Within(data, at + 4, item.head, 52, 56);
    Within(data, at + 64, item.tail, 0, 4);
    Within(data, at + 64, item.tail, 32, 40);
    assert item.tail[0..4] == Le(e.eaSizeOrReparseTag, 4) && item.tail[32..40] == Le(e.fileId, 8);
    LeRoundTrip(e.fileIndex, 4);
    LeRoundTrip(e.creationTime, 8);
    LeRoundTrip(e.lastAccessTime, 8);
    LeRoundTrip(e.lastWriteTime, 8);
    LeRoundTrip(e.changeTime, 8);
    LeRoundTrip(e.endOfFile, 8);
    LeRoundTrip(e.allocationSize, 8);
    LeRoundTrip(e.fileAttributes, 4);
    LeRoundTrip(e.eaSizeOrReparseTag, 4);
    LeRoundTrip(e.fileId, 8);
  }

  /** What a server puts into one listing entry beside the decoded fields. */
  datatype Extras = Extras(text: seq<scalar>, shortName: bytes, gap: bytes)

  function DirectoryItems(es: seq<DirectoryEntry>, xs: seq<Extras>): (items: seq<Item>)
    requires |xs| == |es| && forall x | x in xs :: |x.shortName| == 28
    ensures |items| == |es|
  {
    seq(|es|, i requires 0 <= i < |es| => DirectoryItem(es[i], xs[i].text, xs[i].shortName, xs[i].gap))
  }

  /** Decoding inverts the specification encoder: a response holding any list
      of entries, the empty one included and whatever the filler, decodes to it. */
  lemma DirectoryRoundTrip(h: Header, es: seq<DirectoryEntry>, xs: seq<Extras>)
    requires h.command == QUERY_DIRECTORY && h.flags % 2 == 1 && h.status == STATUS_SUCCESS
    requires |xs| == |es| && forall x | x in xs :: |x.shortName| == 28
    requires forall i | 0 <= i < |es| :: es[i].name == Utf8(xs[i].text)
    requires CanLayOut(DirectoryItems(es, xs), DIRECTORY)
    ensures DecodeDirectory(EncodeHeader(h) + BodyBytes(LaidOut(DirectoryItems(es, xs))))
         == Ok(Response(STATUS_SUCCESS, es))
  {
    hide Holds, DirectoryItem, ItemBytes, EncodeHeader, BodyBytes, OutputBounds, ParseDirectory, Walk, Utf8;
    var items := DirectoryItems(es, xs);
    var chain := LaidOut(items);
    var data := EncodeHeader(h) + BodyBytes(chain);
    HeaderRoundTrip(h, BodyBytes(chain));
    var start, end := BodyBounds(h, chain);
    WalkInverts(data, start, end, DIRECTORY, items);
    var rs := Walk(data, start, end, DIRECTORY).value;
    OutputInBounds(data, DIRECTORY);
    forall i | 0 <= i < |es| ensures ParseDirectory(data, rs[i]) == es[i] {
      assert xs[i] in xs;
      assert items[i] == DirectoryItem(es[i], xs[i].text, xs[i].shortName, xs[i].gap);
      DirectoryItemParses(data, rs[i], es[i], xs[i].text, xs[i].shortName, xs[i].gap);
    }
    assert MapDirectory(data, rs) == es;
  }

  datatype NotifyExtras = NotifyExtras(text: seq<scalar>, gap: bytes)

  function NotifyItems(es: seq<NotifyEntry>, xs: seq<NotifyExtras>): (items: seq<Item>)
    requires |xs| == |es|
    ensures |items| == |es|
  {
    seq(|es|, i requires 0 <= i < |es| => Item(Le(es[i].action, 4), [], xs[i].text, xs[i].gap))
  }

  lemma NotifyItemParses(data: bytes, r: Region, e: NotifyEntry, text: seq<scalar>, gap: bytes)
    requires e.name == r.name && Holds(data, r.start, Item(Le(e.action, 4), [], text, gap), NOTIFY)
    ensures ParseNotify(data, r) == e
  {
    hide Le, FromLe;
    Pow256Values();
    LeRoundTrip(e.action, 4);
  }

  lemma NotifyRoundTrip(h: Header, es: seq<NotifyEntry>, xs: seq<NotifyExtras>)
    requires h.command == CHANGE_NOTIFY && h.flags % 2 == 1
    requires h.status == STATUS_SUCCESS || h.status == STATUS_NOTIFY_ENUM_DIR
    requires |xs| == |es| && forall i | 0 <= i < |es| :: es[i].name == Utf8(xs[i].text)
    requires CanLayOut(NotifyItems(es, xs), NOTIFY)
    ensures DecodeNotify(EncodeHeader(h) + BodyBytes(LaidOut(NotifyItems(es, xs)))) == Ok(Response(h.status, es))
  {
    hide Holds, ItemBytes, EncodeHeader, BodyBytes, OutputBounds, ParseNotify, Walk, Utf8;
    var items := NotifyItems(es, xs);
    var chain := LaidOut(items);
    var data := EncodeHeader(h) + BodyBytes(chain);
    HeaderRoundTrip(h, BodyBytes(chain));
    var start, end := BodyBounds(h, chain);
    WalkInverts(data, start, end, NOTIFY, items);
    var rs := Walk(data, start, end, NOTIFY).value;
    OutputInBounds(data, NOTIFY);
    forall i | 0 <= i < |es| ensures ParseNotify(data, rs[i]) == es[i] {
      assert items[i] == Item(Le(es[i].action, 4), [], xs[i].text, xs[i].gap);
      NotifyItemParses(data, rs[i], es[i], xs[i].text, xs[i].gap);
    }
    assert MapNotify(data, rs) == es;
  }

  // ---------------------------------------- exactly what is accepted, and read

  /** Where the output buffer is: structure size 9 at 64, offset at 66, length at 68. */
  lemma BoundsAccepted(data: bytes)
    ensures OutputBounds(data).Ok? <==>
            && |data| >= 72 && ReadU16(data, 64) == 9
            && (ReadU32(data, 68) == 0 || (ReadU16(data, 66) >= 64 && ReadU16(data, 66) + ReadU32(data, 68) <= |data|))
    ensures OutputBounds(data).Ok? ==>
      var (start, end) := OutputBounds(data).value;
      if ReadU32(data, 68) == 0 then start == end == 0
      else start == ReadU16(data, 66) && end == start + ReadU32(data, 68)
  {
  }

  /** An entry of a directory page is accepted exactly if its fixed part and its name fit,
      its link is zero or leads behind the name and stays in bounds, and the name is
      well-formed UTF-16LE. */
  lemma DirectoryRegionAccepted(data: bytes, at: nat, end: nat)
    requires at < end <= |data|
    ensures RegionAt(data, at, end, DIRECTORY).Ok? <==>
            && at + 104 <= end && at + 104 + ReadU32(data, at + 60) <= end
            && (ReadU32(data, at) == 0
                || (ReadU32(data, at) >= (104 + ReadU32(data, at + 60)) % 0x1_0000_0000
                    && at + ReadU32(data, at) <= end))
            && WellFormedUtf16(data[at + 104..at + 104 + ReadU32(data, at + 60)])
    ensures RegionAt(data, at, end, DIRECTORY).Ok? ==>
      var r := RegionAt(data, at, end, DIRECTORY).value;
      && r.start == at && r.next == ReadU32(data, at)
      && DecodeUtf16Le(data[at + 104..at + 104 + ReadU32(data, at + 60)]) == Ok(r.name)
  {
    hide DecodeUtf16Le, WellFormedUtf16;
    if at + 104 <= end && at + 104 + ReadU32(data, at + 60) <= end {
      DecodeThenEncode(data[at + 104..at + 104 + ReadU32(data, at + 60)]);
    }
  }

  /** The same for a notification, whose link must be a multiple of four. */
  lemma NotifyRegionAccepted(data: bytes, at: nat, end: nat)
    requires at < end <= |data|
    ensures RegionAt(data, at, end, NOTIFY).Ok? <==>
            && at + 12 <= end && at + 12 + ReadU32(data, at + 8) <= end
            && (ReadU32(data, at) == 0
                || (ReadU32(data, at) % 4 == 0
                    && ReadU32(data, at) >= (12 + ReadU32(data, at + 8)) % 0x1_0000_0000
                    && at + ReadU32(data, at) <= end))
            && WellFormedUtf16(data[at + 12..at + 12 + ReadU32(data, at + 8)])
    ensures RegionAt(data, at, end, NOTIFY).Ok? ==>
      var r := RegionAt(data, at, end, NOTIFY).value;
      && r.start == at && r.next == ReadU32(data, at)
      && DecodeUtf16Le(data[at + 12..at + 12 + ReadU32(data, at + 8)]) == Ok(r.name)
  {
    hide DecodeUtf16Le, WellFormedUtf16;
    if at + 12 <= end && at + 12 + ReadU32(data, at + 8) <= end {
      DecodeThenEncode(data[at + 12..at + 12 + ReadU32(data, at + 8)]);
    }
  }

  /** A response of this command: 64 bytes of header, FE S M B, 64, the command at 12, the
      response flag at 16. */
  predicate IsResponse(data: bytes, command: nat) {
    && |data| >= 64 && data[0..4] == [0xFE, 0x53, 0x4D, 0x42] && ReadU16(data, 4) == 64
    && ReadU16(data, 12) == command && ReadU32(data, 16) % 2 == 1
  }

  lemma HeaderAccepted(data: bytes, command: nat)
    ensures ResponseHeader(data, command).Ok? <==> IsResponse(data, command)
    ensures ResponseHeader(data, command).Ok? ==> ResponseHeader(data, command).value.status == ReadU32(data, 8)
  {
    if |data| >= 64 { ReadBytes(data, 0); }
  }

  /** A directory response is accepted exactly if it is one, and either says that there
      are no more files or is a success whose output is a list; its entries hold what
      stands at the offsets of section 2.4.17 of MS-FSCC. */
  lemma DirectoryAccepted(data: bytes)
    ensures DecodeDirectory(data).Ok? <==>
            && IsResponse(data, 14)
            && (ReadU32(data, 8) == 0x8000_0006 || (ReadU32(data, 8) == 0 && WalkOutput(data, DIRECTORY).Ok?))
    ensures DecodeDirectory(data).Ok? ==>
      var response := DecodeDirectory(data).value;
      && response.status == ReadU32(data, 8)
      && (response.status == 0x8000_0006 ==> response.entries == [])
      && (response.status == 0 ==>
            && WalkOutput(data, DIRECTORY).Ok?
            && var rs := WalkOutput(data, DIRECTORY).value;
               && |response.entries| == |rs|
               && forall i | 0 <= i < |rs| ::
                    rs[i].start + 104 <= |data| && DirectoryFields(data, rs[i], response.entries[i]))
  {
    hide WalkOutput, DecodeHeader, ResponseHeader, IsResponse;
    HeaderAccepted(data, 14);
    if WalkOutput(data, DIRECTORY).Ok? { OutputInBounds(data, DIRECTORY); }
  }

  predicate DirectoryFields(data: bytes, r: Region, e: DirectoryEntry)
    requires r.start + 104 <= |data|
  {
    var at := r.start;
    && e.name == r.name && e.fileIndex == ReadU32(data, at + 4) && e.creationTime == ReadU64(data, at + 8)
    && e.lastAccessTime == ReadU64(data, at + 16) && e.lastWriteTime == ReadU64(data, at + 24)
    && e.changeTime == ReadU64(data, at + 32) && e.endOfFile == ReadU64(data, at + 40)
    && e.allocationSize == ReadU64(data, at + 48) && e.fileAttributes == ReadU32(data, at + 56)
    && e.eaSizeOrReparseTag == ReadU32(data, at + 64) && e.fileId == ReadU64(data, at + 96)
  }

  /** A notification response likewise, with success or the request to enumerate again. */
  lemma NotifyAccepted(data: bytes)
    ensures DecodeNotify(data).Ok? <==>
            IsResponse(data, 15) && ReadU32(data, 8) in {0, 0x10C} && WalkOutput(data, NOTIFY).Ok?
    ensures DecodeNotify(data).Ok? ==>
      var response, rs := DecodeNotify(data).value, WalkOutput(data, NOTIFY).value;
      && response.status == ReadU32(data, 8) && |response.entries| == |rs|
      && forall i | 0 <= i < |rs| ::
           && rs[i].start + 12 <= |data| && response.entries[i].name == rs[i].name
           && response.entries[i].action == ReadU32(data, rs[i].start + 4)
  {
    hide WalkOutput, DecodeHeader, ResponseHeader, IsResponse;
    HeaderAccepted(data, 15);
    if WalkOutput(data, NOTIFY).Ok? { OutputInBounds(data, NOTIFY); }
  }
}
