/**
 * What the pcapng format (draft-ietf-opsawg-pcapng, sections 4.1 to 4.4) means by a file, and exactly when the reader
 * reads that. The format gives every packet the link type, the timestamp resolution and the offset of its own
 * interface, and pads the data of a simple packet cut by the snap length; the reader has one link type and one current
 * unit for the whole file, and takes the padding for data.
 */
module DraftPcapng {
  import opened Wrappers
  import opened Arith
  import opened Bytes
  import opened Pcapng
  import opened ForeignPcapng

  const OPT_IF_TSOFFSET: u16 := 14
  const MICROSECONDS: byte := 6

  // ---------------------------------------------------------------- what the format means

  /** An interface: link type, timestamp resolution, offset in seconds and snap length (0 for none). */
  datatype Iface = Iface(linkNum: u16, resolution: byte, offset: int, snapLen: u32)

  /** A packet; one without a time comes from a simple block. */
  datatype Packet = Packet(linkNum: u16, nanos: Option<int>, data: seq<byte>, origLen: u32)

  function ResolutionOf(os: seq<OptionField>): byte {
    if os == [] then MICROSECONDS
    else if IsResolution(os[0]) then os[0].value[0]
    else ResolutionOf(os[1..])
  }

  /** A 64-bit two's complement number in the file's byte order. */
  function Signed64(be: bool, s: seq<byte>): int
    requires |s| == 8
  {
    var n := if be then FromBe(s) else FromLe(s);
    if n >= 0x8000_0000_0000_0000 then n - TWO_64 else n
  }

  function OffsetOf(be: bool, os: seq<OptionField>): int {
    if os == [] then 0
    else if os[0].code == OPT_IF_TSOFFSET && |os[0].value| == 8 then Signed64(be, os[0].value)
    else OffsetOf(be, os[1..])
  }

  function IfaceOf(be: bool, item: Item): Iface
    requires item.Interface?
  {
    Iface(item.linkNum, ResolutionOf(item.options), OffsetOf(be, item.options), item.snapLen)
  }

  /** Timestamp units in a second: a power of ten, or of two where the high bit is set. */
  function PerSecond(resolution: byte): (d: nat)
    ensures d >= 1
  {
    if resolution >= 0x80 then Pow2(resolution - 0x80) else Pow10(resolution)
  }

  /** The time of a packet in whole nanoseconds, the rest cut off. */
  function NanosAt(iface: Iface, units: u64): int {
    assert units * NANOS_PER_SEC >= 0;
    iface.offset * NANOS_PER_SEC + units * NANOS_PER_SEC / PerSecond(iface.resolution)
  }

  /** How much of a packet a snap length keeps. */
  function Kept(snapLen: u32, origLen: u32): u32 { if snapLen == 0 then origLen else Min(snapLen, origLen) }

  /**
   * A packet names an interface of its section; a simple packet belongs to the first one, holds what its snap length
   * keeps, and is padded to 32 bits. A section header states its byte order.
   */
  predicate Conforms(be: bool, item: Item, ifaces: seq<Iface>) {
    match item
    case Interface(_, _, _, _, _) => true
    case Enhanced(iface, _, _, _, _) => iface < |ifaces|
    case Simple(origLen, data, padding) =>
      ifaces != [] && |data| == Kept(ifaces[0].snapLen, origLen) && |padding| == Padding(|data|)
    case Other(blockType, body) => blockType == BT_SHB ==> |body| >= 16 && body[0..4] == Word(be, BOM, 4)
  }

  /** The interfaces known after an item; a section header starts the numbering anew. */
  function IfacesAfter(be: bool, item: Item, ifaces: seq<Iface>): seq<Iface> {
    match item
    case Interface(_, _, _, _, _) => ifaces + [IfaceOf(be, item)]
    case Enhanced(_, _, _, _, _) => ifaces
    case Simple(_, _, _) => ifaces
    case Other(blockType, _) => if blockType == BT_SHB then [] else ifaces
  }

  predicate HoldsPacket(item: Item) { item.Enhanced? || item.Simple? }

  function PacketOf(be: bool, item: Item, ifaces: seq<Iface>): Packet
    requires HoldsPacket(item) && Conforms(be, item, ifaces)
  {
    match item
    case Enhanced(iface, units, origLen, data, _) =>
      Packet(ifaces[iface].linkNum, Some(NanosAt(ifaces[iface], units)), data, origLen)
    case Simple(origLen, data, _) => Packet(ifaces[0].linkNum, None, data, origLen)
  }

  /** The packets of a file, if it conforms. */
  function PacketsMeant(be: bool, items: seq<Item>, ifaces: seq<Iface>): Option<seq<Packet>>
    decreases |items|
  {
    if items == [] then Some([])
    else if !Conforms(be, items[0], ifaces) then None
    else
      match PacketsMeant(be, items[1..], IfacesAfter(be, items[0], ifaces))
      case None => None
      case Some(ps) => if HoldsPacket(items[0]) then Some([PacketOf(be, items[0], ifaces)] + ps) else Some(ps)
  }

  /** No section starts among these blocks. */
  predicate NoHeaders(items: seq<Item>) {
    forall i :: 0 <= i < |items| ==> !(items[i].Other? && items[i].blockType == BT_SHB)
  }

  /** The packets of a file of sections, each in its own byte order and with its own interfaces. */
  function SectionsMeant(ss: seq<Section>): Option<seq<Packet>> {
    if ss == [] then Some([])
    else if !NoHeaders(ss[0].items) then None
    else
      match PacketsMeant(ss[0].be, ss[0].items, [])
      case None => None
      case Some(ps) =>
        match SectionsMeant(ss[1..])
        case None => None
        case Some(more) => Some(ps + more)
  }

  /** The record says what the packet is; no time is time zero. */
  predicate Faithful(link: LinkType, r: PcapRecord, p: Packet) {
    && LinkTypeNum(link) == p.linkNum && r.data == p.data && r.origLen == p.origLen
    && r.tsSecs * NANOS_PER_SEC + r.tsNanos == (match p.nanos case Some(n) => n case None => 0)
  }

  predicate AllFaithful(link: LinkType, rs: seq<PcapRecord>, ps: seq<Packet>) {
    |rs| == |ps| && forall i :: 0 <= i < |rs| ==> Faithful(link, rs[i], ps[i])
  }

  /** The file was read as meant. */
  predicate ReadAsMeant(r: Result<PcapngFile, PcapngError>, ps: seq<Packet>) {
    r.Ok? && !r.value.truncated && AllFaithful(r.value.linkType, r.value.records, ps)
  }

  // ---------------------------------------------------------------- when it is read so

  /**
   * The clock the reader uses, `unitNanos` a unit, gives the packet's time: the interface's own count of seconds,
   * cross-multiplied, is within one nanosecond of it.
   */
  predicate ClockRight(iface: Iface, unitNanos: u64, units: u64) {
    var d := PerSecond(iface.resolution);
    0 <= (units + iface.offset * d) * NANOS_PER_SEC - SatMul(units, unitNanos) * d < d
  }

  /** A simple packet is whole, or needs no padding. */
  predicate Unpadded(item: Item)
    requires item.Simple?
  {
    |item.data| == item.origLen || item.padding == []
  }

  /** The unit the reader uses after an item: that of the last interface to state one. */
  function UnitAfter(item: Item, unitNanos: u64): u64 {
    if item.Interface? && Resolution(item.options).Some? then Resolution(item.options).value else unitNanos
  }

  /**
   * Every interface has a link type the reader knows; every packet is on an interface of the file's one link type,
   * with the right clock or unpadded.
   */
  predicate ReadableAs(link: LinkType, be: bool, items: seq<Item>, ifaces: seq<Iface>, unitNanos: u64)
    decreases |items|
  {
    items != [] ==>
      var item := items[0];
      && (match item
          case Interface(linkNum, _, _, _, _) => LinkTypeFromNum(linkNum).Ok?
          case Enhanced(iface, units, _, _, _) =>
            iface < |ifaces| && ifaces[iface].linkNum == LinkTypeNum(link) &&
              ClockRight(ifaces[iface], unitNanos, units)
          case Simple(_, _, _) => ifaces != [] && ifaces[0].linkNum == LinkTypeNum(link) && Unpadded(item)
          case Other(_, _) => true)
      && ReadableAs(link, be, items[1..], IfacesAfter(be, item, ifaces), UnitAfter(item, unitNanos))
  }

  /** The link type number of the last interface description. */
  function LastLink(items: seq<Item>): Option<u16> {
    if items == [] then None
    else if items[|items| - 1].Interface? then Some(items[|items| - 1].linkNum)
    else LastLink(items[..|items| - 1])
  }

  // ---------------------------------------------------------------- the reader, packet by packet

  /** The records the reader makes, starting from a unit; none if an interface's link type is unknown to it. */
  function RecordsRead(items: seq<Item>, unitNanos: u64): Option<seq<PcapRecord>>
    decreases |items|
  {
    if items == [] then Some([])
    else if items[0].Interface? && LinkTypeFromNum(items[0].linkNum).Err? then None
    else
      match RecordsRead(items[1..], UnitAfter(items[0], unitNanos))
      case None => None
      case Some(rs) => if HoldsPacket(items[0]) then Some([RecordOf(items[0], unitNanos)] + rs) else Some(rs)
  }

  function RecordOf(item: Item, unitNanos: u64): PcapRecord
    requires HoldsPacket(item)
  {
    match item
    case Enhanced(_, units, origLen, data, _) => Stamped(units, unitNanos, data, origLen)
    case Simple(origLen, data, padding) => PcapRecord(0, 0, UpTo(data + padding, origLen), origLen)
  }

  function LinkNow(item: Item, link: Option<LinkType>): Option<LinkType> {
    if item.Interface? && LinkTypeFromNum(item.linkNum).Ok? then Some(LinkTypeFromNum(item.linkNum).value) else link
  }

  function LinkAfter(items: seq<Item>, link: Option<LinkType>): Option<LinkType> {
    if items == [] then link
    else
      var item := items[0];
      LinkAfter(items[1..], LinkNow(item, link))
  }

  function UnitAtEnd(items: seq<Item>, unitNanos: u64): u64
    decreases |items|
  {
    if items == [] then unitNanos else UnitAtEnd(items[1..], UnitAfter(items[0], unitNanos))
  }

  /** Reading item by item is reading the records on their own. */
  lemma {:induction false} FoldReads(items: seq<Item>, sc: Scan)
    ensures
      var rs := RecordsRead(items, sc.unitNanos);
      if rs.None? then Fold(items, sc).Err?
      else Fold(items, sc) ==
           Ok(Scan(LinkAfter(items, sc.link), UnitAtEnd(items, sc.unitNanos), sc.records + rs.value, sc.truncated))
    decreases |items|
  {
    if items == [] {
      assert sc.records + [] == sc.records;
    } else {
      var v := Reading(items[0], sc);
      StepReads(items[0], sc);
      hide Reading;
      hide RecordOf;
      if v.Go? {
        FoldReads(items[1..], v.scan);
        var rs := RecordsRead(items[1..], v.scan.unitNanos);
        if rs.Some? && HoldsPacket(items[0]) {
          Regroup(sc.records, [RecordOf(items[0], sc.unitNanos)], rs.value);
        }
      }
    }
  }

  lemma StepReads(item: Item, sc: Scan)
    ensures
      var v := Reading(item, sc);
      if item.Interface? && LinkTypeFromNum(item.linkNum).Err? then v.Reject?
      else
        && v.Go? && v.scan.truncated == sc.truncated && v.scan.unitNanos == UnitAfter(item, sc.unitNanos)
        && v.scan.link == (if item.Interface? then Some(LinkTypeFromNum(item.linkNum).value) else sc.link)
        && v.scan.records == (if HoldsPacket(item) then sc.records + [RecordOf(item, sc.unitNanos)] else sc.records)
  {
  }

  // ---------------------------------------------------------------- packet by packet, faithful or not

  /** A cut-off quotient, without dividing. */
  lemma FloorIs(y: nat, d: nat, x: int)
    requires d >= 1
    ensures y / d == x <==> 0 <= y - x * d < d
  {
    if 0 <= y - x * d < d {
      RemainderIs(y, d, x, y - x * d);
    }
    if y / d == x {
      assert y == x * d + y % d;
    }
  }

  lemma ClockRightIs(iface: Iface, unitNanos: u64, units: u64)
    ensures ClockRight(iface, unitNanos, units) <==> SatMul(units, unitNanos) == NanosAt(iface, units)
  {
    hide PerSecond;
    hide SatMul;
    var d, s := PerSecond(iface.resolution), SatMul(units, unitNanos);
    var y := units * NANOS_PER_SEC;
    assert y >= 0;
    FloorIs(y, d, s - iface.offset * NANOS_PER_SEC);
    CrossMultiplied(units, iface.offset, d, s);
  }

  lemma CrossMultiplied(units: int, offset: int, d: int, s: int)
    ensures (units + offset * d) * NANOS_PER_SEC - s * d == units * NANOS_PER_SEC - (s - offset * NANOS_PER_SEC) * d
  {
    assert (offset * d) * NANOS_PER_SEC == (offset * NANOS_PER_SEC) * d;
  }

  lemma TimedFaithful(link: LinkType, be: bool, item: Item, ifaces: seq<Iface>, unitNanos: u64)
    requires item.Enhanced? && Conforms(be, item, ifaces)
    ensures Faithful(link, RecordOf(item, unitNanos), PacketOf(be, item, ifaces)) <==>
            ifaces[item.iface].linkNum == LinkTypeNum(link) && ClockRight(ifaces[item.iface], unitNanos, item.units)
  {
    hide ClockRight;
    hide NanosAt;
    hide SatMul;
    ClockRightIs(ifaces[item.iface], unitNanos, item.units);
    var wall := SatMul(item.units, unitNanos);
    assert wall / NANOS_PER_SEC * NANOS_PER_SEC + wall % NANOS_PER_SEC == wall;
  }

  lemma SimpleFaithful(link: LinkType, be: bool, item: Item, ifaces: seq<Iface>, unitNanos: u64)
    requires item.Simple? && Conforms(be, item, ifaces)
    ensures Faithful(link, RecordOf(item, unitNanos), PacketOf(be, item, ifaces)) <==>
            ifaces[0].linkNum == LinkTypeNum(link) && Unpadded(item)
  {
    PaddedData(item.data, item.padding, item.origLen);
  }

  /** Of a block that holds `data` and padding, the reader takes exactly `data` when there is nothing more to take. */
  lemma PaddedData(data: seq<byte>, padding: seq<byte>, origLen: nat)
    requires |data| <= origLen
    ensures UpTo(data + padding, origLen) == data <==> |data| == origLen || padding == []
  {
    var n := Min(|data + padding|, origLen);
    TakeAcross(data, padding, n);
    if n == |data| {
      assert data + padding[..0] == data;
    } else {
      assert |UpTo(data + padding, origLen)| == n;
    }
  }

  lemma ConsFaithful(link: LinkType, r: PcapRecord, rs: seq<PcapRecord>, p: Packet, ps: seq<Packet>)
    ensures AllFaithful(link, [r] + rs, [p] + ps) <==> Faithful(link, r, p) && AllFaithful(link, rs, ps)
  {
    hide Faithful;
    var all, meant := [r] + rs, [p] + ps;
    assert forall i :: 0 <= i < |rs| ==> all[i + 1] == rs[i];
    assert forall i :: 0 <= i < |ps| ==> meant[i + 1] == ps[i];
    if AllFaithful(link, all, meant) {
      assert Faithful(link, all[0], meant[0]);
      forall i | 0 <= i < |rs|
        ensures Faithful(link, rs[i], ps[i])
      {
        assert Faithful(link, all[i + 1], meant[i + 1]);
      }
    }
  }

  lemma {:induction false} RecordsFaithful(link: LinkType, be: bool, items: seq<Item>, ifaces: seq<Iface>,
      unitNanos: u64)
    requires PacketsMeant(be, items, ifaces).Some?
    ensures
      var rs := RecordsRead(items, unitNanos);
      (rs.Some? && AllFaithful(link, rs.value, PacketsMeant(be, items, ifaces).value)) <==>
      ReadableAs(link, be, items, ifaces, unitNanos)
    decreases |items|
  {
    hide Faithful;
    hide AllFaithful;
    hide RecordOf;
    hide PacketOf;
    hide ClockRight;
    hide UnitAfter;
    if items == [] {
      NoneFaithful(link);
    } else {
      var item := items[0];
      RecordsFaithful(link, be, items[1..], IfacesAfter(be, item, ifaces), UnitAfter(item, unitNanos));
      var rs := RecordsRead(items[1..], UnitAfter(item, unitNanos));
      var ps := PacketsMeant(be, items[1..], IfacesAfter(be, item, ifaces)).value;
      if HoldsPacket(item) {
        if rs.Some? {
          ConsFaithful(link, RecordOf(item, unitNanos), rs.value, PacketOf(be, item, ifaces), ps);
        }
        if item.Enhanced? {
          TimedFaithful(link, be, item, ifaces, unitNanos);
        } else {
          SimpleFaithful(link, be, item, ifaces, unitNanos);
        }
      }
    }
  }

  lemma NoneFaithful(link: LinkType)
    ensures AllFaithful(link, [], [])
  {
  }

  /** If every interface's link type is known, the file's is that of the last one. */
  lemma {:induction false} LinkIsLast(items: seq<Item>, unitNanos: u64, link: Option<LinkType>)
    requires RecordsRead(items, unitNanos).Some?
    ensures
      match LastLink(items)
      case None => LinkAfter(items, link) == link
      case Some(n) => LinkAfter(items, link).Some? && LinkTypeNum(LinkAfter(items, link).value) == n
    decreases |items|
  {
    if items != [] {
      var item := items[0];
      LinkIsLast(items[1..], UnitAfter(item, unitNanos), LinkNow(item, link));
      LastLinkFront(items);
    }
  }

  lemma {:induction false} LastLinkFront(items: seq<Item>)
    requires items != []
    ensures LastLink(items) ==
            if LastLink(items[1..]).Some? then LastLink(items[1..])
            else if items[0].Interface? then Some(items[0].linkNum) else None
    decreases |items|
  {
    var n := |items| - 1;
    if n > 0 {
      assert items[1..][..n - 1] == items[..n][1..];
      LastLinkFront(items[..n]);
    } else {
      assert items[1..] == [] && items[..n] == [];
    }
  }

  /**
   * Reading block by block gives what the format means by the blocks exactly when the last interface has a link type
   * the reader knows, and every packet is on an interface of that link type and either timed by the unit in force or
   * unpadded.
   */
  lemma FoldAsMeant(be: bool, items: seq<Item>)
    requires PacketsMeant(be, items, []).Some?
    ensures ReadAsMeant(Conclude(Fold(items, SCAN_START)), PacketsMeant(be, items, []).value) <==> Readable(be, items)
  {
    hide Fold;
    hide ReadableAs;
    hide AllFaithful;
    hide LastLink;
    hide LinkAfter;
    hide PacketsMeant;
    hide RecordsRead;
    FoldReads(items, SCAN_START);
    forall link
      ensures
        (RecordsRead(items, SCAN_START.unitNanos).Some? &&
         AllFaithful(link, RecordsRead(items, SCAN_START.unitNanos).value, PacketsMeant(be, items, []).value)) <==>
        ReadableAs(link, be, items, [], SCAN_START.unitNanos)
    {
      RecordsFaithful(link, be, items, [], SCAN_START.unitNanos);
    }
    if RecordsRead(items, SCAN_START.unitNanos).Some? {
      var rs := RecordsRead(items, SCAN_START.unitNanos).value;
      assert SCAN_START.records + rs == rs;
      LinkIsLast(items, SCAN_START.unitNanos, None);
    }
  }

  predicate Readable(be: bool, items: seq<Item>) {
    exists link :: LastLink(items) == Some(LinkTypeNum(link)) && ReadableAs(link, be, items, [], SCAN_START.unitNanos)
  }

  // ---------------------------------------------------------------- whole files

  function IfacesAfterAll(be: bool, items: seq<Item>, ifaces: seq<Iface>): seq<Iface>
    decreases |items|
  {
    if items == [] then ifaces else IfacesAfterAll(be, items[1..], IfacesAfter(be, items[0], ifaces))
  }

  function Joined(a: Option<seq<Packet>>, b: Option<seq<Packet>>): Option<seq<Packet>> {
    if a.Some? && b.Some? then Some(a.value + b.value) else None
  }

  lemma {:induction false} MeantJoin(be: bool, a: seq<Item>, b: seq<Item>, ifaces: seq<Iface>)
    ensures PacketsMeant(be, a + b, ifaces) ==
            Joined(PacketsMeant(be, a, ifaces), PacketsMeant(be, b, IfacesAfterAll(be, a, ifaces)))
    decreases |a|
  {
    hide Conforms;
    hide IfacesAfter;
    hide PacketOf;
    var pb := PacketsMeant(be, b, IfacesAfterAll(be, a, ifaces));
    if a == [] {
      assert a + b == b;
      assert pb.Some? ==> [] + pb.value == pb.value;
    } else {
      assert (a + b)[1..] == a[1..] + b;
      var next := IfacesAfter(be, a[0], ifaces);
      MeantJoin(be, a[1..], b, next);
      var pa := PacketsMeant(be, a[1..], next);
      if Conforms(be, a[0], ifaces) && HoldsPacket(a[0]) && pa.Some? && pb.Some? {
        Regroup([PacketOf(be, a[0], ifaces)], pa.value, pb.value);
      }
    }
  }

  /** A section header forgets the interfaces before it. */
  lemma HeaderMeant(s: Section, items: seq<Item>, ifaces: seq<Iface>)
    requires |s.rest| >= 12
    ensures PacketsMeant(s.be, [HeaderOf(s)] + items, ifaces) == PacketsMeant(s.be, items, [])
  {
    hide Word;
    var all := [HeaderOf(s)] + items;
    assert all[1..] == items;
    assert (Word(s.be, BOM, 4) + s.rest)[0..4] == Word(s.be, BOM, 4);
  }

  /** Sections of one order, as one run of blocks, mean what they mean on their own. */
  lemma {:induction false} FlatMeans(be: bool, ss: seq<Section>, ifaces: seq<Iface>)
    requires SectionsOk(ss) && InOrder(be, ss) && SectionsMeant(ss).Some?
    ensures PacketsMeant(be, AllItems(ss), ifaces) == SectionsMeant(ss)
    decreases |ss|
  {
    hide ItemsOk;
    if ss != [] {
      var s, rest := ss[0], AllItems(ss[1..]);
      hide PacketsMeant;
      Regroup([HeaderOf(s)], s.items, rest);
      HeaderMeant(s, s.items + rest, ifaces);
      MeantJoin(be, s.items, rest, []);
      FlatMeans(be, ss[1..], IfacesAfterAll(be, s.items, []));
    } else {
      assert AllItems(ss) == [];
    }
  }

  /** A section in the other byte order whose swapped header length leads somewhere in the rest of the file. */
  predicate SkipsAhead(ss: seq<Section>)
    requires ss != [] && SectionsOk(ss)
  {
    var k := Common(ss[0].be, ss);
    k < |ss| && Skips(Swapped(HeaderLength(ss[k])), |FileBytes(ss[k..])|)
  }

  /**
   * A conforming file is read as the format means it exactly when all its sections are in the byte order of the first,
   * its last interface has a link type the reader knows, and every packet is on an interface of that link type and
   * either timed by the unit in force or unpadded. The exception is a file in which the swapped length of the first
   * header in the other order does not run past the end: there `ForeignFileReads` says where reading goes on, in the
   * middle of that section's blocks.
   */
  lemma ReadAsMeantExactly(ss: seq<Section>)
    requires ss != [] && SectionsOk(ss) && SectionsMeant(ss).Some?
    ensures !SkipsAhead(ss) ==>
              (ReadAsMeant(Decoding(FileBytes(ss)), SectionsMeant(ss).value) <==>
               InOrder(ss[0].be, ss) && Readable(ss[0].be, AllItems(ss)))
  {
    hide Decoding;
    hide FileBytes;
    hide Fold;
    hide AllItems;
    hide PacketsMeant;
    hide SectionsMeant;
    hide Readable;
    hide Blocks;
    hide Swapped;
    hide Skips;
    var be := ss[0].be;
    var k := Common(be, ss);
    ForeignFileReads(ss);
    if k == |ss| {
      assert ss[..k] == ss;
      FlatMeans(be, ss, []);
      FoldAsMeant(be, AllItems(ss));
    }
  }

  /**
   * The exception is real: a second section in the other byte order, of no blocks and with a header of 65,792 bytes, a
   * length that is the same read backwards, is stepped over, and the file is read as meant.
   */
  lemma SkippedMayBeRight(first: Section, link: LinkType, rest: seq<byte>)
    requires SectionOk(first) && !first.be && first.items == [Interface(LinkTypeNum(link), 0, 0, [], false)]
    requires |rest| == 65_776
    ensures
      var ss := [first, Section(true, rest, [])];
      && SectionsOk(ss) && SectionsMeant(ss) == Some([])
      && Decoding(FileBytes(ss)) == Ok(PcapngFile(link, [], false))
  {
    hide Decoding;
    hide Blocks;
    hide Fold;
    hide AllItems;
    hide Word;
    hide Swapped;
    var second := Section(true, rest, []);
    var ss := [first, second];
    assert ss[1..] == [second] && [second][1..] == [];
    assert ss[..1] == [first];
    assert [first.items[0]][1..] == [];
    assert PacketsMeant(false, first.items, []) == Some([]);
    var none: seq<Packet> := [];
    assert none + none == none;
    assert SectionsMeant([]) == Some(none) && SectionsMeant([second]) == Some(none) && SectionsMeant(ss) == Some(none);
    SwappedValue(65_792);
    InterfaceAlone(first, link);
    LengthOfOne(second);
    ForeignFileReads(ss);
    assert Common(false, ss) == 1;
    assert ss[1..] == [second];
    var left := FileBytes([second]);
    assert left[65_792..] == [];
    NoBlocks(SCAN_START.(link := Some(link)));
  }

  lemma NoBlocks(sc: Scan)
    ensures Blocks([], false, sc) == Ok(sc)
  {
  }

  lemma LengthOfOne(s: Section)
    requires s.items == []
    ensures |FileBytes([s])| == HeaderLength(s)
  {
    assert [s][1..] == [];
  }

  // ---------------------------------------------------------------- clocks and files that are right

  /**
   * Where the interface's unit is a whole number of nanoseconds (up to nine digits, decimal or binary) and the
   * reader's count does not saturate, the clock is right exactly when the two counts agree: for an interface without
   * offset, exactly when the unit in force is its own, or the count is zero.
   */
  lemma ClockOfWholeUnit(iface: Iface, unitNanos: u64, units: u64)
    requires UnitNanos(iface.resolution) * PerSecond(iface.resolution) == NANOS_PER_SEC
    requires units * unitNanos <= U64_MAX
    ensures ClockRight(iface, unitNanos, units) <==>
            units * unitNanos == iface.offset * NANOS_PER_SEC + units * UnitNanos(iface.resolution)
    ensures iface.offset == 0 ==>
              (ClockRight(iface, unitNanos, units) <==> unitNanos == UnitNanos(iface.resolution) || units == 0)
  {
    hide UnitNanos;
    hide PerSecond;
    hide ClockRight;
    var q, d := UnitNanos(iface.resolution), PerSecond(iface.resolution);
    ClockRightIs(iface, unitNanos, units);
    assert units * NANOS_PER_SEC == units * q * d by { MulAssoc(units, q, d); }
    assert units * q >= 0;
    RemainderIs(units * NANOS_PER_SEC, d, units * q, 0);
    SameProduct(units, unitNanos, q);
  }

  lemma SameProduct(n: nat, a: int, b: int)
    ensures n * a == n * b <==> a == b || n == 0
  {
    if n * a == n * b {
      assert n * (a - b) == 0;
    }
  }

  /** Nothing after the first item describes an interface or starts a section. */
  predicate OneInterface(items: seq<Item>) {
    forall i :: 0 <= i < |items| ==> !items[i].Interface? && !(items[i].Other? && items[i].blockType == BT_SHB)
  }

  /** The reader's time of every packet of the one interface does not saturate, and no simple packet is padded. */
  predicate WithinReach(items: seq<Item>, unitNanos: u64) {
    forall i :: 0 <= i < |items| ==>
      && (items[i].Enhanced? ==> items[i].iface == 0 && items[i].units * unitNanos <= U64_MAX)
      && (items[i].Simple? ==> Unpadded(items[i]))
  }

  lemma {:induction false} OneInterfaceReadable(link: LinkType, be: bool, items: seq<Item>, iface: Iface,
      unitNanos: u64)
    requires OneInterface(items) && WithinReach(items, unitNanos)
    requires iface.linkNum == LinkTypeNum(link) && iface.offset == 0 && unitNanos == UnitNanos(iface.resolution)
    requires UnitNanos(iface.resolution) * PerSecond(iface.resolution) == NANOS_PER_SEC
    ensures ReadableAs(link, be, items, [iface], unitNanos)
    decreases |items|
  {
    hide ClockRight;
    hide UnitNanos;
    hide PerSecond;
    if items != [] {
      if items[0].Enhanced? {
        ClockOfWholeUnit(iface, unitNanos, items[0].units);
      }
      OneInterfaceReadable(link, be, items[1..], iface, unitNanos);
    }
  }

  /** The resolution byte and the reader's unit come from the same option. */
  lemma {:induction false} ResolutionAgrees(os: seq<OptionField>)
    ensures Resolution(os) == None ==> ResolutionOf(os) == MICROSECONDS
    ensures Resolution(os).Some? ==> Resolution(os).value == UnitNanos(ResolutionOf(os))
  {
    hide UnitNanos;
    if os != [] {
      ResolutionAgrees(os[1..]);
    }
  }

  /**
   * Files of one interface, as most writers make them, are read as meant: a known link type, a resolution of up to nine
   * digits, no time offset, times within 64 bits of nanoseconds and no padded simple packet.
   */
  lemma PlainFileIsRead(be: bool, section: seq<byte>, first: Item, rest: seq<Item>)
    requires |section| >= 12 && |section| % 4 == 0 && 16 + |section| < TWO_32 && ItemsOk(be, [first] + rest)
    requires PacketsMeant(be, [first] + rest, []).Some?
    requires first.Interface? && LinkTypeFromNum(first.linkNum).Ok? && OneInterface(rest)
    requires ResolutionOf(first.options) % 0x80 <= 9 && OffsetOf(be, first.options) == 0
    requires WithinReach(rest, UnitNanos(ResolutionOf(first.options)))
    ensures ReadAsMeant(Decoding(ForeignFile(be, section, [first] + rest)), PacketsMeant(be, [first] + rest, []).value)
  {
    hide Decoding;
    hide ForeignFile;
    hide Fold;
    hide ReadAsMeant;
    hide PacketsMeant;
    hide UnitNanos;
    hide PerSecond;
    var items, iface := [first] + rest, IfaceOf(be, first);
    var link := LinkTypeFromNum(first.linkNum).value;
    assert items[1..] == rest && [] + [iface] == [iface];
    WholeUnit(iface.resolution);
    ResolutionAgrees(first.options);
    MicrosecondUnit();
    assert UnitAfter(first, SCAN_START.unitNanos) == UnitNanos(iface.resolution);
    OneInterfaceReadable(link, be, rest, iface, UnitNanos(iface.resolution));
    OnlyFirstLink(first, rest);
    assert ReadableAs(link, be, items, [], SCAN_START.unitNanos);
    OneOrderReads(be, section, items);
    FoldAsMeant(be, items);
  }

  lemma WholeUnit(resolution: byte)
    requires resolution % 0x80 <= 9
    ensures UnitNanos(resolution) * PerSecond(resolution) == NANOS_PER_SEC
  {
    UnitExact(resolution % 0x80);
  }

  lemma MicrosecondUnit()
    ensures UnitNanos(MICROSECONDS) == 1000
  {
    UnitExact(MICROSECONDS);
    TenToTheNine();
    assert Pow10(6) == 10 * Pow10(5) == 100 * Pow10(4) == 1000 * Pow10(3);
    assert Pow10(3) == 10 * Pow10(2) == 100 * Pow10(1) == 1000;
  }

  lemma {:induction false} OnlyFirstLink(first: Item, rest: seq<Item>)
    requires first.Interface? && OneInterface(rest)
    ensures LastLink([first] + rest) == Some(first.linkNum)
    decreases |rest|
  {
    var items := [first] + rest;
    if rest != [] {
      var n := |rest| - 1;
      assert items[..n + 1] == [first] + rest[..n];
      OnlyFirstLink(first, rest[..n]);
    }
  }

  // ---------------------------------------------------------------- two files that are not

  lemma OnePacket(be: bool, item: Item, ifaces: seq<Iface>, unitNanos: u64)
    requires HoldsPacket(item) && Conforms(be, item, ifaces)
    ensures PacketsMeant(be, [item], ifaces) == Some([PacketOf(be, item, ifaces)])
    ensures RecordsRead([item], unitNanos) == Some([RecordOf(item, unitNanos)])
  {
    hide PacketOf;
    hide RecordOf;
    assert [item][1..] == [];
    assert [PacketOf(be, item, ifaces)] + [] == [PacketOf(be, item, ifaces)];
    assert [RecordOf(item, unitNanos)] + [] == [RecordOf(item, unitNanos)];
  }

  lemma AfterInterface(be: bool, first: Item, rest: seq<Item>, ifaces: seq<Iface>, unitNanos: u64)
    requires first.Interface? && LinkTypeFromNum(first.linkNum).Ok?
    ensures PacketsMeant(be, [first] + rest, ifaces) == PacketsMeant(be, rest, ifaces + [IfaceOf(be, first)])
    ensures RecordsRead([first] + rest, unitNanos) == RecordsRead(rest, UnitAfter(first, unitNanos))
  {
    hide IfaceOf;
    hide UnitAfter;
    assert ([first] + rest)[1..] == rest;
  }

  /** An interface description whose only option, if any, is its resolution. */
  function Described(snapLen: u32, os: seq<OptionField>): Item { Interface(1, 0, snapLen, os, false) }

  lemma OneOption(be: bool, snapLen: u32, v: byte)
    ensures IfaceOf(be, Described(snapLen, [OptionField(OPT_IF_TSRESOL, [v])])) == Iface(1, v, 0, snapLen)
    ensures UnitAfter(Described(snapLen, [OptionField(OPT_IF_TSRESOL, [v])]), 1000) == UnitNanos(v)
    ensures IfaceOf(be, Described(snapLen, [])) == Iface(1, MICROSECONDS, 0, snapLen)
    ensures UnitAfter(Described(snapLen, []), 1000) == 1000
  {
    hide UnitNanos;
    var os := [OptionField(OPT_IF_TSRESOL, [v])];
    assert os[1..] == [];
    assert OffsetOf(be, os[1..]) == 0 && OffsetOf(be, os) == 0;
    assert IsResolution(os[0]) && ResolutionOf(os) == v;
  }

  /** Link type 1 throughout. */
  predicate AllEthernet(items: seq<Item>) {
    forall i :: 0 <= i < |items| && items[i].Interface? ==> items[i].linkNum == 1
  }

  lemma {:induction false} EthernetFile(items: seq<Item>, link: Option<LinkType>)
    requires AllEthernet(items) && (link == Some(Ethernet) || (items != [] && items[0].Interface?))
    ensures LinkAfter(items, link) == Some(Ethernet)
    decreases |items|
  {
    if items != [] {
      EthernetFile(items[1..], LinkNow(items[0], link));
    }
  }

  lemma EthernetReads(be: bool, section: seq<byte>, items: seq<Item>, rs: seq<PcapRecord>)
    requires |section| >= 12 && |section| % 4 == 0 && 16 + |section| < TWO_32 && ItemsOk(be, items)
    requires AllEthernet(items) && items != [] && items[0].Interface?
    requires RecordsRead(items, SCAN_START.unitNanos) == Some(rs)
    ensures Decoding(ForeignFile(be, section, items)) == Ok(PcapngFile(Ethernet, rs, false))
  {
    hide Decoding;
    hide ForeignFile;
    hide Fold;
    hide RecordsRead;
    hide LinkAfter;
    OneOrderReads(be, section, items);
    FoldReads(items, SCAN_START);
    EthernetFile(items, None);
    assert SCAN_START.records + rs == rs;
  }

  /**
   * Two interfaces, counting nanoseconds and microseconds, and a packet of the first at its fifth unit: meant five
   * nanoseconds after the start, read five thousand.
   */
  lemma SecondInterfaceMisleads(be: bool, section: seq<byte>, data: seq<byte>, origLen: u32)
    requires |section| == 12 && |data| % 4 == 0 && |data| < 0x1_0000
    ensures
      var nanos := Described(0, [OptionField(OPT_IF_TSRESOL, [9])]);
      var micros := Described(0, [OptionField(OPT_IF_TSRESOL, [6])]);
      var items := [nanos] + ([micros] + [Enhanced(0, 5, origLen, data, [])]);
      && PacketsMeant(be, items, []) == Some([Packet(1, Some(5), data, origLen)])
      && Decoding(ForeignFile(be, section, items)) ==
         Ok(PcapngFile(Ethernet, [PcapRecord(0, 5000, data, origLen)], false))
  {
    hide Decoding;
    hide ForeignFile;
    hide ItemOk;
    hide PacketsMeant;
    hide RecordsRead;
    var nanos := Described(0, [OptionField(OPT_IF_TSRESOL, [9])]);
    var micros := Described(0, [OptionField(OPT_IF_TSRESOL, [6])]);
    var packet := Enhanced(0, 5, origLen, data, []);
    SecondInterfaceItems(be, data, origLen);
    DescribedOk(be, 0, 9);
    DescribedOk(be, 0, 6);
    EnhancedOk(be, packet);
    EthernetReads(be, section, [nanos] + ([micros] + [packet]), [PcapRecord(0, 5000, data, origLen)]);
  }

  lemma SecondInterfaceItems(be: bool, data: seq<byte>, origLen: u32)
    ensures
      var nanos := Described(0, [OptionField(OPT_IF_TSRESOL, [9])]);
      var micros := Described(0, [OptionField(OPT_IF_TSRESOL, [6])]);
      var items := [nanos] + ([micros] + [Enhanced(0, 5, origLen, data, [])]);
      && PacketsMeant(be, items, []) == Some([Packet(1, Some(5), data, origLen)])
      && RecordsRead(items, SCAN_START.unitNanos) == Some([PcapRecord(0, 5000, data, origLen)])
  {
    var nanos := Described(0, [OptionField(OPT_IF_TSRESOL, [9])]);
    var micros := Described(0, [OptionField(OPT_IF_TSRESOL, [6])]);
    var packet := Enhanced(0, 5, origLen, data, []);
    var one, two := IfaceOf(be, nanos), IfaceOf(be, micros);
    assert [] + [one] == [one] && [one] + [two] == [one, two];
    AfterInterface(be, nanos, [micros] + [packet], [], 1000);
    AfterInterface(be, micros, [packet], [one], UnitAfter(nanos, 1000));
    OnePacket(be, packet, [one, two], UnitAfter(micros, UnitAfter(nanos, 1000)));
    OneOption(be, 0, 9);
    OneOption(be, 0, 6);
    FiveUnits(one, data, origLen);
    assert UnitAfter(micros, UnitAfter(nanos, 1000)) == UnitAfter(micros, 1000);
  }

  lemma DescribedOk(be: bool, snapLen: u32, v: byte)
    ensures ItemOk(be, Described(snapLen, [OptionField(OPT_IF_TSRESOL, [v])])) && ItemOk(be, Described(snapLen, []))
  {
    hide Word;
    var os := [OptionField(OPT_IF_TSRESOL, [v])];
    assert os[1..] == [];
    assert |OptionArea(be, os, false)| == 8 && |OptionArea(be, [], false)| == 0;
  }

  lemma EnhancedOk(be: bool, item: Item)
    requires item.Enhanced? && |item.data + item.more| % 4 == 0 && |item.data + item.more| < 0x1_0000
    ensures ItemOk(be, item)
  {
    hide Word;
  }

  lemma FiveUnits(iface: Iface, data: seq<byte>, origLen: u32)
    requires iface == Iface(1, 9, 0, 0)
    ensures NanosAt(iface, 5) == 5
    ensures Stamped(5, UnitNanos(6), data, origLen) == PcapRecord(0, 5000, data, origLen)
  {
    hide UnitNanos;
    TenToTheNine();
    MicrosecondUnit();
  }

  /** A packet of ten bytes cut by a snap length of six: meant as the six bytes, read with the two of padding. */
  lemma PaddingIsReadAsData(be: bool, section: seq<byte>, data: seq<byte>)
    requires |section| == 12 && |data| == 6
    ensures
      var items := [Described(6, [])] + [Simple(10, data, [0, 0])];
      && PacketsMeant(be, items, []) == Some([Packet(1, None, data, 10)])
      && Decoding(ForeignFile(be, section, items)) ==
         Ok(PcapngFile(Ethernet, [PcapRecord(0, 0, data + [0, 0], 10)], false))
  {
    hide Decoding;
    hide ForeignFile;
    hide ItemOk;
    hide PacketsMeant;
    hide RecordsRead;
    var packet := Simple(10, data, [0, 0]);
    PaddedItems(be, data);
    DescribedOk(be, 6, 9);
    SimpleOk(be, packet);
    EthernetReads(be, section, [Described(6, [])] + [packet], [PcapRecord(0, 0, data + [0, 0], 10)]);
  }

  lemma PaddedItems(be: bool, data: seq<byte>)
    requires |data| == 6
    ensures
      var items := [Described(6, [])] + [Simple(10, data, [0, 0])];
      && PacketsMeant(be, items, []) == Some([Packet(1, None, data, 10)])
      && RecordsRead(items, SCAN_START.unitNanos) == Some([PcapRecord(0, 0, data + [0, 0], 10)])
  {
    var packet, iface := Simple(10, data, [0, 0]), IfaceOf(be, Described(6, []));
    OneOption(be, 6, 9);
    assert [] + [iface] == [iface];
    AfterInterface(be, Described(6, []), [packet], [], 1000);
    OnePacket(be, packet, [iface], 1000);
    assert UpTo(data + [0, 0], 10) == data + [0, 0];
  }

  lemma SimpleOk(be: bool, item: Item)
    requires item.Simple? && |item.data + item.padding| % 4 == 0 && |item.data + item.padding| < 0x1_0000
    ensures ItemOk(be, item)
  {
    hide Word;
  }

  /** An interface whose clock is offset by one second (option 14): its packet is meant at that second, read at zero. */
  lemma OffsetIsIgnored(section: seq<byte>, data: seq<byte>, origLen: u32)
    requires |section| == 12 && |data| % 4 == 0 && |data| < 0x1_0000
    ensures
      var items := [Described(0, [OptionField(14, [1, 0, 0, 0, 0, 0, 0, 0])])] + [Enhanced(0, 0, origLen, data, [])];
      && PacketsMeant(false, items, []) == Some([Packet(1, Some(1_000_000_000), data, origLen)])
      && Decoding(ForeignFile(false, section, items)) ==
         Ok(PcapngFile(Ethernet, [PcapRecord(0, 0, data, origLen)], false))
  {
    hide Decoding;
    hide ForeignFile;
    hide ItemOk;
    hide PacketsMeant;
    hide RecordsRead;
    var first := Described(0, [OptionField(14, [1, 0, 0, 0, 0, 0, 0, 0])]);
    var packet := Enhanced(0, 0, origLen, data, []);
    OffsetItems(first, packet, data, origLen);
    OffsetOk();
    EnhancedOk(false, packet);
    EthernetReads(false, section, [first] + [packet], [PcapRecord(0, 0, data, origLen)]);
  }

  lemma OffsetItems(first: Item, packet: Item, data: seq<byte>, origLen: u32)
    requires first == Described(0, [OptionField(14, [1, 0, 0, 0, 0, 0, 0, 0])])
    requires packet == Enhanced(0, 0, origLen, data, [])
    ensures PacketsMeant(false, [first] + [packet], []) == Some([Packet(1, Some(1_000_000_000), data, origLen)])
    ensures RecordsRead([first] + [packet], SCAN_START.unitNanos) == Some([PcapRecord(0, 0, data, origLen)])
  {
    OneSecond(first);
    hide NanosAt;
    hide Stamped;
    hide UnitAfter;
    hide PacketsMeant;
    hide RecordsRead;
    var iface := IfaceOf(false, first);
    AfterInterface(false, first, [packet], [], 1000);
    assert [] + [iface] == [iface];
    OnePacket(false, packet, [iface], UnitAfter(first, 1000));
    NothingCounted(iface, UnitAfter(first, 1000), data, origLen);
  }

  lemma OffsetOk()
    ensures ItemOk(false, Described(0, [OptionField(14, [1, 0, 0, 0, 0, 0, 0, 0])]))
  {
    hide Word;
    var os := [OptionField(14, [1, 0, 0, 0, 0, 0, 0, 0])];
    assert os[1..] == [];
    assert OptionArea(false, [], false) == [];
    assert |OptionBytes(false, os[0])| == 12;
  }

  lemma OneSecond(item: Item)
    requires item == Described(0, [OptionField(14, [1, 0, 0, 0, 0, 0, 0, 0])])
    ensures IfaceOf(false, item) == Iface(1, 6, 1, 0)
  {
    var v: seq<byte> := [1, 0, 0, 0, 0, 0, 0, 0];
    assert item.options[1..] == [];
    ZerosAreNothing(7);
    assert v[1..] == Zeros(7);
    assert FromLe(v) == 1;
  }

  lemma {:induction false} ZerosAreNothing(n: nat)
    ensures FromLe(Zeros(n)) == 0
  {
    if n > 0 {
      ZerosAreNothing(n - 1);
      assert Zeros(n)[1..] == Zeros(n - 1);
    }
  }

  lemma NothingCounted(iface: Iface, unitNanos: u64, data: seq<byte>, origLen: u32)
    requires iface.offset == 1
    ensures NanosAt(iface, 0) == 1_000_000_000
    ensures Stamped(0, unitNanos, data, origLen) == PcapRecord(0, 0, data, origLen)
  {
    hide PerSecond;
    ZeroShare(PerSecond(iface.resolution));
    hide NanosAt;
  }

  lemma ZeroShare(d: nat)
    requires d >= 1
    ensures 0 / d == 0
  {
  }

  /** The numbers of the blocks, in the format and in the reader. */
  lemma BlockNumbers(item: Item)
    ensures TypeOf(item) ==
            if item.Interface? then 1 else if item.Simple? then 3 else if item.Enhanced? then 6 else item.blockType
  {
  }
}
