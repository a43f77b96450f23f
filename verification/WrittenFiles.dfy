/**
 * The pcapng writer against the format: its file, laid out block by block by any writer's rules, what the format means
 * by it, and its header bytes one by one.
 */
module WrittenFiles {
  import opened Wrappers
  import opened Bytes
  import opened Pcapng
  import opened FileSource
  import opened ForeignPcapng
  import opened DraftPcapng

  /** Version 1.0 and an unknown section length. */
  const SECTION: seq<byte> := [1, 0, 0, 0, 0xFF, 0xFF, 0xFF, 0xFF, 0xFF, 0xFF, 0xFF, 0xFF]

  /** One interface without a snap length, counting nanoseconds. */
  function WrittenInterface(link: LinkType): Item {
    Interface(match link case Ethernet => 1 case Loopback => 0 case RawIp => 101, 0, 0, [OptionField(9, [9])], true)
  }

  function WrittenPacket(r: PcapRecord): Item {
    Enhanced(0, WallNanos(r), r.origLen, r.data, Zeros(Padding(|r.data|)))
  }

  function WrittenPackets(rs: seq<PcapRecord>): (items: seq<Item>)
    ensures |items| == |rs| && forall i :: 0 <= i < |rs| ==> items[i] == WrittenPacket(rs[i])
  {
    seq(|rs|, i requires 0 <= i < |rs| => WrittenPacket(rs[i]))
  }

  /** A block of the writer is a block of the format: type, length, body, and the length again. */
  lemma BlockIsForeign(blockType: u32, body: seq<byte>)
    requires |body| % 4 == 0
    ensures Block(blockType, body) == ForeignBlock(false, blockType, body)
  {
    hide Le;
    var ty, len := Le(blockType, 4), Le(12 + |body|, 4);
    assert Padding(|body|) == 0 && body + Zeros(0) == body;
    assert ty + len + body + Zeros(0) + len == ty + (len + (body + len));
  }

  lemma PacketBody(r: PcapRecord)
    ensures EpbBody(r) == BodyOf(false, WrittenPacket(r))
  {
    hide Le;
    hide WallNanos;
    var w := WallNanos(r);
    SixParts(Le(0, 4), Le(w / TWO_32, 4), Le(w % TWO_32, 4), Le(|r.data|, 4), Le(r.origLen, 4), r.data,
      Zeros(Padding(|r.data|)));
  }

  lemma SixParts(a: seq<byte>, b: seq<byte>, c: seq<byte>, d: seq<byte>, e: seq<byte>, f: seq<byte>, g: seq<byte>)
    ensures a + b + c + d + e + f + g == a + (b + (c + (d + (e + (f + g)))))
  {
  }

  lemma InterfaceBody(link: LinkType)
    ensures IdbBody(LinkTypeNum(link)) == BodyOf(false, WrittenInterface(link))
  {
    hide Le;
    var o := OptionField(9, [9]);
    assert [o][1..] == [];
    var mark := Le(0, 2) + Le(0, 2);
    assert OptionArea(false, [], true) == mark;
    assert OptionArea(false, [o], true) == OptionBytes(false, o) + mark;
    assert [9] + Zeros(Padding(1)) == [9, 0, 0, 0];
    OptionTail(Le(9, 2), Le(1, 2), Le(0, 2));
    var num := Le(LinkTypeNum(link), 2);
    assert num + (Le(0, 2) + Le(0, 4)) + IdbOptionArea() == num + (Le(0, 2) + (Le(0, 4) + IdbOptionArea()));
  }

  lemma OptionTail(code: seq<byte>, len: seq<byte>, zero: seq<byte>)
    ensures code + (len + ([9, 0, 0, 0] + zero + zero)) == code + (len + [9, 0, 0, 0]) + (zero + zero)
  {
  }

  lemma SectionBody()
    ensures ShbBody() == Word(false, BOM, 4) + SECTION
  {
    LeOfWord(1);
    assert Le(1, 2) == [1] + Le(0, 1) && Le(0, 1) == [0] + Le(0, 0);
    assert Le(0, 2) == [0] + Le(0, 1);
    AllOnes(8);
    assert Le(1, 2) + Le(0, 2) == [1, 0, 0, 0];
    assert Le(U64_MAX, 8) == SECTION[4..];
    hide Le;
    assert Le(BOM, 4) + Le(1, 2) + Le(0, 2) + Le(U64_MAX, 8) == Le(BOM, 4) + ((Le(1, 2) + Le(0, 2)) + Le(U64_MAX, 8));
  }

  /** The largest value of a width is all ones. */
  lemma {:induction false} AllOnes(w: nat)
    ensures Le(Pow256(w) - 1, w) == seq(w, _ => 0xFF)
    ensures w == 8 ==> Pow256(w) - 1 == U64_MAX
  {
    Pow256Values();
    if w > 0 {
      AllOnes(w - 1);
      var n := Pow256(w) - 1;
      assert n == 256 * (Pow256(w - 1) - 1) + 255;
      assert n % 256 == 255 && n / 256 == Pow256(w - 1) - 1;
    }
  }

  lemma {:induction false} PacketsAreForeign(rs: seq<PcapRecord>)
    ensures Epbs(rs) == ItemBytes(false, WrittenPackets(rs))
  {
    hide Block;
    hide ForeignBlock;
    hide EpbBody;
    hide BodyOf;
    if rs != [] {
      var items := WrittenPackets(rs);
      PacketsAreForeign(rs[1..]);
      assert items[1..] == WrittenPackets(rs[1..]);
      PacketBody(rs[0]);
      PacketAligned(rs[0]);
      BlockIsForeign(6, EpbBody(rs[0]));
    }
  }

  lemma PacketAligned(r: PcapRecord)
    ensures |EpbBody(r)| % 4 == 0
  {
  }

  /**
   * The writer's file is a file of the format: a section header of version 1.0, one interface counting nanoseconds,
   * and an enhanced packet of that interface for every record, each block closed by its own length.
   */
  lemma WrittenIsForeign(link: LinkType, rs: seq<PcapRecord>)
    ensures Encoding(link, rs) == ForeignFile(false, SECTION, [WrittenInterface(link)] + WrittenPackets(rs))
  {
    hide Block;
    hide ForeignBlock;
    hide BodyOf;
    hide Epbs;
    hide IdbBody;
    hide ShbBody;
    var first, packets := WrittenInterface(link), WrittenPackets(rs);
    SectionBody();
    InterfaceBody(link);
    BlockIsForeign(BT_SHB, ShbBody());
    BlockIsForeign(1, IdbBody(LinkTypeNum(link)));
    PacketsAreForeign(rs);
    assert ([first] + packets)[1..] == packets;
    Regroup(Block(BT_SHB, ShbBody()), Block(BT_IDB, IdbBody(LinkTypeNum(link))), Epbs(rs));
  }

  // ---------------------------------------------------------------- what the format means by it

  /** What the format means by a record's packet: its time is the 64-bit count that was written. */
  function MeantOf(link: LinkType, r: PcapRecord): Packet {
    Packet(LinkTypeNum(link), Some(WallNanos(r)), r.data, r.origLen)
  }

  function AllMeant(link: LinkType, rs: seq<PcapRecord>): (ps: seq<Packet>)
    ensures |ps| == |rs| && forall i :: 0 <= i < |rs| ==> ps[i] == MeantOf(link, rs[i])
  {
    seq(|rs|, i requires 0 <= i < |rs| => MeantOf(link, rs[i]))
  }

  lemma NanosecondTime(iface: Iface, units: u64)
    requires iface.resolution == 9 && iface.offset == 0
    ensures NanosAt(iface, units) == units
  {
    TenToTheNine();
    hide Pow10;
    assert units * NANOS_PER_SEC / NANOS_PER_SEC == units;
  }

  lemma WrittenIface(link: LinkType)
    ensures IfaceOf(false, WrittenInterface(link)) == Iface(LinkTypeNum(link), 9, 0, 0)
  {
    var os := [OptionField(9, [9])];
    assert os[1..] == [];
    assert OffsetOf(false, []) == 0;
  }

  lemma {:induction false} PacketsMean(link: LinkType, rs: seq<PcapRecord>)
    ensures PacketsMeant(false, WrittenPackets(rs), [Iface(LinkTypeNum(link), 9, 0, 0)]) == Some(AllMeant(link, rs))
  {
    hide NanosAt;
    hide WallNanos;
    if rs != [] {
      var iface := Iface(LinkTypeNum(link), 9, 0, 0);
      PacketsMean(link, rs[1..]);
      assert WrittenPackets(rs)[1..] == WrittenPackets(rs[1..]);
      NanosecondTime(iface, WallNanos(rs[0]));
      assert AllMeant(link, rs) == [MeantOf(link, rs[0])] + AllMeant(link, rs[1..]);
    }
  }

  lemma TimeKept(r: PcapRecord)
    ensures WallNanos(r) == r.tsSecs * NANOS_PER_SEC + r.tsNanos <==> WallFits(r)
  {
  }

  /**
   * The written file conforms, and the format means by it one packet for every record, in order, on an interface of the
   * file's link type and with the record's data and length. It has the record's time exactly when that fits 64 bits of
   * nanoseconds.
   */
  lemma WrittenConforms(link: LinkType, rs: seq<PcapRecord>)
    requires AllWritable(rs)
    ensures
      var file := Section(false, SECTION, [WrittenInterface(link)] + WrittenPackets(rs));
      && Encoding(link, rs) == FileBytes([file])
      && SectionOk(file) && SectionsMeant([file]) == Some(AllMeant(link, rs))
      && forall i :: 0 <= i < |rs| ==>
           var p := AllMeant(link, rs)[i];
           && LinkTypeNum(link) == p.linkNum && p.data == rs[i].data && p.origLen == rs[i].origLen
           && (p.nanos == Some(rs[i].tsSecs * 1_000_000_000 + rs[i].tsNanos) <==> WallFits(rs[i]))
  {
    hide Word;
    hide WallNanos;
    hide ForeignFile;
    hide ItemsOk;
    hide NoHeaders;
    hide PacketsMeant;
    var items := [WrittenInterface(link)] + WrittenPackets(rs);
    WrittenIsForeign(link, rs);
    OneSection(Section(false, SECTION, items));
    WrittenItemsOk(link, rs);
    InterfaceThenPackets(link, rs);
    assert AllMeant(link, rs) + [] == AllMeant(link, rs);
    forall i | 0 <= i < |rs|
      ensures WallNanos(rs[i]) == rs[i].tsSecs * 1_000_000_000 + rs[i].tsNanos <==> WallFits(rs[i])
    {
      TimeKept(rs[i]);
    }
  }

  lemma InterfaceThenPackets(link: LinkType, rs: seq<PcapRecord>)
    ensures PacketsMeant(false, [WrittenInterface(link)] + WrittenPackets(rs), []) == Some(AllMeant(link, rs))
  {
    hide WallNanos;
    var first, packets := WrittenInterface(link), WrittenPackets(rs);
    PacketsMean(link, rs);
    WrittenIface(link);
    assert ([first] + packets)[1..] == packets && [] + [IfaceOf(false, first)] == [IfaceOf(false, first)];
  }

  lemma OneSection(file: Section)
    ensures FileBytes([file]) == ForeignFile(file.be, file.rest, file.items)
    ensures SectionsMeant([file]) == if NoHeaders(file.items) then
              (match PacketsMeant(file.be, file.items, []) case None => None case Some(ps) => Some(ps + [])) else None
  {
    hide ForeignFile;
    hide PacketsMeant;
    assert [file][1..] == [];
    var s := ForeignFile(file.be, file.rest, file.items);
    assert s + [] == s;
  }

  lemma WrittenItemsOk(link: LinkType, rs: seq<PcapRecord>)
    requires AllWritable(rs)
    ensures
      var items := [WrittenInterface(link)] + WrittenPackets(rs);
      ItemsOk(false, items) && NoHeaders(items)
  {
    hide BodyOf;
    var first, packets := WrittenInterface(link), WrittenPackets(rs);
    InterfaceBody(link);
    forall i | 0 <= i < |rs|
      ensures ItemOk(false, packets[i])
    {
      PacketBody(rs[i]);
      PacketAligned(rs[i]);
    }
  }

  // ---------------------------------------------------------------- byte by byte

  /** The section header of every written file. */
  const HEADER_BYTES: seq<byte> :=
    [0x0A, 0x0D, 0x0D, 0x0A] + [28, 0, 0, 0] +
    ([0x4D, 0x3C, 0x2B, 0x1A] + [1, 0, 0, 0, 0xFF, 0xFF, 0xFF, 0xFF, 0xFF, 0xFF, 0xFF, 0xFF]) + [28, 0, 0, 0]

  /** The interface description of a written file, but for the link type number. */
  function InterfaceBytes(num: byte): seq<byte> {
    [1, 0, 0, 0] + [32, 0, 0, 0] +
    ([num, 0] + ([0, 0] + [0, 0, 0, 0]) + ([9, 0] + ([1, 0] + ([9, 0, 0, 0] + [0, 0] + [0, 0])))) + [32, 0, 0, 0]
  }

  /** The sixty bytes every written file starts with. */
  lemma PreambleBytes(link: LinkType)
    ensures Preamble(link) ==
            HEADER_BYTES + InterfaceBytes(match link case Ethernet => 1 case Loopback => 0 case RawIp => 101)
  {
    AlignedBlock(BT_SHB, ShbBody());
    AlignedBlock(BT_IDB, IdbBody(LinkTypeNum(link)));
    SectionBody();
    MagicBytes();
    FourBytesOf(28);
    FourBytesOf(1);
    FourBytesOf(32);
    FourBytesOf(0);
    TwoBytesOf(LinkTypeNum(link));
    TwoBytesOf(0);
    TwoBytesOf(1);
    TwoBytesOf(9);
    hide Le;
    hide Block;
    hide ShbBody;
  }

  lemma AlignedBlock(blockType: u32, body: seq<byte>)
    requires |body| % 4 == 0
    ensures Block(blockType, body) == Le(blockType, 4) + Le(12 + |body|, 4) + body + Le(12 + |body|, 4)
  {
    hide Le;
    assert Padding(|body|) == 0;
    assert body + Zeros(0) == body;
  }

  lemma TwoBytesOf(n: byte)
    ensures Le(n, 2) == [n, 0]
  {
    assert Le(n / 256, 1) == [0] + Le(0, 0);
  }

  lemma FourBytesOf(n: byte)
    ensures Le(n, 4) == [n, 0, 0, 0]
  {
    LeOfWord(n);
    hide Le;
  }

  /** The fixed part of a written packet block. */
  lemma PacketBytes(r: PcapRecord)
    requires Writable(r)
    ensures
      var s := Epb(r);
      && s[0..4] == [6, 0, 0, 0] && s[8..12] == [0, 0, 0, 0]
      && Word32(s[4..8], false) == |s| == Word32(s[|s| - 4..], false)
      && Word32(s[12..16], false) == WallNanos(r) / 0x1_0000_0000
      && Word32(s[16..20], false) == WallNanos(r) % 0x1_0000_0000
      && Word32(s[20..24], false) == |r.data| && Word32(s[24..28], false) == r.origLen
      && s[28..28 + |r.data|] == r.data
  {
    PacketAligned(r);
    hide Le;
    hide FromLe;
    hide Padding;
    hide WallNanos;
    hide Block;
    var body, w := EpbBody(r), WallNanos(r);
    var s := Epb(r);
    BlockParts(6, body, []);
    assert s + [] == s;
    assert s[8..8 + |body|] == body;
    FourBytesOf(6);
    FourBytesOf(0);
    WordsRoundTrip(12 + |body|);
    WordsRoundTrip(w / TWO_32);
    WordsRoundTrip(w % TWO_32);
    WordsRoundTrip(|r.data|);
    WordsRoundTrip(r.origLen);
    BodySlices(s, r);
  }

  lemma Within(s: seq<byte>, from: nat, to: nat, i: nat, j: nat)
    requires i <= j && from + j <= to <= |s|
    ensures s[from..to][i..j] == s[from + i..from + j]
  {
    var inner, direct := s[from..to][i..j], s[from + i..from + j];
    assert |inner| == |direct|;
    assert forall k :: 0 <= k < |direct| ==> inner[k] == s[from + i + k] == direct[k];
  }

  lemma BodySlices(s: seq<byte>, r: PcapRecord)
    requires |s| == 12 + |EpbBody(r)| && s[8..8 + |EpbBody(r)|] == EpbBody(r)
    ensures s[8..12] == Le(0, 4) && s[12..16] == Le(WallNanos(r) / TWO_32, 4)
    ensures s[16..20] == Le(WallNanos(r) % TWO_32, 4) && s[20..24] == Le(|r.data|, 4)
    ensures s[24..28] == Le(r.origLen, 4) && s[28..28 + |r.data|] == r.data
  {
    hide Le;
    hide WallNanos;
    var body := EpbBody(r);
    Within(s, 8, 8 + |body|, 0, 4);
    Within(s, 8, 8 + |body|, 4, 8);
    Within(s, 8, 8 + |body|, 8, 12);
    Within(s, 8, 8 + |body|, 12, 16);
    Within(s, 8, 8 + |body|, 16, 20);
    Within(s, 8, 8 + |body|, 20, 20 + |r.data|);
  }
}
