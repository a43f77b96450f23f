/**
 * What the pcapng reader makes of files by other writers: either byte order, any interface options and timestamp
 * resolution, repeated interface descriptions, simple packet blocks and blocks of unknown types. What the format
 * means by such files is in `DraftPcapng`.
 */
module ForeignPcapng {
  import opened Wrappers
  import opened Arith
  import opened Bytes
  import opened Pcapng

  /** The low `w` bytes of `n` in the file's byte order. */
  function Word(be: bool, n: nat, w: nat): (s: seq<byte>)
    ensures |s| == w
  {
    if be then Reverse(Le(n, w)) else Le(n, w)
  }

  lemma WordReads(be: bool, n: nat)
    ensures n < 0x1_0000 ==> Word16(Word(be, n, 2), be) == n
    ensures n < TWO_32 ==> Word32(Word(be, n, 4), be) == n
  {
    WordsRoundTrip(n);
    ReverseTwice(Le(n, 2));
    ReverseTwice(Le(n, 4));
  }

  // ---------------------------------------------------------------- interface options

  datatype OptionField = OptionField(code: u16, value: seq<byte>)

  /** Neither the end marker nor longer than its length field can say. */
  predicate OptionOk(o: OptionField) { o.code != OPT_ENDOFOPT && |o.value| < 0x1_0000 }

  predicate OptionsOk(os: seq<OptionField>) { forall i :: 0 <= i < |os| ==> OptionOk(os[i]) }

  function OptionBytes(be: bool, o: OptionField): seq<byte> {
    Word(be, o.code, 2) + (Word(be, |o.value|, 2) + (o.value + Zeros(Padding(|o.value|))))
  }

  /** The options, and the end marker if the writer put one. */
  function OptionArea(be: bool, os: seq<OptionField>, marked: bool): seq<byte> {
    if os == [] then (if marked then Word(be, OPT_ENDOFOPT, 2) + Word(be, 0, 2) else [])
    else OptionBytes(be, os[0]) + OptionArea(be, os[1..], marked)
  }

  predicate IsResolution(o: OptionField) { o.code == OPT_IF_TSRESOL && o.value != [] }

  /** The resolution the options state: that of the first nonempty `if_tsresol`. */
  function Resolution(os: seq<OptionField>): Option<u64> {
    if os == [] then None
    else if IsResolution(os[0]) then Some(UnitNanos(os[0].value[0]))
    else Resolution(os[1..])
  }

  lemma OptionParts(be: bool, o: OptionField, rest: seq<byte>)
    ensures
      var s := OptionBytes(be, o) + rest;
      && s[0..2] == Word(be, o.code, 2) && s[2..4] == Word(be, |o.value|, 2)
      && s[4..4 + |o.value|] == o.value && s[4 + |o.value| + Padding(|o.value|)..] == rest
  {
    hide Word;
    hide Padding;
  }

  lemma {:induction false} OptionsRead(be: bool, os: seq<OptionField>, marked: bool)
    requires OptionsOk(os)
    ensures TsResol(OptionArea(be, os, marked), be) == Resolution(os)
    decreases |os|
  {
    hide Word;
    hide Word16;
    hide UnitNanos;
    hide Padding;
    WordReads(be, OPT_ENDOFOPT);
    WordReads(be, 0);
    if os == [] {
      var s := OptionArea(be, os, marked);
      assert marked ==> s[0..2] == Word(be, OPT_ENDOFOPT, 2);
    } else {
      hide OptionBytes;
      var o, rest := os[0], OptionArea(be, os[1..], marked);
      var s := OptionBytes(be, o) + rest;
      OptionParts(be, o, rest);
      WordReads(be, o.code);
      WordReads(be, |o.value|);
      assert o.value != [] ==> s[4] == s[4..4 + |o.value|][0];
      OptionsRead(be, os[1..], marked);
    }
  }

  /**
   * The unit is exact, a whole number of nanoseconds, precisely for exponents up to nine: finer units are cut to
   * whole nanoseconds, and never below one.
   */
  lemma UnitExact(e: nat)
    requires e < 0x80
    ensures UnitNanos(e) * Pow10(e) == NANOS_PER_SEC <==> e <= 9
    ensures UnitNanos(0x80 + e) * Pow2(e) == NANOS_PER_SEC <==> e <= 9
    ensures e >= 9 ==> UnitNanos(e) == 1
    ensures e >= 30 ==> UnitNanos(0x80 + e) == 1
  {
    hide UnitNanos;
    if e <= 9 {
      ExactTens(e);
      ExactTwos(e);
    }
    if e > 9 {
      CutTens(e);
      CutTwos(e);
    }
  }

  lemma TenToTheNine()
    ensures Pow10(9) == 1_000_000_000 && Pow10(0) == 1
  {
    assert Pow10(3) == 10 * Pow10(2) == 100 * Pow10(1);
    assert Pow10(6) == 10 * Pow10(5) == 100 * Pow10(4) == 1000 * Pow10(3);
    assert Pow10(9) == 10 * Pow10(8) == 100 * Pow10(7) == 1000 * Pow10(6);
  }

  lemma {:induction false} Pow10Splits(a: nat, b: nat)
    ensures Pow10(a + b) == Pow10(a) * Pow10(b)
    decreases a
  {
    if a > 0 {
      Pow10Splits(a - 1, b);
      MulAssoc(10, Pow10(a - 1), Pow10(b));
    }
  }

  lemma ExactTens(e: nat)
    requires e <= 9
    ensures UnitNanos(e) * Pow10(e) == NANOS_PER_SEC && (e == 9 ==> UnitNanos(e) == 1)
  {
    hide Pow10;
    TenToTheNine();
    Pow10Splits(9 - e, e);
    var q, d := Pow10(9 - e), Pow10(e);
    TimesMonotone(1, q, d);
    RemainderIs(NANOS_PER_SEC, d, q, 0);
  }

  lemma ExactTwos(e: nat)
    requires e <= 9
    ensures UnitNanos(0x80 + e) * Pow2(e) == NANOS_PER_SEC
  {
    Pow2Of9();
    hide Pow2;
    var c := PowersDivide(e, 9);
    MulAssoc(1_953_125, c, Pow2(e));
    RemainderIs(NANOS_PER_SEC, Pow2(e), 1_953_125 * c, 0);
  }

  lemma Pow2Of9()
    ensures Pow2(9) == 512 && Pow2(10) == 1024
  {
    assert Pow2(4) == 16;
    assert Pow2(8) == 2 * Pow2(7) == 4 * Pow2(6) == 8 * Pow2(5) == 16 * Pow2(4);
  }

  lemma CutTens(e: nat)
    requires 9 < e < 0x80
    ensures UnitNanos(e) == 1 && Pow10(e) > NANOS_PER_SEC
  {
    hide Pow10;
    TenToTheNine();
    Pow10Splits(e - 10, 10);
    Pow10Splits(1, 9);
    Pow10Splits(1, 0);
    TenToTheOne();
    TimesMonotone(1, Pow10(e - 10), Pow10(10));
    SmallQuotient(Min(Pow10(e), U64_MAX));
  }

  lemma TenToTheOne()
    ensures Pow10(1) == 10
  {
  }

  lemma SmallQuotient(d: nat)
    requires d > NANOS_PER_SEC
    ensures NANOS_PER_SEC / d == 0
  {
  }

  lemma CutTwos(e: nat)
    requires 9 < e < 0x80
    ensures UnitNanos(0x80 + e) * Pow2(e) != NANOS_PER_SEC && (e >= 30 ==> UnitNanos(0x80 + e) == 1)
  {
    Pow2Of9();
    Pow2Of30();
    hide Pow2;
    var q := UnitNanos(0x80 + e);
    var c := PowersDivide(10, e);
    hide UnitNanos;
    assert q * c >= 0;
    MulAssoc(q, c, 1024);
    assert NANOS_PER_SEC % 1024 == 512;
    if q * Pow2(e) == NANOS_PER_SEC {
      RemainderIs(NANOS_PER_SEC, 1024, q * c, 0);
    }
    if e >= 30 {
      Pow2Grows(30, e);
      TinyUnit(e);
    }
  }

  lemma TinyUnit(e: nat)
    requires e < 0x80 && Pow2(e) > NANOS_PER_SEC
    ensures UnitNanos(0x80 + e) == 1
  {
    hide Pow2;
    SmallQuotient(Pow2(e));
  }

  lemma Pow2Of30()
    ensures Pow2(30) == 0x4000_0000
  {
    Pow2Of32();
    assert Pow2(32) == 2 * Pow2(31) == 4 * Pow2(30);
  }

  // ---------------------------------------------------------------- blocks

  /** A block as any writer lays it out. */
  function ForeignBlock(be: bool, blockType: u32, body: seq<byte>): seq<byte> {
    Word(be, blockType, 4) + (Word(be, 12 + |body|, 4) + (body + Word(be, 12 + |body|, 4)))
  }

  datatype Item =
    | Interface(linkNum: u16, reserved: u16, snapLen: u32, options: seq<OptionField>, marked: bool)
    | Enhanced(iface: u32, units: u64, origLen: u32, data: seq<byte>, more: seq<byte>)
    | Simple(origLen: u32, data: seq<byte>, padding: seq<byte>)
    | Other(blockType: u32, body: seq<byte>)

  function TypeOf(item: Item): u32 {
    match item
    case Interface(_, _, _, _, _) => BT_IDB
    case Enhanced(_, _, _, _, _) => BT_EPB
    case Simple(_, _, _) => BT_SPB
    case Other(blockType, _) => blockType
  }

  function BodyOf(be: bool, item: Item): seq<byte> {
    match item
    case Interface(linkNum, reserved, snapLen, options, marked) =>
      Word(be, linkNum, 2) + (Word(be, reserved, 2) + (Word(be, snapLen, 4) + OptionArea(be, options, marked)))
    case Enhanced(iface, units, origLen, data, more) =>
      Word(be, iface, 4) + (Word(be, units / TWO_32, 4) + (Word(be, units % TWO_32, 4) +
      (Word(be, |data|, 4) + (Word(be, origLen, 4) + (data + more)))))
    case Simple(origLen, data, padding) => Word(be, origLen, 4) + (data + padding)
    case Other(_, body) => body
  }

  /** Options that can be laid out, a type of its own for any other block, an aligned body whose length fits. */
  predicate ItemOk(be: bool, item: Item) {
    && (match item
        case Interface(_, _, _, options, _) => OptionsOk(options)
        case Enhanced(_, _, _, _, _) => true
        case Simple(_, _, _) => true
        case Other(blockType, _) => blockType !in {BT_IDB, BT_EPB, BT_SPB})
    && |BodyOf(be, item)| % 4 == 0 && 12 + |BodyOf(be, item)| < TWO_32
  }

  predicate ItemsOk(be: bool, items: seq<Item>) { forall i :: 0 <= i < |items| ==> ItemOk(be, items[i]) }

  function ItemBytes(be: bool, items: seq<Item>): seq<byte> {
    if items == [] then [] else ForeignBlock(be, TypeOf(items[0]), BodyOf(be, items[0])) + ItemBytes(be, items[1..])
  }

  function UpTo(s: seq<byte>, n: nat): seq<byte> { s[..Min(|s|, n)] }

  /** A packet's record: its time counted in the current unit, saturating. */
  function Stamped(units: u64, unitNanos: u64, data: seq<byte>, origLen: u32): PcapRecord {
    var wall := SatMul(units, unitNanos);
    PcapRecord(wall / NANOS_PER_SEC, wall % NANOS_PER_SEC, data, origLen)
  }

  /**
   * What the reader takes an item to add. A later interface description takes over the link type of the whole file,
   * and the unit of the packets after it if it states one; a simple packet has no time, and its data is what the block
   * holds up to the original length, padding included.
   */
  function Reading(item: Item, sc: Scan): Verdict {
    match item
    case Interface(linkNum, _, _, options, _) =>
      (match LinkTypeFromNum(linkNum)
       case Err(e) => Reject(e)
       case Ok(link) =>
         var unit := match Resolution(options) case Some(u) => u case None => sc.unitNanos;
         Go(sc.(link := Some(link), unitNanos := unit)))
    case Enhanced(_, units, origLen, data, _) =>
      Go(sc.(records := sc.records + [Stamped(units, sc.unitNanos, data, origLen)]))
    case Simple(origLen, data, padding) =>
      Go(sc.(records := sc.records + [PcapRecord(0, 0, UpTo(data + padding, origLen), origLen)]))
    case Other(_, _) => Go(sc)
  }

  function Fold(items: seq<Item>, sc: Scan): Result<Scan, PcapngError>
    decreases |items|
  {
    if items == [] then Ok(sc)
    else match Reading(items[0], sc)
         case Go(next) => Fold(items[1..], next)
         case Stop(last) => Ok(last)
         case Reject(e) => Err(e)
  }

  lemma ForeignParts(be: bool, blockType: u32, body: seq<byte>, rest: seq<byte>)
    ensures
      var s := ForeignBlock(be, blockType, body) + rest;
      && |s| >= 12 + |body|
      && s[0..4] == Word(be, blockType, 4) && s[4..8] == Word(be, 12 + |body|, 4)
      && s[8..8 + |body|] == body && s[12 + |body|..] == rest
  {
    hide Word;
  }

  lemma ForeignParses(be: bool, blockType: u32, body: seq<byte>, rest: seq<byte>, sc: Scan)
    requires |body| % 4 == 0 && 12 + |body| < TWO_32
    ensures Blocks(ForeignBlock(be, blockType, body) + rest, be, sc) ==
            Resume(BlockEffect(blockType, body, be, sc), rest, be)
  {
    hide Word;
    hide Word32;
    hide ForeignBlock;
    hide BlockEffect;
    ForeignParts(be, blockType, body, rest);
    WordReads(be, blockType);
    WordReads(be, 12 + |body|);
  }

  lemma InterfaceEffect(be: bool, item: Item, sc: Scan)
    requires item.Interface? && ItemOk(be, item)
    ensures BlockEffect(BT_IDB, BodyOf(be, item), be, sc) == Reading(item, sc)
  {
    hide Word;
    hide Word16;
    hide TsResol;
    hide OptionArea;
    var body, area := BodyOf(be, item), OptionArea(be, item.options, item.marked);
    var front := Word(be, item.linkNum, 2) + Word(be, item.reserved, 2) + Word(be, item.snapLen, 4);
    assert body == front + area;
    assert body[0..2] == Word(be, item.linkNum, 2) && body[8..] == area;
    WordReads(be, item.linkNum);
    OptionsRead(be, item.options, item.marked);
  }

  lemma EnhancedParts(a: seq<byte>, b: seq<byte>, c: seq<byte>, d: seq<byte>, e: seq<byte>, data: seq<byte>,
      more: seq<byte>)
    requires |a| == |b| == |c| == |d| == |e| == 4
    ensures
      var s := a + (b + (c + (d + (e + (data + more)))));
      && s[4..8] == b && s[8..12] == c && s[12..16] == d && s[16..20] == e && s[20..20 + |data|] == data
  {
  }

  lemma EnhancedEffect(be: bool, item: Item, sc: Scan)
    requires item.Enhanced? && ItemOk(be, item)
    ensures BlockEffect(BT_EPB, BodyOf(be, item), be, sc) == Reading(item, sc)
  {
    hide Word;
    hide Word32;
    EnhancedParts(Word(be, item.iface, 4), Word(be, item.units / TWO_32, 4), Word(be, item.units % TWO_32, 4),
                  Word(be, |item.data|, 4), Word(be, item.origLen, 4), item.data, item.more);
    WordReads(be, item.units / TWO_32);
    WordReads(be, item.units % TWO_32);
    WordReads(be, |item.data|);
    WordReads(be, item.origLen);
  }

  lemma SimpleEffect(be: bool, item: Item, sc: Scan)
    requires item.Simple? && ItemOk(be, item)
    ensures BlockEffect(BT_SPB, BodyOf(be, item), be, sc) == Reading(item, sc)
  {
    hide Word;
    hide Word32;
    var body, held := BodyOf(be, item), item.data + item.padding;
    assert body[0..4] == Word(be, item.origLen, 4);
    assert body[4..] == held;
    var n := Min(|held|, item.origLen);
    assert body[4..4 + n] == held[..n];
    WordReads(be, item.origLen);
  }

  lemma ItemEffect(be: bool, item: Item, sc: Scan)
    requires ItemOk(be, item)
    ensures BlockEffect(TypeOf(item), BodyOf(be, item), be, sc) == Reading(item, sc)
  {
    match item
    case Interface(_, _, _, _, _) => InterfaceEffect(be, item, sc);
    case Enhanced(_, _, _, _, _) => EnhancedEffect(be, item, sc);
    case Simple(_, _, _) => SimpleEffect(be, item, sc);
    case Other(_, _) =>
  }

  /** How reading goes on in `tail` after these items. */
  function GoOn(r: Result<Scan, PcapngError>, tail: seq<byte>, be: bool): Result<Scan, PcapngError> {
    match r
    case Ok(next) => Blocks(tail, be, next)
    case Err(e) => Err(e)
  }

  lemma {:induction false} ItemsThen(be: bool, items: seq<Item>, tail: seq<byte>, sc: Scan)
    requires ItemsOk(be, items)
    ensures Blocks(ItemBytes(be, items) + tail, be, sc) == GoOn(Fold(items, sc), tail, be)
    decreases |items|
  {
    hide BlockEffect;
    hide ForeignBlock;
    hide BodyOf;
    hide Reading;
    hide Blocks;
    if items == [] {
      assert [] + tail == tail;
    } else {
      var item := items[0];
      var block, rest := ForeignBlock(be, TypeOf(item), BodyOf(be, item)), ItemBytes(be, items[1..]);
      Regroup(block, rest, tail);
      ForeignParses(be, TypeOf(item), BodyOf(be, item), rest + tail, sc);
      ItemEffect(be, item, sc);
      NeverStops(item, sc);
      var v := Reading(item, sc);
      if v.Go? {
        ItemsThen(be, items[1..], tail, v.scan);
      }
    }
  }

  lemma NeverStops(item: Item, sc: Scan)
    ensures !Reading(item, sc).Stop?
  {
  }

  /** The block loop adds what the reader takes each block to say, in order. */
  lemma ItemsFold(be: bool, items: seq<Item>, sc: Scan)
    requires ItemsOk(be, items)
    ensures Blocks(ItemBytes(be, items), be, sc) == Fold(items, sc)
  {
    ItemsThen(be, items, [], sc);
    assert ItemBytes(be, items) + [] == ItemBytes(be, items);
  }

  /** A section header as any writer lays it out: byte-order magic, then version and section length. */
  function ForeignFile(be: bool, section: seq<byte>, items: seq<Item>): seq<byte> {
    ForeignBlock(be, BT_SHB, Word(be, BOM, 4) + section) + ItemBytes(be, items)
  }

  lemma MagicBytes()
    ensures Le(BT_SHB, 4) == [0x0A, 0x0D, 0x0D, 0x0A] && Le(BOM, 4) == [0x4D, 0x3C, 0x2B, 0x1A]
  {
    hide Le;
    LeOfWord(BT_SHB);
    LeOfWord(BOM);
  }

  /** The section header's type reads the same in both orders, and its magic tells them apart. */
  lemma OrderIsTold(be: bool)
    ensures Word32(Word(be, BT_SHB, 4), false) == BT_SHB
    ensures Word32(Word(be, BOM, 4), false) == BOM <==> !be
  {
    hide Le;
    hide FromLe;
    hide Reverse;
    MagicBytes();
    WordsRoundTrip(BT_SHB);
    WordsRoundTrip(BOM);
    var shb, bom := Le(BT_SHB, 4), Le(BOM, 4);
    assert Reverse(shb) == shb;
    assert Reverse(bom)[0] == 0x1A;
    FromLeFirst(Reverse(bom));
  }

  lemma LeOfWord(n: u32)
    ensures Le(n, 4) == [n % 256, n / 256 % 256, n / 65536 % 256, n / 16777216 % 256]
  {
    assert Le(n, 4) == [n % 256] + Le(n / 256, 3);
    assert Le(n / 256, 3) == [n / 256 % 256] + Le(n / 65536, 2);
    assert Le(n / 65536, 2) == [n / 65536 % 256] + Le(n / 16777216, 1);
    assert Le(n / 16777216, 1) == [n / 16777216 % 256] + [];
  }

  lemma FromLeFirst(s: seq<byte>)
    requires s != []
    ensures FromLe(s) % 256 == s[0]
  {
    RemainderIs(FromLe(s), 256, FromLe(s[1..]), s[0]);
  }

  /** A file of one byte order reads as what the reader takes its blocks to say, in order. */
  lemma OneOrderReads(be: bool, section: seq<byte>, items: seq<Item>)
    requires |section| >= 12 && |section| % 4 == 0 && 16 + |section| < TWO_32 && ItemsOk(be, items)
    ensures Decoding(ForeignFile(be, section, items)) == Conclude(Fold(items, SCAN_START))
  {
    hide Word;
    hide Word32;
    hide Blocks;
    hide ItemBytes;
    hide Fold;
    hide ForeignBlock;
    var shb, rest := Word(be, BOM, 4) + section, ItemBytes(be, items);
    ForeignParts(be, BT_SHB, shb, rest);
    var s := ForeignFile(be, section, items);
    assert s[8..12] == s[8..8 + |shb|][0..4] == Word(be, BOM, 4);
    OrderIsTold(be);
    WordReads(be, BOM);
    ForeignParses(be, BT_SHB, shb, rest, SCAN_START);
    ItemsFold(be, items, SCAN_START);
  }

  lemma {:induction false} AreaLength(os: seq<OptionField>, marked: bool)
    ensures |OptionArea(true, os, marked)| == |OptionArea(false, os, marked)|
    decreases |os|
  {
    hide Word;
    if os != [] {
      AreaLength(os[1..], marked);
    }
  }

  lemma OrderKeepsLayout(items: seq<Item>)
    ensures ItemsOk(true, items) <==> ItemsOk(false, items)
  {
    forall i | 0 <= i < |items|
      ensures |BodyOf(true, items[i])| == |BodyOf(false, items[i])|
    {
      hide Word;
      hide OptionArea;
      if items[i].Interface? {
        AreaLength(items[i].options, items[i].marked);
      }
    }
  }

  /** The byte order of a file does not matter to what is read from it. */
  lemma ByteOrderIsInvisible(section: seq<byte>, items: seq<Item>)
    requires |section| >= 12 && |section| % 4 == 0 && 16 + |section| < TWO_32 && ItemsOk(false, items)
    ensures Decoding(ForeignFile(true, section, items)) == Decoding(ForeignFile(false, section, items))
  {
    hide Decoding;
    hide ForeignFile;
    OrderKeepsLayout(items);
    OneOrderReads(true, section, items);
    OneOrderReads(false, section, items);
  }

  // ---------------------------------------------------------------- sections of either byte order

  /** A section: its byte order, what follows the magic in its header, and its blocks. */
  datatype Section = Section(be: bool, rest: seq<byte>, items: seq<Item>)

  predicate SectionOk(s: Section) {
    && |s.rest| >= 12 && |s.rest| % 4 == 0 && HeaderLength(s) < TWO_32
    && ItemsOk(s.be, s.items)
  }

  predicate SectionsOk(ss: seq<Section>) { forall i :: 0 <= i < |ss| ==> SectionOk(ss[i]) }

  /** The length of the section's header block. */
  function HeaderLength(s: Section): nat { 16 + |s.rest| }

  function SectionBytes(s: Section): seq<byte> { ForeignFile(s.be, s.rest, s.items) }

  function FileBytes(ss: seq<Section>): seq<byte> {
    if ss == [] then [] else SectionBytes(ss[0]) + FileBytes(ss[1..])
  }

  function HeaderOf(s: Section): Item { Other(BT_SHB, Word(s.be, BOM, 4) + s.rest) }

  /** All blocks of the file, headers included. */
  function AllItems(ss: seq<Section>): seq<Item> {
    if ss == [] then [] else [HeaderOf(ss[0])] + ss[0].items + AllItems(ss[1..])
  }

  predicate InOrder(be: bool, ss: seq<Section>) { forall i :: 0 <= i < |ss| ==> ss[i].be == be }

  /** How many sections from the start are in this order. */
  function Common(be: bool, ss: seq<Section>): (k: nat)
    ensures k <= |ss| && InOrder(be, ss[..k]) && (k < |ss| ==> ss[k].be != be)
  {
    if ss == [] || ss[0].be != be then 0
    else
      var k := 1 + Common(be, ss[1..]);
      assert forall i :: 1 <= i < k ==> ss[..k][i] == ss[1..][..k - 1][i - 1];
      k
  }

  /** A length read in the other byte order. */
  function Swapped(n: u32): u32 { Word32(Le(n, 4), true) }

  /** The reader takes this for the length of a block it can step over. */
  predicate Skips(length: nat, left: nat) { 12 <= length <= left && length % 4 == 0 }

  lemma ItemBytesJoin(be: bool, a: seq<Item>, b: seq<Item>)
    ensures ItemBytes(be, a + b) == ItemBytes(be, a) + ItemBytes(be, b)
    decreases |a|
  {
    hide ForeignBlock;
    hide BodyOf;
    if a == [] {
      assert a + b == b;
    } else {
      assert (a + b)[1..] == a[1..] + b;
      ItemBytesJoin(be, a[1..], b);
      Regroup(ForeignBlock(be, TypeOf(a[0]), BodyOf(be, a[0])), ItemBytes(be, a[1..]), ItemBytes(be, b));
    }
  }

  lemma ItemsOkJoin(be: bool, a: seq<Item>, b: seq<Item>)
    requires ItemsOk(be, a) && ItemsOk(be, b)
    ensures ItemsOk(be, a + b)
  {
    hide ItemOk;
  }

  lemma OneItem(be: bool, item: Item)
    ensures ItemBytes(be, [item]) == ForeignBlock(be, TypeOf(item), BodyOf(be, item))
  {
    hide ForeignBlock;
    hide BodyOf;
    assert [item][1..] == [];
    var block := ForeignBlock(be, TypeOf(item), BodyOf(be, item));
    assert block + [] == block;
  }

  /** Sections of one order are one run of blocks. */
  lemma {:induction false} SectionsAreItems(be: bool, ss: seq<Section>)
    requires SectionsOk(ss) && InOrder(be, ss)
    ensures FileBytes(ss) == ItemBytes(be, AllItems(ss)) && ItemsOk(be, AllItems(ss))
    decreases |ss|
  {
    hide ForeignBlock;
    hide ItemBytes;
    if ss == [] {
      NoItems(be);
    } else {
      var head := HeaderOf(ss[0]);
      SectionsAreItems(be, ss[1..]);
      OneItem(be, head);
      ItemBytesJoin(be, [head], ss[0].items);
      ItemBytesJoin(be, [head] + ss[0].items, AllItems(ss[1..]));
      ItemsOkJoin(be, [head], ss[0].items);
      ItemsOkJoin(be, [head] + ss[0].items, AllItems(ss[1..]));
    }
  }

  lemma NoItems(be: bool)
    ensures ItemBytes(be, []) == []
  {
  }

  lemma FileJoin(a: seq<Section>, b: seq<Section>)
    ensures FileBytes(a + b) == FileBytes(a) + FileBytes(b)
    decreases |a|
  {
    hide SectionBytes;
    if a == [] {
      assert a + b == b;
    } else {
      assert (a + b)[1..] == a[1..] + b;
      FileJoin(a[1..], b);
      Regroup(SectionBytes(a[0]), FileBytes(a[1..]), FileBytes(b));
    }
  }

  /** A section header read in the other order: the type is known, the length is swapped. */
  lemma OtherOrderWords(be: bool, n: u32)
    ensures Word32(Word(!be, BT_SHB, 4), be) == BT_SHB
    ensures Word32(Word(!be, n, 4), be) == Swapped(n)
  {
    hide Le;
    hide FromLe;
    hide Reverse;
    MagicBytes();
    WordsRoundTrip(BT_SHB);
    var shb := Le(BT_SHB, 4);
    assert Reverse(shb) == shb;
  }

  /**
   * A section header in the other byte order: the reader steps over as many bytes as its swapped length says, or stops,
   * truncated, where that runs past the end or is no length of a block.
   */
  lemma OtherOrderHeader(be: bool, body: seq<byte>, content: seq<byte>, sc: Scan)
    requires 12 + |body| < TWO_32
    ensures
      var s := ForeignBlock(!be, BT_SHB, body) + content;
      var length := Swapped(12 + |body|);
      Blocks(s, be, sc) == if Skips(length, |s|) then Blocks(s[length..], be, sc) else Ok(sc.(truncated := true))
  {
    hide Word;
    hide Word32;
    hide Swapped;
    hide ForeignBlock;
    ForeignParts(!be, BT_SHB, body, content);
    OtherOrderWords(be, 12 + |body|);
  }

  lemma FileStart(be: bool, section: seq<byte>, content: seq<byte>)
    requires |section| >= 12
    ensures
      var s := ForeignBlock(be, BT_SHB, Word(be, BOM, 4) + section) + content;
      Decoding(s) == Conclude(Blocks(s, be, SCAN_START))
  {
    hide Word;
    hide Word32;
    hide Blocks;
    hide ForeignBlock;
    var shb := Word(be, BOM, 4) + section;
    var s := ForeignBlock(be, BT_SHB, shb) + content;
    ForeignParts(be, BT_SHB, shb, content);
    assert s[8..12] == s[8..8 + |shb|][0..4] == Word(be, BOM, 4);
    OrderIsTold(be);
    WordReads(be, BOM);
  }

  /** What is read of a file: the sections in the first one's order, and then what the next header leads to. */
  function FileRead(ss: seq<Section>): Result<Scan, PcapngError>
    requires ss != [] && SectionsOk(ss)
  {
    var be := ss[0].be;
    var k := Common(be, ss);
    var head := Fold(AllItems(ss[..k]), SCAN_START);
    if k == |ss| || head.Err? then head
    else
      var rest, length := FileBytes(ss[k..]), Swapped(HeaderLength(ss[k]));
      if Skips(length, |rest|) then Blocks(rest[length..], be, head.value) else Ok(head.value.(truncated := true))
  }

  /**
   * Whatever wrote it, a file reads as what the reader takes its blocks to say, in order, as long as its sections are
   * in the byte order of the first. At the first section in the other order the reader stops, truncated, unless the
   * swapped length of its header leads to somewhere in the rest of the file, where it goes on.
   */
  lemma ForeignFileReads(ss: seq<Section>)
    requires ss != [] && SectionsOk(ss)
    ensures Decoding(FileBytes(ss)) == Conclude(FileRead(ss))
  {
    hide Decoding;
    hide Blocks;
    hide ItemBytes;
    hide Fold;
    hide ForeignBlock;
    hide AllItems;
    hide Swapped;
    hide Skips;
    var be := ss[0].be;
    var k := Common(be, ss);
    var front, back := ss[..k], ss[k..];
    assert ss == front + back;
    FileJoin(front, back);
    SectionsAreItems(be, front);
    var first := ss[0];
    Regroup(ForeignBlock(be, BT_SHB, Word(be, BOM, 4) + first.rest), ItemBytes(be, first.items), FileBytes(ss[1..]));
    FileStart(be, first.rest, ItemBytes(be, first.items) + FileBytes(ss[1..]));
    ItemsThen(be, AllItems(front), FileBytes(back), SCAN_START);
    var head := Fold(AllItems(front), SCAN_START);
    if head.Ok? {
      if back == [] {
        NothingMore(be, head.value);
      } else {
        NextSection(be, back, head.value);
      }
    }
  }

  lemma NothingMore(be: bool, sc: Scan)
    ensures Blocks(FileBytes([]), be, sc) == Ok(sc)
  {
  }

  lemma NextSection(be: bool, back: seq<Section>, sc: Scan)
    requires back != [] && SectionsOk(back) && back[0].be != be
    ensures
      var rest, length := FileBytes(back), Swapped(HeaderLength(back[0]));
      Blocks(rest, be, sc) ==
      if Skips(length, |rest|) then Blocks(rest[length..], be, sc) else Ok(sc.(truncated := true))
  {
    hide Blocks;
    hide ItemBytes;
    hide ForeignBlock;
    hide Swapped;
    hide Skips;
    var s := back[0];
    var body := Word(s.be, BOM, 4) + s.rest;
    Regroup(ForeignBlock(s.be, BT_SHB, body), ItemBytes(s.be, s.items), FileBytes(back[1..]));
    OtherOrderHeader(be, body, ItemBytes(s.be, s.items) + FileBytes(back[1..]), sc);
  }

  /** In less than 16 MiB a swapped length leads nowhere, unless the header's length is a multiple of 256. */
  lemma SkipNeedsRoom(n: u32, left: nat)
    requires n % 256 != 0 && left < 0x100_0000
    ensures !Skips(Swapped(n), left)
  {
    SwappedValue(n);
  }

  lemma SwappedValue(n: u32)
    ensures Swapped(n) == n % 256 * 0x100_0000 + n / 256 % 256 * 0x1_0000 + n / 65536 % 256 * 256 + n / 16777216 % 256
  {
    var a, b, c, d: byte := n % 256, n / 256 % 256, n / 65536 % 256, n / 16777216 % 256;
    LeOfWord(n);
    assert Reverse([a, b, c, d]) == [d, c, b, a];
    FourBytes(d, c, b, a);
  }

  lemma FourBytes(d: byte, c: byte, b: byte, a: byte)
    ensures FromLe([d, c, b, a]) == d + 256 * c + 65536 * b + 16777216 * a
  {
    assert [d, c, b, a][1..] == [c, b, a] && [c, b, a][1..] == [b, a] && [b, a][1..] == [a] && [a][1..] == [];
    assert FromLe([a]) == a;
    assert FromLe([b, a]) == b + 256 * a;
    assert FromLe([c, b, a]) == c + 256 * FromLe([b, a]);
  }

  /**
   * A little-endian section with an interface, then a big-endian section header of 28 bytes and less than 400 MiB of
   * anything: the second section is lost.
   */
  lemma OtherOrderSectionIsLost(first: Section, link: LinkType, rest: seq<byte>, content: seq<byte>)
    requires SectionOk(first) && !first.be && first.items == [Interface(LinkTypeNum(link), 0, 0, [], false)]
    requires |rest| == 12 && |content| < 400 * 1024 * 1024
    ensures Decoding(SectionBytes(first) + (ForeignBlock(true, BT_SHB, Word(true, BOM, 4) + rest) + content)) ==
            Ok(PcapngFile(link, [], true))
  {
    hide Decoding;
    hide Blocks;
    hide ItemBytes;
    hide ForeignBlock;
    hide Swapped;
    hide AllItems;
    hide Fold;
    var body := Word(true, BOM, 4) + rest;
    var second := ForeignBlock(true, BT_SHB, body) + content;
    SectionsAreItems(false, [first]);
    assert [first][1..] == [] && SectionBytes(first) + [] == SectionBytes(first);
    assert FileBytes([first]) == SectionBytes(first);
    Regroup(ForeignBlock(false, BT_SHB, Word(false, BOM, 4) + first.rest), ItemBytes(false, first.items), second);
    FileStart(false, first.rest, ItemBytes(false, first.items) + second);
    ItemsThen(false, AllItems([first]), second, SCAN_START);
    InterfaceAlone(first, link);
    OtherOrderHeader(false, body, content, SCAN_START.(link := Some(link)));
    SwappedValue(28);
    BlockLength(true, BT_SHB, body);
  }

  lemma BlockLength(be: bool, blockType: u32, body: seq<byte>)
    requires 12 + |body| < TWO_32
    ensures |ForeignBlock(be, blockType, body)| == 12 + |body|
  {
  }

  lemma InterfaceAlone(s: Section, link: LinkType)
    requires s.items == [Interface(LinkTypeNum(link), 0, 0, [], false)]
    ensures Fold(AllItems([s]), SCAN_START) == Ok(SCAN_START.(link := Some(link)))
  {
    var head, item := HeaderOf(s), s.items[0];
    assert [s][1..] == [];
    assert AllItems([s]) == [head] + s.items + AllItems([]) == [head, item];
    assert [head, item][1..] == [item] && [item][1..] == [];
    var last := SCAN_START.(link := Some(link));
    assert Reading(head, SCAN_START) == Go(SCAN_START);
    assert Reading(item, SCAN_START) == Go(last);
    assert Fold([item], SCAN_START) == Fold([], last) == Ok(last);
    assert Fold([head, item], SCAN_START) == Fold([item], SCAN_START);
  }

  // ---------------------------------------------------------------- what is not well formed

  /** The checks on the first bytes of a file, in their order; a section header is told by its type and its magic. */
  lemma OpeningChecks(bytes: seq<byte>)
    ensures |bytes| < 12 ==> Decoding(bytes) == Err(ShorterThanOneBlock)
    ensures |bytes| >= 12 && bytes[0..4] != [0x0A, 0x0D, 0x0D, 0x0A] ==> Decoding(bytes) == Err(MissingSectionHeader)
    ensures 12 <= |bytes| < 24 && bytes[0..4] == [0x0A, 0x0D, 0x0D, 0x0A] ==>
              Decoding(bytes) == Err(TruncatedSectionHeader)
    ensures |bytes| >= 24 && bytes[0..4] == [0x0A, 0x0D, 0x0D, 0x0A] ==>
              if bytes[8..12] == [0x4D, 0x3C, 0x2B, 0x1A] then
                Decoding(bytes) == Conclude(Blocks(bytes, false, SCAN_START))
              else if bytes[8..12] == [0x1A, 0x2B, 0x3C, 0x4D] then
                Decoding(bytes) == Conclude(Blocks(bytes, true, SCAN_START))
              else Decoding(bytes) == Err(BadByteOrderMagic)
  {
    MagicBytes();
    if |bytes| >= 12 {
      WordIs(bytes[0..4], BT_SHB);
      WordIs(bytes[8..12], BOM);
      MagicReversed(bytes[8..12]);
    }
    hide Le;
    hide FromLe;
    hide Blocks;
    hide Reverse;
    hide Word32;
    hide Conclude;
  }

  /** A word is read exactly from its bytes, in either order. */
  lemma WordIs(s: seq<byte>, n: u32)
    requires |s| == 4
    ensures Word32(s, false) == n <==> s == Le(n, 4)
    ensures Word32(s, true) == n <==> Reverse(s) == Le(n, 4)
  {
    hide Le;
    hide FromLe;
    hide Reverse;
    WordsRoundTrip(n);
    LeOfFromLe(s);
    LeOfFromLe(Reverse(s));
  }

  lemma MagicReversed(s: seq<byte>)
    requires |s| == 4
    ensures Reverse(s) == [0x4D, 0x3C, 0x2B, 0x1A] <==> s == [0x1A, 0x2B, 0x3C, 0x4D]
  {
    hide Reverse;
    assert Reverse(s) == [s[3], s[2], s[1], s[0]];
    assert s == [s[0], s[1], s[2], s[3]];
  }

  /**
   * Blocks too short for what they claim: an interface description of less than eight bytes or a packet that runs past
   * its block end the reading, truncated; a simple packet of less than four bytes is stepped over.
   */
  lemma ShortBlocks(body: seq<byte>, be: bool, sc: Scan)
    ensures |body| < 8 ==> BlockEffect(1, body, be, sc) == Stop(sc.(truncated := true))
    ensures |body| < 20 || 20 + Word32(body[12..16], be) > |body| ==>
              BlockEffect(6, body, be, sc) == Stop(sc.(truncated := true))
    ensures |body| >= 20 && 20 + Word32(body[12..16], be) <= |body| ==> BlockEffect(6, body, be, sc).Go?
    ensures |body| < 4 ==> BlockEffect(3, body, be, sc) == Go(sc)
    ensures |body| >= 4 ==> BlockEffect(3, body, be, sc).Go? && BlockEffect(3, body, be, sc) != Go(sc)
    ensures forall n: u32 :: n !in {1, 3, 6} ==> BlockEffect(n, body, be, sc) == Go(sc)
  {
    if |body| >= 4 {
      assert |sc.records + [ParseSpb(body, be).value]| == |sc.records| + 1;
    }
  }

  /** A unit is the whole part of its nanoseconds, but never less than one. */
  lemma UnitIsFloor(e: nat)
    requires e < 0x80
    ensures
      var u := UnitNanos(e);
      if Pow10(e) > 1_000_000_000 then u == 1
      else u * Pow10(e) <= 1_000_000_000 < (u + 1) * Pow10(e)
    ensures
      var u := UnitNanos(0x80 + e);
      if Pow2(e) > 1_000_000_000 then u == 1
      else u * Pow2(e) <= 1_000_000_000 < (u + 1) * Pow2(e)
  {
    hide Pow10;
    hide Pow2;
    FloorOf(Pow10(e));
    FloorOf(Pow2(e));
  }

  lemma FloorOf(d: nat)
    requires d >= 1
    ensures d > NANOS_PER_SEC ==> NANOS_PER_SEC / d == 0
    ensures d <= NANOS_PER_SEC ==> NANOS_PER_SEC / d >= 1
    ensures NANOS_PER_SEC / d * d <= NANOS_PER_SEC < (NANOS_PER_SEC / d + 1) * d
  {
    var q := NANOS_PER_SEC / d;
    assert NANOS_PER_SEC == q * d + NANOS_PER_SEC % d;
    assert (q + 1) * d == q * d + d;
    if d > NANOS_PER_SEC {
      SmallQuotient(d);
    }
    assert q == 0 ==> q * d == 0;
  }
}
