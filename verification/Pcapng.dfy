/**
 * The pcapng reader and writer: one section header block, one interface
 * description block and an enhanced packet block per record.
 */
module Pcapng {
  import opened Wrappers
  import opened Arith
  import opened Bytes

  datatype LinkType = Ethernet | Loopback | RawIp

  datatype PcapRecord = PcapRecord(tsSecs: u64, tsNanos: u32, data: seq<byte>, origLen: u32)

  datatype PcapngFile = PcapngFile(linkType: LinkType, records: seq<PcapRecord>, truncated: bool)

  datatype PcapngError =
    | ShorterThanOneBlock
    | MissingSectionHeader
    | TruncatedSectionHeader
    | BadByteOrderMagic
    | UnsupportedLinkType(num: u16)
    | NoInterfaceDescription

  const BT_SHB: u32 := 0x0A0D_0D0A
  const BT_IDB: u32 := 1
  const BT_SPB: u32 := 3
  const BT_EPB: u32 := 6
  const BOM: u32 := 0x1A2B_3C4D
  const OPT_IF_TSRESOL: u16 := 9
  const OPT_ENDOFOPT: u16 := 0
  const NANOS_PER_SEC: int := 1_000_000_000

  function LinkTypeNum(link: LinkType): u16 {
    match link
    case Ethernet => 1
    case Loopback => 0
    case RawIp => 101
  }

  function LinkTypeFromNum(n: u16): Result<LinkType, PcapngError> {
    if n == 1 then Ok(Ethernet)
    else if n == 0 then Ok(Loopback)
    else if n == 101 then Ok(RawIp)
    else Err(UnsupportedLinkType(n))
  }

  // ---------------------------------------------------------------- writing

  /** Bytes that bring `n` up to the next multiple of four. */
  function Padding(n: nat): (p: nat)
    ensures p < 4 && (n + p) % 4 == 0
  {
    (n + 3) / 4 * 4 - n
  }

  lemma PaddingIs(n: nat)
    ensures Padding(n) == (n + 3) / 4 * 4 - n
  {
  }

  /** A block: type, total length, body padded to 32 bits, total length again. */
  function Block(blockType: u32, body: seq<byte>): (s: seq<byte>)
    ensures |s| == 12 + |body| + Padding(|body|)
  {
    var total := 12 + |body| + Padding(|body|);
    Le(blockType, 4) + Le(total, 4) + body + Zeros(Padding(|body|)) + Le(total, 4)
  }

  function ShbBody(): (s: seq<byte>)
    ensures |s| == 16
  {
    Le(BOM, 4) + Le(1, 2) + Le(0, 2) + Le(U64_MAX, 8)
  }

  /** The nanosecond `if_tsresol` option, padded, and the end of the options. */
  function IdbOptionArea(): (s: seq<byte>)
    ensures |s| == 12
  {
    Le(OPT_IF_TSRESOL, 2) + (Le(1, 2) + ([9, 0, 0, 0] + Le(OPT_ENDOFOPT, 2) + Le(0, 2)))
  }

  function IdbBody(linkNum: u16): (s: seq<byte>)
    ensures |s| == 20
  {
    Le(linkNum, 2) + (Le(0, 2) + Le(0, 4)) + IdbOptionArea()
  }

  /** The 64-bit timestamp written for a record; the product saturates and the sum wraps (release build). */
  function WallNanos(r: PcapRecord): u64 {
    (SatMul(r.tsSecs, NANOS_PER_SEC) + r.tsNanos) % TWO_64
  }

  function EpbBody(r: PcapRecord): (s: seq<byte>)
    ensures |s| == 20 + |r.data| + Padding(|r.data|)
  {
    Le(0, 4) + Le(WallNanos(r) / TWO_32, 4) + Le(WallNanos(r) % TWO_32, 4) +
    Le(|r.data|, 4) + Le(r.origLen, 4) + r.data + Zeros(Padding(|r.data|))
  }

  /** The block length of a record's packet block. */
  function EpbLength(r: PcapRecord): nat { 32 + |r.data| + Padding(|r.data|) }

  function EpbsLength(rs: seq<PcapRecord>): nat { if rs == [] then 0 else EpbLength(rs[0]) + EpbsLength(rs[1..]) }

  function Epb(r: PcapRecord): (s: seq<byte>)
    ensures |s| == EpbLength(r)
  {
    Block(BT_EPB, EpbBody(r))
  }

  function Epbs(rs: seq<PcapRecord>): (s: seq<byte>)
    ensures |s| == EpbsLength(rs)
  {
    if rs == [] then [] else Epb(rs[0]) + Epbs(rs[1..])
  }

  function Headers(shb: seq<byte>, idb: seq<byte>): (s: seq<byte>) {
    Block(BT_SHB, shb) + Block(BT_IDB, idb)
  }

  function Preamble(link: LinkType): (s: seq<byte>)
    ensures |s| == 60
  {
    Headers(ShbBody(), IdbBody(LinkTypeNum(link)))
  }

  function Encoding(link: LinkType, rs: seq<PcapRecord>): (s: seq<byte>)
    ensures |s| == 60 + EpbsLength(rs)
  {
    Preamble(link) + Epbs(rs)
  }

  method PushBlock(prefix: seq<byte>, blockType: u32, body: seq<byte>) returns (out: seq<byte>)
    ensures out == prefix + Block(blockType, body)
  {
    var padded := (|body| + 3) / 4 * 4;
    var total := 12 + padded;
    out := prefix + Le(blockType, 4);
    out := out + Le(total, 4);
    out := out + body;
    out := out + Zeros(padded - |body|);
    out := out + Le(total, 4);
    assert out == prefix + Block(blockType, body);
  }

  method WriteEpb(prefix: seq<byte>, r: PcapRecord) returns (out: seq<byte>)
    ensures out == prefix + Epb(r)
  {
    hide Le;
    hide Block;
    hide Padding;
    hide SatMul;
    var wall := (SatMul(r.tsSecs, NANOS_PER_SEC) + r.tsNanos) % TWO_64;
    var body := Le(0, 4);
    body := body + Le(wall / TWO_32, 4);
    body := body + Le(wall % TWO_32, 4);
    body := body + Le(|r.data|, 4);
    body := body + Le(r.origLen, 4);
    body := body + r.data;
    body := body + Zeros((|r.data| + 3) / 4 * 4 - |r.data|);
    assert body == EpbBody(r) by { PaddingIs(|r.data|); }
    out := PushBlock(prefix, BT_EPB, body);
  }

  lemma EpbsFrom(prefix: seq<byte>, rs: seq<PcapRecord>, i: nat)
    requires i < |rs|
    ensures prefix + Epbs(rs[i..]) == prefix + Epb(rs[i]) + Epbs(rs[i + 1..])
  {
    hide Epb;
    assert rs[i..][1..] == rs[i + 1..];
    Regroup(prefix, Epb(rs[i]), Epbs(rs[i + 1..]));
  }

  /** The record loop of `Write`. */
  method WriteEpbs(prefix: seq<byte>, records: seq<PcapRecord>) returns (out: seq<byte>)
    ensures out == prefix + Epbs(records)
  {
    hide Epb;
    out := prefix;
    assert records[0..] == records;
    for i := 0 to |records|
      invariant out + Epbs(records[i..]) == prefix + Epbs(records)
    {
      EpbsFrom(out, records, i);
      out := WriteEpb(out, records[i]);
    }
    assert records[|records|..] == [];
  }

  method Write(link: LinkType, records: seq<PcapRecord>) returns (out: seq<byte>)
    ensures out == Encoding(link, records)
  {
    hide Block;
    hide IdbBody;
    hide ShbBody;
    out := PushBlock([], BT_SHB, ShbBody());
    out := PushBlock(out, BT_IDB, IdbBody(LinkTypeNum(link)));
    out := WriteEpbs(out, records);
  }

  // ---------------------------------------------------------------- parsing

  /** 10^v for v <= 19, the largest power that fits 64 bits; beyond that `saturating_pow` stops at the maximum. */
  function Pow10(v: nat): (p: nat)
    ensures p >= 1
  {
    if v == 0 then 1 else 10 * Pow10(v - 1)
  }

  /**
   * Nanoseconds per timestamp unit for an `if_tsresol` value. The high bit selects
   * a power of two: 10^9 / 2^e is exact in a 64-bit float (10^9 = 2^9 * 5^9), so the
   * cast back to an integer is the integer quotient.
   */
  function UnitNanos(v: byte): (n: u64)
    ensures 1 <= n <= NANOS_PER_SEC
  {
    if v >= 0x80 then Max(NANOS_PER_SEC / Pow2(v - 0x80), 1)
    else Max(NANOS_PER_SEC / Min(Pow10(v), U64_MAX), 1)
  }

  /** The `if_tsresol` option of an option area, if one is reached before the end or a malformed option. */
  function TsResol(opts: seq<byte>, be: bool): Option<u64> {
    if |opts| < 4 then None else
    var code := Word16(opts[0..2], be);
    var len := Word16(opts[2..4], be);
    if code == OPT_ENDOFOPT || 4 + len > |opts| then None
    else if code == OPT_IF_TSRESOL && len >= 1 then Some(UnitNanos(opts[4]))
    else if 4 + len + Padding(len) > |opts| then None
    else TsResol(opts[4 + len + Padding(len)..], be)
  }

  method ParseTsresol(area: seq<byte>, be: bool) returns (r: Option<u64>)
    ensures r == TsResol(area, be)
  {
    hide UnitNanos;
    hide Padding;
    var opts := area;
    while |opts| >= 4
      invariant TsResol(opts, be) == TsResol(area, be)
      decreases |opts|
    {
      var code := Word16(opts[0..2], be);
      var len := Word16(opts[2..4], be);
      if code == OPT_ENDOFOPT {
        return None;
      }
      var padded := (len + 3) / 4 * 4;
      PaddingIs(len);
      if 4 + len > |opts| {
        return None;
      }
      if code == OPT_IF_TSRESOL && len >= 1 {
        return Some(UnitNanos(opts[4]));
      }
      if 4 + padded > |opts| {
        return None;
      }
      opts := opts[4 + padded..];
    }
    return None;
  }

  /** The record of an enhanced packet body; `None` when the body is too short for what it claims. */
  function ParseEpb(body: seq<byte>, unitNanos: u64, be: bool): Option<PcapRecord> {
    if |body| < 20 then None else
    var capLen := Word32(body[12..16], be);
    if 20 + capLen > |body| then None else
    var units := Word32(body[4..8], be) * TWO_32 + Word32(body[8..12], be);
    var wall := SatMul(units, unitNanos);
    Some(PcapRecord(wall / NANOS_PER_SEC, wall % NANOS_PER_SEC, body[20..20 + capLen], Word32(body[16..20], be)))
  }

  function ParseSpb(body: seq<byte>, be: bool): Option<PcapRecord> {
    if |body| < 4 then None else
    var origLen := Word32(body[0..4], be);
    Some(PcapRecord(0, 0, body[4..4 + Min(|body| - 4, origLen)], origLen))
  }

  /** What has been learnt by the time a block boundary is reached. */
  datatype Scan = Scan(link: Option<LinkType>, unitNanos: u64, records: seq<PcapRecord>, truncated: bool)

  datatype Verdict = Go(scan: Scan) | Stop(scan: Scan) | Reject(error: PcapngError)

  /** The effect of one whole block. */
  function BlockEffect(blockType: u32, body: seq<byte>, be: bool, sc: Scan): Verdict {
    if blockType == BT_IDB then
      if |body| < 8 then Stop(sc.(truncated := true))
      else match LinkTypeFromNum(Word16(body[0..2], be))
           case Err(e) => Reject(e)
           case Ok(link) =>
             var unit := match TsResol(body[8..], be) case Some(u) => u case None => sc.unitNanos;
             Go(sc.(link := Some(link), unitNanos := unit))
    else if blockType == BT_EPB then
      match ParseEpb(body, sc.unitNanos, be)
      case Some(rec) => Go(sc.(records := sc.records + [rec]))
      case None => Stop(sc.(truncated := true))
    else if blockType == BT_SPB then
      match ParseSpb(body, be)
      case Some(rec) => Go(sc.(records := sc.records + [rec]))
      case None => Go(sc)
    else Go(sc)
  }

  /** Everything the blocks of `rest` add to `sc`. */
  function Blocks(rest: seq<byte>, be: bool, sc: Scan): Result<Scan, PcapngError>
    decreases |rest|
  {
    if |rest| < 12 then Ok(sc) else
    var total := Word32(rest[4..8], be);
    if total < 12 || total % 4 != 0 || total > |rest| then Ok(sc.(truncated := true))
    else match BlockEffect(Word32(rest[0..4], be), rest[8..total - 4], be, sc)
         case Go(next) => Blocks(rest[total..], be, next)
         case Stop(last) => Ok(last)
         case Reject(e) => Err(e)
  }

  /** How reading goes on in `rest` after a block with that verdict. */
  function Resume(v: Verdict, rest: seq<byte>, be: bool): Result<Scan, PcapngError> {
    match v
    case Go(next) => Blocks(rest, be, next)
    case Stop(last) => Ok(last)
    case Reject(e) => Err(e)
  }

  const SCAN_START := Scan(None, 1000, [], false)

  function Conclude(r: Result<Scan, PcapngError>): Result<PcapngFile, PcapngError> {
    match r
    case Err(e) => Err(e)
    case Ok(sc) =>
      match sc.link
      case None => Err(NoInterfaceDescription)
      case Some(link) => Ok(PcapngFile(link, sc.records, sc.truncated))
  }

  function Decoding(bytes: seq<byte>): Result<PcapngFile, PcapngError> {
    if |bytes| < 12 then Err(ShorterThanOneBlock)
    else if Word32(bytes[0..4], false) != BT_SHB then Err(MissingSectionHeader)
    else if |bytes| < 24 then Err(TruncatedSectionHeader)
    else if Word32(bytes[8..12], false) == BOM then Conclude(Blocks(bytes, false, SCAN_START))
    else if Word32(bytes[8..12], true) == BOM then Conclude(Blocks(bytes, true, SCAN_START))
    else Err(BadByteOrderMagic)
  }

  /** `Blocks` at an offset of the whole buffer. */
  lemma BlocksAt(bytes: seq<byte>, pos: nat, be: bool, sc: Scan)
    requires pos + 12 <= |bytes|
    ensures
      var total := Word32(bytes[pos + 4..pos + 8], be);
      if total < 12 || total % 4 != 0 || pos + total > |bytes|
      then Blocks(bytes[pos..], be, sc) == Ok(sc.(truncated := true))
      else Blocks(bytes[pos..], be, sc) ==
           Resume(BlockEffect(Word32(bytes[pos..pos + 4], be), bytes[pos + 8..pos + total - 4], be, sc),
             bytes[pos + total..], be)
  {
    var rest := bytes[pos..];
    var total := Word32(bytes[pos + 4..pos + 8], be);
    assert rest[0..4] == bytes[pos..pos + 4] && rest[4..8] == bytes[pos + 4..pos + 8];
    if 12 <= total && pos + total <= |bytes| {
      assert rest[8..total - 4] == bytes[pos + 8..pos + total - 4] && rest[total..] == bytes[pos + total..];
    }
  }

  method Parse(bytes: seq<byte>) returns (r: Result<PcapngFile, PcapngError>)
    ensures r == Decoding(bytes)
  {
    if |bytes| < 12 {
      return Err(ShorterThanOneBlock);
    }
    var firstType := Word32(bytes[0..4], false);
    if firstType != BT_SHB {
      return Err(MissingSectionHeader);
    }
    if |bytes| < 24 {
      return Err(TruncatedSectionHeader);
    }
    var be := false;
    if Word32(bytes[8..12], false) != BOM {
      if Word32(bytes[8..12], true) != BOM {
        return Err(BadByteOrderMagic);
      }
      be := true;
    }
    var scan := ParseBlocks(bytes, be);
    match scan
    case Err(e) => return Err(e);
    case Ok(sc) =>
      match sc.link
      case None => return Err(NoInterfaceDescription);
      case Some(link) => return Ok(PcapngFile(link, sc.records, sc.truncated));
  }

  /** One turn of the block loop: the match on the block type. */
  method ApplyBlock(blockType: u32, body: seq<byte>, be: bool, sc: Scan) returns (v: Verdict)
    ensures v == BlockEffect(blockType, body, be, sc)
  {
    if blockType == BT_IDB {
      if |body| < 8 {
        return Stop(sc.(truncated := true));
      }
      var link := LinkTypeFromNum(Word16(body[0..2], be));
      if link.Err? {
        return Reject(link.error);
      }
      var next := sc.(link := Some(link.value));
      var resolution := ParseTsresol(body[8..], be);
      if resolution.Some? {
        next := next.(unitNanos := resolution.value);
      }
      return Go(next);
    } else if blockType == BT_EPB {
      var rec := ParseEpb(body, sc.unitNanos, be);
      if rec.None? {
        return Stop(sc.(truncated := true));
      }
      return Go(sc.(records := sc.records + [rec.value]));
    } else if blockType == BT_SPB {
      var rec := ParseSpb(body, be);
      if rec.Some? {
        return Go(sc.(records := sc.records + [rec.value]));
      }
    }
    return Go(sc);
  }

  /** The block loop of `Parse`. */
  method ParseBlocks(bytes: seq<byte>, be: bool) returns (r: Result<Scan, PcapngError>)
    ensures r == Blocks(bytes, be, SCAN_START)
  {
    hide BlockEffect;
    var sc := SCAN_START;
    var pos := 0;
    assert bytes[0..] == bytes;
    while pos + 12 <= |bytes|
      invariant 0 <= pos <= |bytes|
      invariant Blocks(bytes[pos..], be, sc) == Blocks(bytes, be, SCAN_START)
      decreases |bytes| - pos
    {
      BlocksAt(bytes, pos, be, sc);
      var blockType := Word32(bytes[pos..pos + 4], be);
      var total := Word32(bytes[pos + 4..pos + 8], be);
      if total < 12 || total % 4 != 0 || pos + total > |bytes| {
        return Ok(sc.(truncated := true));
      }
      var body := bytes[pos + 8..pos + total - 4];
      var verdict := ApplyBlock(blockType, body, be, sc);
      match verdict
      case Stop(last) => return Ok(last);
      case Reject(e) => return Err(e);
      case Go(next) =>
        sc := next;
        pos := pos + total;
    }
    return Ok(sc);
  }

  // ---------------------------------------------------------------- round trip and truncation

  /** The block length field of the record's packet block fits 32 bits. */
  predicate Writable(r: PcapRecord) { EpbLength(r) < TWO_32 }

  predicate AllWritable(rs: seq<PcapRecord>) { forall i :: 0 <= i < |rs| ==> Writable(rs[i]) }

  /** The timestamp is a normalised one whose nanosecond count fits 64 bits. */
  predicate Representable(r: PcapRecord) {
    r.tsNanos < NANOS_PER_SEC && r.tsSecs * NANOS_PER_SEC + r.tsNanos < TWO_64
  }

  /** The record that comes back from disk: its timestamp is what the 64-bit count says. */
  function OnDisk(r: PcapRecord): PcapRecord {
    r.(tsSecs := WallNanos(r) / NANOS_PER_SEC, tsNanos := WallNanos(r) % NANOS_PER_SEC)
  }

  function AllOnDisk(rs: seq<PcapRecord>): (ds: seq<PcapRecord>)
    ensures |ds| == |rs| && forall i :: 0 <= i < |rs| ==> ds[i] == OnDisk(rs[i])
  {
    seq(|rs|, i requires 0 <= i < |rs| => OnDisk(rs[i]))
  }

  lemma OnDiskSame(r: PcapRecord)
    ensures OnDisk(r) == r <==> Representable(r)
    ensures Representable(r) ==> WallNanos(r) == r.tsSecs * NANOS_PER_SEC + r.tsNanos
  {
    if Representable(r) {
      assert WallNanos(r) == r.tsSecs * NANOS_PER_SEC + r.tsNanos;
    }
    if OnDisk(r) == r {
      var w := WallNanos(r);
      assert w == w / NANOS_PER_SEC * NANOS_PER_SEC + w % NANOS_PER_SEC;
    }
  }

  /** Where the parts of a block lie. */
  lemma BlockParts(blockType: u32, body: seq<byte>, rest: seq<byte>)
    requires |body| % 4 == 0
    ensures
      var s := Block(blockType, body) + rest;
      && s[0..4] == Le(blockType, 4) && s[4..8] == Le(12 + |body|, 4)
      && s[8..8 + |body|] == body && s[8 + |body|..12 + |body|] == Le(12 + |body|, 4)
      && s[12 + |body|..] == rest
  {
    assert Padding(|body|) == 0;
  }

  /** Reading back what `Block` wrote: the header and body are recovered and the next block starts after it. */
  lemma BlockParses(blockType: u32, body: seq<byte>, rest: seq<byte>, sc: Scan)
    requires |body| % 4 == 0 && 12 + |body| < TWO_32
    ensures Blocks(Block(blockType, body) + rest, false, sc) ==
            Resume(BlockEffect(blockType, body, false, sc), rest, false)
  {
    hide Padding;
    hide Block;
    hide Le;
    hide FromLe;
    hide BlockEffect;
    BlockParts(blockType, body, rest);
    WordsRoundTrip(blockType);
    WordsRoundTrip(12 + |body|);
  }

  /** A block cut short, or a tail shorter than a block header. */
  lemma CutBlock(blockType: u32, body: seq<byte>, n: nat, sc: Scan)
    requires |body| % 4 == 0 && 12 + |body| < TWO_32
    requires n < 12 + |body|
    ensures Blocks(Block(blockType, body)[..n], false, sc) == Ok(sc.(truncated := sc.truncated || n >= 12))
  {
    hide Le;
    hide FromLe;
    hide BlockEffect;
    var total := 12 + |body|;
    assert Padding(|body|) == 0;
    if n >= 12 {
      var whole := Block(blockType, body);
      BlockParts(blockType, body, []);
      assert whole + [] == whole && whole[..n][4..8] == whole[4..8];
      WordsRoundTrip(total);
    }
  }

  lemma NanosecondUnit()
    ensures UnitNanos(9) == 1
  {
    assert Pow10(9) == 10 * Pow10(8) == 100 * Pow10(7) == 1000 * Pow10(6);
    assert Pow10(6) == 10 * Pow10(5) == 100 * Pow10(4) == 1000 * Pow10(3);
    assert Pow10(3) == 10 * Pow10(2) == 100 * Pow10(1);
  }

  /** An option area that starts with code 9, length 1 and value 9. */
  lemma NanosecondOption(code: seq<byte>, len: seq<byte>, tail: seq<byte>)
    requires code == Le(9, 2) && len == Le(1, 2) && |tail| >= 1 && tail[0] == 9
    ensures TsResol(code + (len + tail), false) == Some(1)
  {
    hide Le;
    hide FromLe;
    hide UnitNanos;
    var opts := code + (len + tail);
    assert opts[0..2] == code && opts[2..4] == len && opts[4] == tail[0];
    WordsRoundTrip(9);
    WordsRoundTrip(1);
    NanosecondUnit();
  }

  lemma IdbOptions(linkNum: u16)
    ensures IdbBody(linkNum)[0..2] == Le(linkNum, 2)
    ensures TsResol(IdbBody(linkNum)[8..], false) == Some(1)
  {
    hide Le;
    hide TsResol;
    var head := Le(linkNum, 2) + (Le(0, 2) + Le(0, 4));
    DropAcross(head, IdbOptionArea(), 8);
    assert IdbBody(linkNum)[8..] == IdbOptionArea();
    NanosecondOption(Le(9, 2), Le(1, 2), [9, 0, 0, 0] + Le(OPT_ENDOFOPT, 2) + Le(0, 2));
  }

  lemma IdbEffect(link: LinkType, sc: Scan)
    ensures BlockEffect(BT_IDB, IdbBody(LinkTypeNum(link)), false, sc) == Go(sc.(link := Some(link), unitNanos := 1))
  {
    IdbOptions(LinkTypeNum(link));
    WordsRoundTrip(LinkTypeNum(link));
  }

  lemma EpbEffect(r: PcapRecord, sc: Scan)
    requires Writable(r) && sc.unitNanos == 1
    ensures BlockEffect(BT_EPB, EpbBody(r), false, sc) == Go(sc.(records := sc.records + [OnDisk(r)]))
  {
    hide Le;
    hide FromLe;
    hide WallNanos;
    var body := EpbBody(r);
    var w := WallNanos(r);
    assert body[4..8] == Le(w / TWO_32, 4) && body[8..12] == Le(w % TWO_32, 4);
    assert body[12..16] == Le(|r.data|, 4) && body[16..20] == Le(r.origLen, 4);
    assert body[20..20 + |r.data|] == r.data;
    WordsRoundTrip(w / TWO_32);
    WordsRoundTrip(w % TWO_32);
    WordsRoundTrip(|r.data|);
    WordsRoundTrip(r.origLen);
  }

  /** How many leading records have their whole block within the first `m` bytes. */
  function WholeCount(rs: seq<PcapRecord>, m: nat): (k: nat)
    ensures k <= |rs|
  {
    if rs == [] || EpbLength(rs[0]) > m then 0 else 1 + WholeCount(rs[1..], m - EpbLength(rs[0]))
  }

  /** `WholeCount` is the longest prefix that fits. */
  lemma {:induction false} WholeCountLongest(rs: seq<PcapRecord>, m: nat)
    ensures EpbsLength(rs[..WholeCount(rs, m)]) <= m
    ensures WholeCount(rs, m) < |rs| ==> EpbsLength(rs[..WholeCount(rs, m) + 1]) > m
  {
    hide EpbLength;
    if rs != [] {
      if EpbLength(rs[0]) > m {
        assert rs[..1][1..] == [];
      } else {
        var k := WholeCount(rs[1..], m - EpbLength(rs[0]));
        WholeCountLongest(rs[1..], m - EpbLength(rs[0]));
        assert rs[..k + 1][1..] == rs[1..][..k];
        if k + 1 < |rs| {
          assert rs[..k + 2][1..] == rs[1..][..k + 1];
        }
      }
    }
  }

  /** Bytes left over after the whole blocks among the first `m`. */
  function LeftOver(rs: seq<PcapRecord>, m: nat): nat {
    WholeCountLongest(rs, m);
    m - EpbsLength(rs[..WholeCount(rs, m)])
  }

  lemma WholeCountStep(rs: seq<PcapRecord>, m: nat)
    requires rs != [] && EpbLength(rs[0]) <= m
    ensures WholeCount(rs, m) == 1 + WholeCount(rs[1..], m - EpbLength(rs[0]))
    ensures LeftOver(rs, m) == LeftOver(rs[1..], m - EpbLength(rs[0]))
    ensures AllOnDisk(rs[..WholeCount(rs, m)]) ==
            [OnDisk(rs[0])] + AllOnDisk(rs[1..][..WholeCount(rs[1..], m - EpbLength(rs[0]))])
  {
    hide EpbLength;
    hide OnDisk;
    var k := WholeCount(rs[1..], m - EpbLength(rs[0]));
    assert rs[..k + 1][1..] == rs[1..][..k];
  }

  lemma EpbsCutShort(rs: seq<PcapRecord>, m: nat, sc: Scan)
    requires AllWritable(rs) && !sc.truncated
    requires m <= EpbsLength(rs) && (rs == [] || EpbLength(rs[0]) > m)
    ensures WholeCount(rs, m) == 0 && LeftOver(rs, m) == m
    ensures Blocks(Epbs(rs)[..m], false, sc) == Ok(sc.(truncated := m >= 12))
  {
    hide EpbBody;
    hide Padding;
    hide Block;
    hide BlockEffect;
    assert Epbs(rs[..0]) == [];
    if rs != [] {
      TakeAcross(Epb(rs[0]), Epbs(rs[1..]), m);
      CutBlock(BT_EPB, EpbBody(rs[0]), m, sc);
    }
  }

  lemma EpbsCutStep(rs: seq<PcapRecord>, m: nat, sc: Scan)
    requires AllWritable(rs) && sc.unitNanos == 1
    requires m <= EpbsLength(rs) && rs != [] && EpbLength(rs[0]) <= m
    ensures Blocks(Epbs(rs)[..m], false, sc) ==
            Blocks(Epbs(rs[1..])[..m - EpbLength(rs[0])], false, sc.(records := sc.records + [OnDisk(rs[0])]))
  {
    hide EpbBody;
    hide Padding;
    hide Block;
    hide Blocks;
    hide BlockEffect;
    hide OnDisk;
    TakeAcross(Epb(rs[0]), Epbs(rs[1..]), m);
    BlockParses(BT_EPB, EpbBody(rs[0]), Epbs(rs[1..])[..m - EpbLength(rs[0])], sc);
    EpbEffect(rs[0], sc);
  }

  lemma {:induction false} EpbsCut(rs: seq<PcapRecord>, m: nat, sc: Scan)
    requires AllWritable(rs) && sc.unitNanos == 1 && !sc.truncated
    requires m <= EpbsLength(rs)
    ensures Blocks(Epbs(rs)[..m], false, sc) ==
            Ok(sc.(records := sc.records + AllOnDisk(rs[..WholeCount(rs, m)]), truncated := LeftOver(rs, m) >= 12))
  {
    hide Epb;
    hide Blocks;
    hide OnDisk;
    hide LeftOver;
    if rs == [] || EpbLength(rs[0]) > m {
      EpbsCutShort(rs, m, sc);
      assert sc.records + AllOnDisk(rs[..0]) == sc.records;
    } else {
      var m' := m - EpbLength(rs[0]);
      var next := sc.(records := sc.records + [OnDisk(rs[0])]);
      EpbsCutStep(rs, m, sc);
      EpbsCut(rs[1..], m', next);
      WholeCountStep(rs, m);
      Regroup(sc.records, [OnDisk(rs[0])], AllOnDisk(rs[1..][..WholeCount(rs[1..], m')]));
    }
  }

  /** The first block names the file little-endian. */
  lemma LittleEndianFile(shb: seq<byte>, rest: seq<byte>)
    requires |shb| == 16 && shb[0..4] == Le(BOM, 4)
    ensures Decoding(Block(BT_SHB, shb) + rest) == Conclude(Blocks(Block(BT_SHB, shb) + rest, false, SCAN_START))
  {
    hide Block;
    hide Le;
    hide FromLe;
    hide Blocks;
    BlockParts(BT_SHB, shb, rest);
    var s := Block(BT_SHB, shb) + rest;
    assert s[8..12] == s[8..24][0..4];
    WordsRoundTrip(BT_SHB);
    WordsRoundTrip(BOM);
  }

  lemma CutShb(shb: seq<byte>, n: nat)
    requires |shb| == 16 && shb[0..4] == Le(BOM, 4) && n < 28
    ensures Decoding(Block(BT_SHB, shb)[..n]).Err?
  {
    if n >= 24 {
      var whole := Block(BT_SHB, shb);
      assert whole[0..4] == Le(BT_SHB, 4) && whole[8..12] == Le(BOM, 4);
      assert whole[..n][0..4] == whole[0..4] && whole[..n][8..12] == whole[8..12];
      WordsRoundTrip(BT_SHB);
      WordsRoundTrip(BOM);
      CutBlock(BT_SHB, shb, n, SCAN_START);
    }
  }

  lemma CutIdb(shb: seq<byte>, idb: seq<byte>, n: nat)
    requires |shb| == 16 && shb[0..4] == Le(BOM, 4) && |idb| == 20 && n < 32
    ensures Decoding(Block(BT_SHB, shb) + Block(BT_IDB, idb)[..n]).Err?
  {
    hide Block;
    hide Decoding;
    LittleEndianFile(shb, Block(BT_IDB, idb)[..n]);
    BlockParses(BT_SHB, shb, Block(BT_IDB, idb)[..n], SCAN_START);
    CutBlock(BT_IDB, idb, n, SCAN_START);
  }

  /** A cut inside the two header blocks leaves no interface. */
  lemma PreambleCut(shb: seq<byte>, idb: seq<byte>, n: nat)
    requires |shb| == 16 && shb[0..4] == Le(BOM, 4) && |idb| == 20 && n < 60
    ensures Decoding(Headers(shb, idb)[..n]).Err?
  {
    hide Block;
    hide Decoding;
    TakeAcross(Block(BT_SHB, shb), Block(BT_IDB, idb), n);
    if n < 28 {
      CutShb(shb, n);
    } else {
      CutIdb(shb, idb, n - 28);
    }
  }

  lemma PreambleWhole(shb: seq<byte>, idb: seq<byte>, rest: seq<byte>)
    requires |shb| == 16 && shb[0..4] == Le(BOM, 4) && |idb| == 20
    ensures Decoding(Headers(shb, idb) + rest) ==
            Conclude(Resume(BlockEffect(BT_IDB, idb, false, SCAN_START), rest, false))
  {
    hide Block;
    hide Decoding;
    Regroup(Block(BT_SHB, shb), Block(BT_IDB, idb), rest);
    LittleEndianFile(shb, Block(BT_IDB, idb) + rest);
    BlockParses(BT_SHB, shb, Block(BT_IDB, idb) + rest, SCAN_START);
    BlockParses(BT_IDB, idb, rest, SCAN_START);
  }

  lemma CutBehindHeaders(shb: seq<byte>, idb: seq<byte>, link: LinkType, rs: seq<PcapRecord>, m: nat)
    requires |shb| == 16 && shb[0..4] == Le(BOM, 4) && |idb| == 20
    requires BlockEffect(BT_IDB, idb, false, SCAN_START) == Go(SCAN_START.(link := Some(link), unitNanos := 1))
    requires AllWritable(rs) && m <= EpbsLength(rs)
    ensures Decoding(Headers(shb, idb) + Epbs(rs)[..m]) ==
            Ok(PcapngFile(link, AllOnDisk(rs[..WholeCount(rs, m)]), LeftOver(rs, m) >= 12))
  {
    hide Headers;
    hide Decoding;
    hide Epbs;
    hide BlockEffect;
    hide WholeCount;
    hide Blocks;
    PreambleWhole(shb, idb, Epbs(rs)[..m]);
    EpbsCut(rs, m, SCAN_START.(link := Some(link), unitNanos := 1));
    var kept := AllOnDisk(rs[..WholeCount(rs, m)]);
    assert [] + kept == kept;
  }

  lemma CutAfterHeaders(shb: seq<byte>, idb: seq<byte>, link: LinkType, rs: seq<PcapRecord>, n: nat)
    requires |shb| == 16 && shb[0..4] == Le(BOM, 4) && |idb| == 20
    requires BlockEffect(BT_IDB, idb, false, SCAN_START) == Go(SCAN_START.(link := Some(link), unitNanos := 1))
    requires AllWritable(rs) && n <= 60 + EpbsLength(rs)
    ensures |Headers(shb, idb)| == 60
    ensures n < 60 ==> Decoding((Headers(shb, idb) + Epbs(rs))[..n]).Err?
    ensures n >= 60 ==>
      Decoding((Headers(shb, idb) + Epbs(rs))[..n]) ==
      Ok(PcapngFile(link, AllOnDisk(rs[..WholeCount(rs, n - 60)]), LeftOver(rs, n - 60) >= 12))
  {
    hide Block;
    hide Decoding;
    hide Epbs;
    hide BlockEffect;
    hide WholeCount;
    TakeAcross(Headers(shb, idb), Epbs(rs), n);
    if n < 60 {
      PreambleCut(shb, idb, n);
    } else {
      CutBehindHeaders(shb, idb, link, rs, n - 60);
    }
  }

  lemma ShbMagic()
    ensures ShbBody()[0..4] == Le(BOM, 4)
  {
    hide Le;
  }

  /** Reading any cut of a written file: an error until both header blocks are whole, then the longest whole prefix. */
  lemma CutFile(link: LinkType, rs: seq<PcapRecord>, n: nat)
    requires AllWritable(rs)
    requires n <= 60 + EpbsLength(rs)
    ensures n < 60 ==> Decoding(Encoding(link, rs)[..n]).Err?
    ensures n >= 60 ==>
      Decoding(Encoding(link, rs)[..n]) ==
      Ok(PcapngFile(link, AllOnDisk(rs[..WholeCount(rs, n - 60)]), LeftOver(rs, n - 60) >= 12))
  {
    hide EpbBody;
    hide AllOnDisk;
    hide LeftOver;
    hide BlockEffect;
    hide Epbs;
    hide Decoding;
    hide Block;
    hide WholeCount;
    hide Headers;
    hide ShbBody;
    hide IdbBody;
    hide AllWritable;
    IdbEffect(link, SCAN_START);
    ShbMagic();
    CutAfterHeaders(ShbBody(), IdbBody(LinkTypeNum(link)), link, rs, n);
  }

  lemma {:induction false} WholeCountAll(rs: seq<PcapRecord>)
    ensures WholeCount(rs, EpbsLength(rs)) == |rs| && LeftOver(rs, EpbsLength(rs)) == 0
  {
    if rs != [] {
      WholeCountAll(rs[1..]);
    }
    assert rs[..|rs|] == rs;
  }

  /** What the whole file reads back as. */
  lemma WholeFile(link: LinkType, rs: seq<PcapRecord>)
    requires AllWritable(rs)
    ensures Decoding(Encoding(link, rs)) == Ok(PcapngFile(link, AllOnDisk(rs), false))
  {
    var s := Encoding(link, rs);
    assert s[..|s|] == s;
    CutFile(link, rs, |s|);
    WholeCountAll(rs);
    assert rs[..|rs|] == rs;
  }

  /** The file reads back exactly, untruncated, precisely when every timestamp is representable. */
  lemma RoundTrip(link: LinkType, rs: seq<PcapRecord>)
    requires AllWritable(rs)
    ensures Decoding(Encoding(link, rs)) == Ok(PcapngFile(link, rs, false)) <==>
            forall i :: 0 <= i < |rs| ==> Representable(rs[i])
  {
    WholeFile(link, rs);
    forall i | 0 <= i < |rs|
      ensures AllOnDisk(rs)[i] == rs[i] <==> Representable(rs[i])
    {
      OnDiskSame(rs[i]);
    }
    if forall i :: 0 <= i < |rs| ==> Representable(rs[i]) {
      assert AllOnDisk(rs) == rs;
    }
  }
}
