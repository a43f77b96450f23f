/** The framed transport between the capture daemon and its client: header and batch codecs. */
module Transport {
  import opened Wrappers
  import opened Bytes

  const MAGIC_BYTES: seq<byte> := [0x4E, 0x50, 0x46, 0x4C]
  const CURRENT_VERSION: byte := 1
  const FLAG_STATS_PRESENT: byte := 1
  const MAX_PAYLOAD_LEN: u32 := 10 * 1024 * 1024

  datatype TransportError =
    | InvalidMagic
    | FutureVersion(version: byte)
    | ReservedNotZero
    | UnknownFlags(flags: byte)
    | PayloadTooLarge
    | BatchHeaderTooShort
    | StatsTooShort
    | StatsReservedNotZero
    | FrameMetadataTruncated
    | CapturedExceedsWire
    | PacketDataTruncated

  // ---------------------------------------------------------------- the 12-byte header

  datatype FrameHeader = FrameHeader(magic: seq<byte>, version: byte, flags: byte, reserved: u16, payloadLen: u32)

  function NewHeader(flags: byte, payloadLen: u32): FrameHeader {
    FrameHeader(MAGIC_BYTES, CURRENT_VERSION, flags, 0, payloadLen)
  }

  function HeaderBytes(h: FrameHeader): (s: seq<byte>)
    requires |h.magic| == 4
    ensures |s| == 12
  {
    h.magic + [h.version] + [h.flags] + Le(h.reserved, 2) + Le(h.payloadLen, 4)
  }

  /** The first complaint about a header, if any; every bit of `flags` but the lowest is unknown. */
  function Complaint(h: FrameHeader): Option<TransportError> {
    if h.magic != MAGIC_BYTES then Some(InvalidMagic)
    else if h.version > CURRENT_VERSION then Some(FutureVersion(h.version))
    else if h.reserved != 0 then Some(ReservedNotZero)
    else if h.flags / 2 != 0 then Some(UnknownFlags(h.flags))
    else if h.payloadLen > MAX_PAYLOAD_LEN then Some(PayloadTooLarge)
    else None
  }

  function ParseHeader(buf: seq<byte>): (r: Result<FrameHeader, TransportError>)
    requires |buf| == 12
    ensures r.Ok? ==> r.value.payloadLen <= MAX_PAYLOAD_LEN && r.value.flags <= 1
  {
    var h := FrameHeader(buf[0..4], buf[4], buf[5], Word16(buf[6..8], false), Word32(buf[8..12], false));
    match Complaint(h)
    case Some(e) => Err(e)
    case None => Ok(h)
  }

  /** A header is accepted from exactly the bytes it writes, and exactly when nothing is wrong with it. */
  lemma HeaderCodec(buf: seq<byte>, h: FrameHeader)
    requires |buf| == 12
    ensures ParseHeader(buf) == Ok(h) <==> |h.magic| == 4 && Complaint(h) == None && HeaderBytes(h) == buf
  {
    hide Le;
    hide FromLe;
    if ParseHeader(buf) == Ok(h) {
      LeOfFromLe(buf[6..8]);
      LeOfFromLe(buf[8..12]);
      assert HeaderBytes(h) == buf;
    }
    if |h.magic| == 4 && HeaderBytes(h) == buf {
      WordsRoundTrip(h.reserved);
      WordsRoundTrip(h.payloadLen);
      assert buf[0..4] == h.magic && buf[6..8] == Le(h.reserved, 2) && buf[8..12] == Le(h.payloadLen, 4);
    }
  }

  /** The bytes of any header are read as that header, with whatever complaint there is about it. */
  lemma HeaderForward(h: FrameHeader)
    requires |h.magic| == 4
    ensures ParseHeader(HeaderBytes(h)) == match Complaint(h) case Some(e) => Err(e) case None => Ok(h)
  {
    hide Le;
    hide FromLe;
    var buf := HeaderBytes(h);
    WordsRoundTrip(h.reserved);
    WordsRoundTrip(h.payloadLen);
    assert buf[0..4] == h.magic && buf[6..8] == Le(h.reserved, 2) && buf[8..12] == Le(h.payloadLen, 4);
  }

  /** A new header, byte by byte. */
  lemma HeaderLayout(flags: byte, payloadLen: u32)
    ensures HeaderBytes(NewHeader(flags, payloadLen)) ==
            [0x4E, 0x50, 0x46, 0x4C] + [1] + [flags] + [0, 0] + Le(payloadLen, 4)
  {
    assert Le(0, 2) == [0] + Le(0, 1) && Le(0, 1) == [0] + Le(0, 0);
  }

  /** The checks of a header in their order, and what is read of one that passes them. */
  lemma HeaderChecks(buf: seq<byte>)
    requires |buf| == 12
    ensures
      var reserved, length := Word16(buf[6..8], false), Word32(buf[8..12], false);
      ParseHeader(buf) ==
      if buf[0..4] != [0x4E, 0x50, 0x46, 0x4C] then Err(InvalidMagic)
      else if buf[4] > 1 then Err(FutureVersion(buf[4]))
      else if reserved != 0 then Err(ReservedNotZero)
      else if buf[5] > 1 then Err(UnknownFlags(buf[5]))
      else if length > 10_485_760 then Err(PayloadTooLarge)
      else Ok(FrameHeader([0x4E, 0x50, 0x46, 0x4C], buf[4], buf[5], 0, length))
  {
  }

  // ---------------------------------------------------------------- statistics

  datatype TransportStats = TransportStats(droppedFrames: u64, queueDepth: u32, reserved: u32)

  function StatsBytes(st: TransportStats): (s: seq<byte>)
    ensures |s| == 16
  {
    Le(st.droppedFrames, 8) + Le(st.queueDepth, 4) + Le(st.reserved, 4)
  }

  function ParseStats(buf: seq<byte>): Result<TransportStats, TransportError>
    requires |buf| == 16
  {
    if Word32(buf[12..16], false) != 0 then Err(StatsReservedNotZero)
    else Ok(TransportStats(Word64(buf[0..8]), Word32(buf[8..12], false), 0))
  }

  lemma StatsCodec(buf: seq<byte>, st: TransportStats)
    requires |buf| == 16
    ensures ParseStats(buf) == Ok(st) <==> st.reserved == 0 && StatsBytes(st) == buf
    ensures StatsBytes(st) == buf && st.reserved != 0 ==> ParseStats(buf).Err?
  {
    hide Le;
    hide FromLe;
    if ParseStats(buf) == Ok(st) {
      LeOfFromLe(buf[0..8]);
      LeOfFromLe(buf[8..12]);
      LeOfFromLe(buf[12..16]);
      assert StatsBytes(st) == buf;
    }
    if StatsBytes(st) == buf {
      WordsRoundTrip(st.droppedFrames);
      WordsRoundTrip(st.queueDepth);
      WordsRoundTrip(st.reserved);
      assert buf[0..8] == Le(st.droppedFrames, 8) && buf[8..12] == Le(st.queueDepth, 4) &&
             buf[12..16] == Le(st.reserved, 4);
    }
  }

  /** Where the parts of the statistics lie. */
  lemma StatsLayout(st: TransportStats)
    ensures
      var s := StatsBytes(st);
      s[0..8] == Le(st.droppedFrames, 8) && s[8..12] == Le(st.queueDepth, 4) && s[12..16] == Le(st.reserved, 4)
  {
    hide Le;
  }

  // ---------------------------------------------------------------- frames

  datatype BinaryFrame = BinaryFrame(
    frameSeqNum: u64, monoNanos: u64, ifaceId: u32, wireLen: u32, caplen: u32, pktData: seq<byte>)

  datatype BinaryFrameBatch = BinaryFrameBatch(
    batchSeqNum: u64, stats: Option<TransportStats>, frames: seq<BinaryFrame>)

  function FrameMeta(f: BinaryFrame): (s: seq<byte>)
    ensures |s| == 28
  {
    Le(f.frameSeqNum, 8) + Le(f.monoNanos, 8) + Le(f.ifaceId, 4) + Le(f.wireLen, 4) + Le(|f.pktData|, 4)
  }

  function FrameBytes(f: BinaryFrame): (s: seq<byte>)
    ensures |s| == 28 + |f.pktData|
  {
    FrameMeta(f) + f.pktData
  }

  function FramesBytes(fs: seq<BinaryFrame>): seq<byte> {
    if fs == [] then [] else FrameBytes(fs[0]) + FramesBytes(fs[1..])
  }

  function BatchHead(b: BinaryFrameBatch): (s: seq<byte>)
    ensures |s| == 12 + (if b.stats.Some? then 16 else 0)
  {
    Le(b.batchSeqNum, 8) + Le(|b.frames|, 4) +
    (match b.stats case Some(st) => StatsBytes(st) case None => [])
  }

  function Payload(b: BinaryFrameBatch): (s: seq<byte>) { BatchHead(b) + FramesBytes(b.frames) }

  lemma FramesFrom(prefix: seq<byte>, fs: seq<BinaryFrame>, i: nat)
    requires i < |fs|
    ensures prefix + FramesBytes(fs[i..]) == prefix + FrameBytes(fs[i]) + FramesBytes(fs[i + 1..])
  {
    hide FrameBytes;
    assert fs[i..][1..] == fs[i + 1..];
    Regroup(prefix, FrameBytes(fs[i]), FramesBytes(fs[i + 1..]));
  }

  method PushFrame(prefix: seq<byte>, f: BinaryFrame) returns (buf: seq<byte>)
    ensures buf == prefix + FrameBytes(f)
  {
    hide Le;
    buf := prefix + Le(f.frameSeqNum, 8);
    buf := buf + Le(f.monoNanos, 8);
    buf := buf + Le(f.ifaceId, 4);
    buf := buf + Le(f.wireLen, 4);
    buf := buf + Le(|f.pktData|, 4);
    buf := buf + f.pktData;
    assert buf == prefix + FrameBytes(f);
  }

  method EncodePayload(b: BinaryFrameBatch) returns (buf: seq<byte>)
    ensures buf == Payload(b)
  {
    buf := Le(b.batchSeqNum, 8);
    buf := buf + Le(|b.frames|, 4);
    if b.stats.Some? {
      buf := buf + StatsBytes(b.stats.value);
    }
    assert buf == BatchHead(b);
    assert b.frames[0..] == b.frames;
    for i := 0 to |b.frames|
      invariant buf + FramesBytes(b.frames[i..]) == Payload(b)
    {
      FramesFrom(buf, b.frames, i);
      buf := PushFrame(buf, b.frames[i]);
    }
    assert b.frames[|b.frames|..] == [];
  }

  /** The frame at the front of `rest`, if it is whole and not longer than its wire length. */
  function ParseFrame(rest: seq<byte>): (r: Result<BinaryFrame, TransportError>)
    ensures r.Ok? ==> 28 + |r.value.pktData| <= |rest| && r.value.caplen == |r.value.pktData| <= r.value.wireLen
  {
    if |rest| < 28 then Err(FrameMetadataTruncated)
    else
      var wireLen := Word32(rest[20..24], false);
      var caplen := Word32(rest[24..28], false);
      if caplen > wireLen then Err(CapturedExceedsWire)
      else if |rest| < 28 + caplen then Err(PacketDataTruncated)
      else Ok(BinaryFrame(Word64(rest[0..8]), Word64(rest[8..16]), Word32(rest[16..20], false), wireLen, caplen,
        rest[28..28 + caplen]))
  }

  function ParseFrames(rest: seq<byte>, n: nat): Result<seq<BinaryFrame>, TransportError> {
    if n == 0 then Ok([])
    else
      match ParseFrame(rest)
      case Err(e) => Err(e)
      case Ok(f) =>
        match ParseFrames(rest[28 + |f.pktData|..], n - 1)
        case Err(e) => Err(e)
        case Ok(fs) => Ok([f] + fs)
  }

  /** The decoded view: `frame_count` is the number of frames it lists. */
  function ParsePayload(buf: seq<byte>, statsPresent: bool): Result<BinaryFrameBatch, TransportError> {
    if |buf| < 12 then Err(BatchHeaderTooShort)
    else if statsPresent && |buf| < 28 then Err(StatsTooShort)
    else if statsPresent && ParseStats(buf[12..28]).Err? then Err(ParseStats(buf[12..28]).error)
    else
      var stats := if statsPresent then Some(ParseStats(buf[12..28]).value) else None;
      match ParseFrames(buf[if statsPresent then 28 else 12..], Word32(buf[8..12], false))
      case Err(e) => Err(e)
      case Ok(fs) => Ok(BinaryFrameBatch(Word64(buf[0..8]), stats, fs))
  }

  /** The decoder's frame loop over an offset. */
  method DecodeFrames(buf: seq<byte>, start: nat, frameCount: u32) returns (r: Result<seq<BinaryFrame>, TransportError>)
    requires start <= |buf|
    ensures r == ParseFrames(buf[start..], frameCount)
  {
    hide ParseFrames;
    hide Prepend;
    hide Word32;
    hide Word64;
    var offset := start;
    var frames: seq<BinaryFrame> := [];
    PrependNone(ParseFrames(buf[start..], frameCount));
    for i := 0 to frameCount
      invariant start <= offset <= |buf|
      invariant ParseFrames(buf[start..], frameCount) == Prepend(frames, ParseFrames(buf[offset..], frameCount - i))
    {
      FramesStep(buf, offset, frameCount - i, frames);
      if |buf| < offset + 28 {
        return Err(FrameMetadataTruncated);
      }
      var frameSeqNum := Word64(buf[offset..offset + 8]);
      var monoNanos := Word64(buf[offset + 8..offset + 16]);
      var ifaceId := Word32(buf[offset + 16..offset + 20], false);
      var wireLen := Word32(buf[offset + 20..offset + 24], false);
      var caplen := Word32(buf[offset + 24..offset + 28], false);
      offset := offset + 28;
      if caplen > wireLen {
        return Err(CapturedExceedsWire);
      }
      if |buf| < offset + caplen {
        return Err(PacketDataTruncated);
      }
      var pktData := buf[offset..offset + caplen];
      offset := offset + caplen;
      frames := frames + [BinaryFrame(frameSeqNum, monoNanos, ifaceId, wireLen, caplen, pktData)];
    }
    FramesEnd(buf[offset..], frames);
    return Ok(frames);
  }

  /** What one turn of the frame loop does to what is still to be parsed. */
  lemma FramesStep(buf: seq<byte>, offset: nat, n: nat, frames: seq<BinaryFrame>)
    requires offset <= |buf| && n > 0
    ensures
      var done := Prepend(frames, ParseFrames(buf[offset..], n));
      if |buf| < offset + 28 then done == Err(FrameMetadataTruncated)
      else
        var wireLen, caplen :=
          Word32(buf[offset + 20..offset + 24], false), Word32(buf[offset + 24..offset + 28], false);
        if caplen > wireLen then done == Err(CapturedExceedsWire)
        else if |buf| < offset + 28 + caplen then done == Err(PacketDataTruncated)
        else
          var f := FrameAt(buf, offset, wireLen, caplen);
          done == Prepend(frames + [f], ParseFrames(buf[offset + 28 + caplen..], n - 1))
  {
    hide Word32;
    hide Word64;
    var rest := buf[offset..];
    if |rest| >= 28 {
      MetaSlices(buf, offset);
      var caplen: nat := Word32(rest[24..28], false);
      if |rest| >= 28 + caplen && ParseFrame(rest).Ok? {
        assert rest[28..28 + caplen] == buf[offset + 28..offset + 28 + caplen];
        assert rest[28 + caplen..] == buf[offset + 28 + caplen..];
        PrependStep(frames, ParseFrame(rest).value, ParseFrames(rest[28 + caplen..], n - 1));
      }
    }
  }

  function FrameAt(buf: seq<byte>, offset: nat, wireLen: u32, caplen: u32): BinaryFrame
    requires offset + 28 + caplen <= |buf|
  {
    BinaryFrame(Word64(buf[offset..offset + 8]), Word64(buf[offset + 8..offset + 16]),
      Word32(buf[offset + 16..offset + 20], false),
                wireLen, caplen, buf[offset + 28..offset + 28 + caplen])
  }

  lemma FramesEnd(rest: seq<byte>, frames: seq<BinaryFrame>)
    ensures Prepend(frames, ParseFrames(rest, 0)) == Ok(frames)
  {
    assert frames + [] == frames;
  }

  lemma PrependNone(r: Result<seq<BinaryFrame>, TransportError>)
    ensures Prepend([], r) == r
  {
    if r.Ok? {
      assert [] + r.value == r.value;
    }
  }

  function Prepend(fs: seq<BinaryFrame>, r: Result<seq<BinaryFrame>, TransportError>)
    : Result<seq<BinaryFrame>, TransportError>
  {
    match r
    case Err(e) => Err(e)
    case Ok(gs) => Ok(fs + gs)
  }

  lemma PrependStep(fs: seq<BinaryFrame>, f: BinaryFrame, r: Result<seq<BinaryFrame>, TransportError>)
    ensures Prepend(fs, Prepend([f], r)) == Prepend(fs + [f], r)
  {
    if r.Ok? {
      Regroup(fs, [f], r.value);
    }
  }

  lemma MetaSlices(buf: seq<byte>, offset: nat)
    requires offset + 28 <= |buf|
    ensures
      var rest := buf[offset..];
      && rest[0..8] == buf[offset..offset + 8] && rest[8..16] == buf[offset + 8..offset + 16]
      && rest[16..20] == buf[offset + 16..offset + 20] && rest[20..24] == buf[offset + 20..offset + 24]
      && rest[24..28] == buf[offset + 24..offset + 28]
  {
  }

  method DecodeBatchView(buf: seq<byte>, statsPresent: bool) returns (r: Result<BinaryFrameBatch, TransportError>)
    ensures r == ParsePayload(buf, statsPresent)
  {
    if |buf| < 12 {
      return Err(BatchHeaderTooShort);
    }
    var batchSeqNum := Word64(buf[0..8]);
    var frameCount := Word32(buf[8..12], false);
    var offset := 12;
    var stats: Option<TransportStats> := None;
    if statsPresent {
      if |buf| < offset + 16 {
        return Err(StatsTooShort);
      }
      var parsed := ParseStats(buf[offset..offset + 16]);
      if parsed.Err? {
        return Err(parsed.error);
      }
      offset := offset + 16;
      stats := Some(parsed.value);
    }
    var frames := DecodeFrames(buf, offset, frameCount);
    if frames.Err? {
      return Err(frames.error);
    }
    return Ok(BinaryFrameBatch(batchSeqNum, stats, frames.value));
  }

  /** What is refused before any frame is looked at. */
  lemma PayloadChecks(buf: seq<byte>, statsPresent: bool)
    ensures |buf| < 12 ==> ParsePayload(buf, statsPresent) == Err(BatchHeaderTooShort)
    ensures statsPresent && 12 <= |buf| < 28 ==> ParsePayload(buf, statsPresent) == Err(StatsTooShort)
    ensures statsPresent && |buf| >= 28 && Word32(buf[24..28], false) != 0 ==>
              ParsePayload(buf, statsPresent) == Err(StatsReservedNotZero)
  {
    if statsPresent && |buf| >= 28 {
      assert buf[12..28][12..16] == buf[24..28];
    }
    hide ParseFrames;
  }

  // ---------------------------------------------------------------- both directions

  /** A frame that decodes to itself. */
  predicate FrameOk(f: BinaryFrame) { f.caplen == |f.pktData| <= f.wireLen }

  predicate FramesOk(fs: seq<BinaryFrame>) { forall i :: 0 <= i < |fs| ==> FrameOk(fs[i]) }

  /** The frame data fits its 32-bit length field. */
  predicate Sized(fs: seq<BinaryFrame>) { forall i :: 0 <= i < |fs| ==> |fs[i].pktData| < TWO_32 }

  lemma FrameSlices(f: BinaryFrame, tail: seq<byte>)
    ensures
      var s := FrameBytes(f) + tail;
      && s[0..8] == Le(f.frameSeqNum, 8) && s[8..16] == Le(f.monoNanos, 8) && s[16..20] == Le(f.ifaceId, 4)
      && s[20..24] == Le(f.wireLen, 4) && s[24..28] == Le(|f.pktData|, 4)
      && s[28..28 + |f.pktData|] == f.pktData && s[28 + |f.pktData|..] == tail
  {
    hide Le;
    MetaParts(Le(f.frameSeqNum, 8), Le(f.monoNanos, 8), Le(f.ifaceId, 4), Le(f.wireLen, 4), Le(|f.pktData|, 4),
      f.pktData + tail);
    Regroup(FrameMeta(f), f.pktData, tail);
    assert (f.pktData + tail)[..|f.pktData|] == f.pktData;
  }

  lemma MetaParts(a: seq<byte>, b: seq<byte>, c: seq<byte>, d: seq<byte>, e: seq<byte>, tail: seq<byte>)
    requires |a| == 8 && |b| == 8 && |c| == 4 && |d| == 4 && |e| == 4
    ensures
      var s := a + b + c + d + e + tail;
      && s[0..8] == a && s[8..16] == b && s[16..20] == c && s[20..24] == d && s[24..28] == e && s[28..] == tail
      && forall n :: 0 <= n <= |tail| ==> s[28..28 + n] == tail[..n] && s[28 + n..] == tail[n..]
  {
  }

  lemma MetaGlue(s: seq<byte>)
    requires |s| >= 28
    ensures s[0..8] + s[8..16] + s[16..20] + s[20..24] + s[24..28] == s[..28]
  {
  }

  lemma FrameForward(f: BinaryFrame, tail: seq<byte>)
    requires |f.pktData| < TWO_32
    ensures ParseFrame(FrameBytes(f) + tail) ==
            if |f.pktData| <= f.wireLen then Ok(f.(caplen := |f.pktData|)) else Err(CapturedExceedsWire)
  {
    hide FrameBytes;
    hide Le;
    hide FromLe;
    FrameSlices(f, tail);
    WordsRoundTrip(f.frameSeqNum);
    WordsRoundTrip(f.monoNanos);
    WordsRoundTrip(f.ifaceId);
    WordsRoundTrip(f.wireLen);
    WordsRoundTrip(|f.pktData|);
  }

  lemma {:induction false} FramesForward(fs: seq<BinaryFrame>, tail: seq<byte>)
    requires Sized(fs)
    ensures ParseFrames(FramesBytes(fs) + tail, |fs|) == Ok(fs) <==> FramesOk(fs)
  {
    hide FrameBytes;
    hide ParseFrame;
    if fs != [] {
      var rest := FramesBytes(fs[1..]) + tail;
      Regroup(FrameBytes(fs[0]), FramesBytes(fs[1..]), tail);
      FrameForward(fs[0], rest);
      FrameSlices(fs[0], rest);
      FramesForward(fs[1..], tail);
      assert fs == [fs[0]] + fs[1..];
      assert FramesOk(fs) <==> FrameOk(fs[0]) && FramesOk(fs[1..]);
    }
  }

  lemma FrameBackward(rest: seq<byte>)
    requires ParseFrame(rest).Ok?
    ensures FrameBytes(ParseFrame(rest).value) == rest[..28 + |ParseFrame(rest).value.pktData|]
  {
    LeOfFromLe(rest[0..8]);
    LeOfFromLe(rest[8..16]);
    LeOfFromLe(rest[16..20]);
    LeOfFromLe(rest[20..24]);
    LeOfFromLe(rest[24..28]);
    hide Le;
    hide FromLe;
    var f := ParseFrame(rest).value;
    MetaGlue(rest);
    assert FrameMeta(f) == rest[..28];
    assert rest[..28] + rest[28..28 + |f.pktData|] == rest[..28 + |f.pktData|];
  }

  lemma {:induction false} FramesBackward(rest: seq<byte>, n: nat)
    requires ParseFrames(rest, n).Ok?
    ensures |ParseFrames(rest, n).value| == n && FramesOk(ParseFrames(rest, n).value)
    ensures FramesBytes(ParseFrames(rest, n).value) <= rest
  {
    hide FrameBytes;
    hide ParseFrame;
    if n > 0 {
      var f := ParseFrame(rest).value;
      FrameBackward(rest);
      var tail := rest[28 + |f.pktData|..];
      FramesBackward(tail, n - 1);
      var fs := ParseFrames(tail, n - 1).value;
      assert ([f] + fs)[1..] == fs;
      assert rest == rest[..28 + |f.pktData|] + tail;
    }
  }

  predicate StatsOk(b: BinaryFrameBatch) { b.stats.Some? ==> b.stats.value.reserved == 0 }

  lemma HeadSlices(b: BinaryFrameBatch, tail: seq<byte>)
    ensures
      var s := BatchHead(b) + tail;
      && s[0..8] == Le(b.batchSeqNum, 8) && s[8..12] == Le(|b.frames|, 4)
      && (b.stats.Some? ==> s[12..28] == StatsBytes(b.stats.value) && s[28..] == tail)
      && (b.stats.None? ==> s[12..] == tail)
  {
    hide StatsBytes;
  }

  /** Decoding an encoded batch, followed by anything, gives it back exactly when it is well formed. */
  lemma PayloadForward(b: BinaryFrameBatch, tail: seq<byte>)
    requires |b.frames| < TWO_32 && Sized(b.frames)
    ensures ParsePayload(Payload(b) + tail, b.stats.Some?) == Ok(b) <==> StatsOk(b) && FramesOk(b.frames)
  {
    hide BatchHead;
    hide FramesBytes;
    hide ParseFrames;
    hide ParseStats;
    hide Le;
    hide FromLe;
    var buf := Payload(b) + tail;
    Regroup(BatchHead(b), FramesBytes(b.frames), tail);
    HeadSlices(b, FramesBytes(b.frames) + tail);
    WordsRoundTrip(b.batchSeqNum);
    WordsRoundTrip(|b.frames|);
    FramesForward(b.frames, tail);
    if b.stats.Some? {
      StatsCodec(buf[12..28], b.stats.value);
    }
  }

  /**
   * A payload that announces more frames than its bytes can hold, at 28 a frame, is refused: what is accepted covers
   * the room reserved for it. The refusal comes after that room has been reserved.
   */
  lemma CountIsCovered(buf: seq<byte>, statsPresent: bool)
    requires |buf| >= (if statsPresent then 28 else 12)
    ensures
      var at := if statsPresent then 28 else 12;
      var count := Word32(buf[8..12], false);
      28 * count > |buf| - at ==> ParsePayload(buf, statsPresent).Err?
  {
    hide ParseFrames;
    hide ParseStats;
    hide Le;
    hide FromLe;
    var at := if statsPresent then 28 else 12;
    var count := Word32(buf[8..12], false);
    if ParsePayload(buf, statsPresent).Ok? {
      FramesNeed(buf[at..], count);
    }
  }

  lemma {:induction false} FramesNeed(rest: seq<byte>, n: nat)
    requires ParseFrames(rest, n).Ok?
    ensures 28 * n <= |rest|
  {
    hide ParseFrame;
    if n > 0 {
      FramesNeed(rest[28 + |ParseFrame(rest).value.pktData|..], n - 1);
    }
  }

  /** Whatever the decoder accepts, re-encoding the result reproduces the bytes it read. */
  lemma PayloadBackward(buf: seq<byte>, statsPresent: bool)
    requires ParsePayload(buf, statsPresent).Ok?
    ensures
      var b := ParsePayload(buf, statsPresent).value;
      && Payload(b) <= buf && b.stats.Some? == statsPresent && StatsOk(b) && FramesOk(b.frames)
  {
    hide FramesBytes;
    hide ParseFrames;
    hide ParseStats;
    hide StatsBytes;
    hide Le;
    hide FromLe;
    var b := ParsePayload(buf, statsPresent).value;
    var at := if statsPresent then 28 else 12;
    FramesBackward(buf[at..], Word32(buf[8..12], false));
    LeOfFromLe(buf[0..8]);
    LeOfFromLe(buf[8..12]);
    if statsPresent {
      StatsCodec(buf[12..28], b.stats.value);
      assert buf[..28] == buf[0..8] + buf[8..12] + buf[12..28];
    } else {
      assert buf[..12] == buf[0..8] + buf[8..12] + [];
    }
    assert BatchHead(b) == buf[..at];
    assert buf == buf[..at] + buf[at..];
  }
}
