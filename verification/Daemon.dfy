/** The capture daemon: the worker that numbers and batches frames, and the writer that frames them. */
module Daemon {
  import opened Wrappers
  import opened Bytes
  import opened FileSource
  import opened Transport
  import opened Client
  import opened Shed

  const ETH_IPV4_TCP_HEADERS: nat := 54

  /** One nonfailing pull from the capture device: its frames and the kernel's drop count at that moment. */
  datatype RawBatch = RawBatch(frames: seq<RawFrame>, kernelDrops: u64)

  // ---------------------------------------------------------------- shedding

  function Truncated(f: RawFrame): RawFrame {
    f.(bytes := if |f.bytes| > ETH_IPV4_TCP_HEADERS then f.bytes[..ETH_IPV4_TCP_HEADERS] else f.bytes)
  }

  /** The sampling counter after one frame: only the sampling stage moves it. */
  function CounterAfter(stage: ShedStage, counter: u64): u64 {
    if stage == SampleDissection then (counter + 1) % TWO_64 else counter
  }

  /** What is left of one frame at a stage. */
  function ThinOne(stage: ShedStage, counter: u64, f: RawFrame): Option<RawFrame> {
    if stage == SampleDissection && CounterAfter(stage, counter) % 2 != 0 then None
    else Some(if Level(stage) >= Level(PayloadsOff) then Truncated(f) else f)
  }

  function Listed(o: Option<RawFrame>): (fs: seq<RawFrame>) { if o.Some? then [o.value] else [] }

  /** The frames that survive a stage; `counter` is the sampling counter before the first of them. */
  function Thin(stage: ShedStage, counter: u64, fs: seq<RawFrame>): (kept: seq<RawFrame>)
    ensures |kept| <= |fs|
    decreases |fs|
  {
    if fs == [] then []
    else Listed(ThinOne(stage, counter, fs[0])) + Thin(stage, CounterAfter(stage, counter), fs[1..])
  }

  /**
   * What each stage leaves of a frame: all of it at full fidelity, from the next stage on its first 54 bytes, and at
   * the sampling stage those of every frame that brings the counter to an even number.
   */
  lemma ThinOneIs(stage: ShedStage, counter: u64, f: RawFrame)
    ensures
      var cut := f.(bytes := f.bytes[..Min(|f.bytes|, 54)]);
      && ThinOne(Full, counter, f) == Some(f)
      && ThinOne(PayloadsOff, counter, f) == Some(cut)
      && ThinOne(SampleDissection, counter, f) == (if counter % 2 == 1 then Some(cut) else None)
      && ThinOne(CoarsenMetrics, counter, f) == Some(cut)
      && ThinOne(DropPackets, counter, f) == Some(cut)
    ensures CounterAfter(stage, counter) ==
            if stage == SampleDissection then (counter + 1) % 0x1_0000_0000_0000_0000 else counter
  {
    assert |f.bytes| <= 54 ==> f.bytes[..|f.bytes|] == f.bytes;
  }

  /** At full fidelity nothing is lost. */
  lemma {:induction false} ThinAtFull(counter: u64, fs: seq<RawFrame>)
    ensures Thin(Full, counter, fs) == fs
  {
    if fs != [] {
      ThinAtFull(counter, fs[1..]);
      assert fs == [fs[0]] + fs[1..];
    }
  }

  /** Sampling keeps one frame in two, counted across batches. */
  lemma {:induction false} ThinSamples(counter: u64, fs: seq<RawFrame>)
    ensures |Thin(SampleDissection, counter, fs)| == (counter % 2 + |fs|) / 2
    decreases |fs|
  {
    if fs != [] {
      SampledOne(counter, fs[0]);
      hide CounterAfter;
      hide ThinOne;
      ThinSamples(CounterAfter(SampleDissection, counter), fs[1..]);
    }
  }

  lemma SampledOne(counter: u64, f: RawFrame)
    ensures CounterAfter(SampleDissection, counter) % 2 == 1 - counter % 2
    ensures |Listed(ThinOne(SampleDissection, counter, f))| == counter % 2
  {
  }

  // ---------------------------------------------------------------- numbering and batching

  function ToBinary(num: u64, f: RawFrame): BinaryFrame {
    BinaryFrame(num, f.monoNanos, f.ifaceId, |f.bytes| % TWO_32, |f.bytes| % TWO_32, f.bytes)
  }

  /** Frames numbered onwards from `num`, which saturates. */
  function Number(num: u64, fs: seq<RawFrame>): seq<BinaryFrame>
    decreases |fs|
  {
    if fs == [] then [] else [ToBinary(SatAdd(num, 1), fs[0])] + Number(SatAdd(num, 1), fs[1..])
  }

  function LastNumber(num: u64, n: nat): u64 { Min(num + n, U64_MAX) }

  /** Full batches of `size` frames and a shorter last one, all with the same statistics. */
  function Chunks(size: nat, stats: Option<TransportStats>, batchNum: u64, fs: seq<BinaryFrame>): seq<BinaryFrameBatch>
    requires size >= 1
    decreases |fs|
  {
    if fs == [] then []
    else if |fs| <= size then [BinaryFrameBatch(SatAdd(batchNum, 1), stats, fs)]
    else
      [BinaryFrameBatch(SatAdd(batchNum, 1), stats, fs[..size])] + Chunks(size, stats, SatAdd(batchNum, 1), fs[size..])
  }

  function StatsFor(raw: RawBatch, lastDropped: u64): Option<TransportStats> {
    if raw.kernelDrops != lastDropped then Some(TransportStats(raw.kernelDrops, 0, 0)) else None
  }

  datatype Counters = Counters(batchNum: u64, frameNum: u64, lastDropped: u64)

  /** What one nonempty raw batch adds to the channel, at full fidelity. */
  function OneRaw(size: nat, c: Counters, raw: RawBatch): seq<BinaryFrameBatch>
    requires size >= 1
  {
    Chunks(size, StatsFor(raw, c.lastDropped), c.batchNum, Number(c.frameNum, raw.frames))
  }

  function AfterRaw(size: nat, c: Counters, raw: RawBatch): Counters
    requires size >= 1
  {
    Counters(LastNumber(c.batchNum, |OneRaw(size, c, raw)|), LastNumber(c.frameNum, |raw.frames|), raw.kernelDrops)
  }

  /** Everything the worker sends for these raw batches; empty ones are skipped before the statistics are read. */
  function Produced(size: nat, c: Counters, raws: seq<RawBatch>): seq<BinaryFrameBatch>
    requires size >= 1
    decreases |raws|
  {
    if raws == [] then []
    else if raws[0].frames == [] then Produced(size, c, raws[1..])
    else OneRaw(size, c, raws[0]) + Produced(size, AfterRaw(size, c, raws[0]), raws[1..])
  }

  const COUNTERS_START := Counters(0, 0, 0)

  /** A batch limit of zero still sends one frame at a time. */
  function BatchSize(maxBatchSize: nat): (n: nat)
    ensures n >= 1
  {
    Max(maxBatchSize, 1)
  }

  lemma ChunksFull(size: nat, stats: Option<TransportStats>, batchNum: u64, full: seq<BinaryFrame>,
      rest: seq<BinaryFrame>)
    requires size >= 1 && |full| == size
    ensures Chunks(size, stats, batchNum, full + rest) ==
            [BinaryFrameBatch(SatAdd(batchNum, 1), stats, full)] + Chunks(size, stats, SatAdd(batchNum, 1), rest)
  {
    if rest == [] {
      assert full + rest == full;
    } else {
      assert (full + rest)[..size] == full && (full + rest)[size..] == rest;
    }
  }

  lemma {:induction false} NumberLength(num: u64, fs: seq<RawFrame>)
    ensures |Number(num, fs)| == |fs|
    decreases |fs|
  {
    if fs != [] {
      NumberLength(SatAdd(num, 1), fs[1..]);
    }
  }

  /** The worker's treatment of one frame before it is numbered. */
  method ShedFrame(shed: ShedController, currentStage: ShedStage, captured: RawFrame) returns (kept: Option<RawFrame>)
    modifies shed`packetCounter
    ensures kept == ThinOne(currentStage, old(shed.packetCounter), captured)
    ensures shed.packetCounter == CounterAfter(currentStage, old(shed.packetCounter))
  {
    var rawFrame := captured;
    if Level(currentStage) >= Level(PayloadsOff) {
      rawFrame := Truncated(rawFrame);
    }
    if currentStage == SampleDissection {
      var keep := shed.ShouldSample();
      if !keep {
        return None;
      }
    }
    return Some(rawFrame);
  }

  lemma ThinFrom(stage: ShedStage, counter: u64, fs: seq<RawFrame>, i: nat)
    requires i < |fs|
    ensures Thin(stage, counter, fs[i..]) ==
            Listed(ThinOne(stage, counter, fs[i])) + Thin(stage, CounterAfter(stage, counter), fs[i + 1..])
  {
    assert fs[i..][1..] == fs[i + 1..];
  }

  lemma NumberNext(pending: seq<BinaryFrame>, num: u64, f: RawFrame, more: seq<RawFrame>)
    ensures pending + Number(num, [f] + more) == pending + [ToBinary(SatAdd(num, 1), f)] + Number(SatAdd(num, 1), more)
  {
    assert ([f] + more)[1..] == more;
    Regroup(pending, [ToBinary(SatAdd(num, 1), f)], Number(SatAdd(num, 1), more));
  }

  lemma ChunksFlush(sent: seq<BinaryFrameBatch>, size: nat, stats: Option<TransportStats>, batchNum: u64,
      full: seq<BinaryFrame>, rest: seq<BinaryFrame>)
    requires size >= 1 && |full| == size
    ensures sent + Chunks(size, stats, batchNum, full + rest) ==
            sent + [BinaryFrameBatch(SatAdd(batchNum, 1), stats, full)] +
              Chunks(size, stats, SatAdd(batchNum, 1), [] + rest)
  {
    ChunksFull(size, stats, batchNum, full, rest);
    assert [] + rest == rest;
    Regroup(sent, [BinaryFrameBatch(SatAdd(batchNum, 1), stats, full)], Chunks(size, stats, SatAdd(batchNum, 1), rest));
  }

  lemma ChunksLast(sent: seq<BinaryFrameBatch>, size: nat, stats: Option<TransportStats>, batchNum: u64,
      last: seq<BinaryFrame>)
    requires size >= 1 && |last| <= size
    ensures sent + Chunks(size, stats, batchNum, last + []) ==
            if last == [] then sent else sent + [BinaryFrameBatch(SatAdd(batchNum, 1), stats, last)]
  {
    assert last + [] == last;
  }

  /** Batches of these frames in order: none empty or over the limit, and only the last one short of it. */
  predicate Grouped(limit: nat, fs: seq<RawFrame>, bs: seq<BinaryFrameBatch>) {
    && Raws(FramesOf(bs)) == fs
    && forall i :: 0 <= i < |bs| ==> 1 <= |bs[i].frames| <= limit && (i + 1 < |bs| ==> |bs[i].frames| == limit)
  }

  lemma {:induction false} ChunksGrouped(size: nat, stats: Option<TransportStats>, batchNum: u64, fs: seq<BinaryFrame>)
    requires size >= 1
    ensures
      var bs := Chunks(size, stats, batchNum, fs);
      && FramesOf(bs) == fs && (fs != [] ==> bs != [])
      && forall i :: 0 <= i < |bs| ==> 1 <= |bs[i].frames| <= size && (i + 1 < |bs| ==> |bs[i].frames| == size)
    decreases |fs|
  {
    if |fs| > size {
      var first := BinaryFrameBatch(SatAdd(batchNum, 1), stats, fs[..size]);
      var more := Chunks(size, stats, SatAdd(batchNum, 1), fs[size..]);
      ChunksGrouped(size, stats, SatAdd(batchNum, 1), fs[size..]);
      assert ([first] + more)[1..] == more;
      assert fs == fs[..size] + fs[size..];
    } else if fs != [] {
      var only := BinaryFrameBatch(SatAdd(batchNum, 1), stats, fs);
      assert [only][1..] == [] && fs + [] == fs;
    }
  }

  lemma NumberedGroups(size: nat, stats: Option<TransportStats>, batchNum: u64, num: u64, fs: seq<RawFrame>)
    requires size >= 1
    ensures Grouped(size, fs, Chunks(size, stats, batchNum, Number(num, fs)))
  {
    hide Chunks;
    hide Number;
    hide FramesOf;
    ChunksGrouped(size, stats, batchNum, Number(num, fs));
    NumberRaws(num, fs);
  }

  /** The drop count of the last nonempty raw batch, or zero. */
  function LastDrops(raws: seq<RawBatch>): u64 {
    if raws == [] then 0
    else if raws[|raws| - 1].frames != [] then raws[|raws| - 1].kernelDrops
    else LastDrops(raws[..|raws| - 1])
  }

  /** All these batches carry the statistics of the raw batch if its drop count is new, and none otherwise. */
  predicate Carries(bs: seq<BinaryFrameBatch>, drops: u64, before: u64) {
    forall i :: 0 <= i < |bs| ==> bs[i].stats == if drops == before then None else Some(TransportStats(drops, 0, 0))
  }

  lemma {:induction false} ChunksCarry(size: nat, stats: Option<TransportStats>, batchNum: u64, fs: seq<BinaryFrame>)
    requires size >= 1
    ensures forall i :: 0 <= i < |Chunks(size, stats, batchNum, fs)| ==>
              Chunks(size, stats, batchNum, fs)[i].stats == stats
    decreases |fs|
  {
    if |fs| > size {
      ChunksCarry(size, stats, SatAdd(batchNum, 1), fs[size..]);
    }
  }

  lemma OneRawCarries(size: nat, c: Counters, raw: RawBatch)
    requires size >= 1
    ensures Carries(OneRaw(size, c, raw), raw.kernelDrops, c.lastDropped)
  {
    hide Chunks;
    hide Number;
    ChunksCarry(size, StatsFor(raw, c.lastDropped), c.batchNum, Number(c.frameNum, raw.frames));
  }

  /** The groups one after another. */
  function Joined(groups: seq<seq<BinaryFrameBatch>>): seq<BinaryFrameBatch> {
    if groups == [] then [] else Joined(groups[..|groups| - 1]) + groups[|groups| - 1]
  }

  lemma JoinedMore(groups: seq<seq<BinaryFrameBatch>>, g: seq<BinaryFrameBatch>)
    ensures Joined(groups + [g]) == Joined(groups) + g
  {
    assert (groups + [g])[..|groups|] == groups;
  }

  /** The worker's handling of one raw batch, at whatever stage the shed controller stands. */
  method SendRaw(shed: ShedController, maxBatchSize: nat, stats: Option<TransportStats>, batchNum: u64, frameNum: u64,
      raw: seq<RawFrame>)
    returns (sent: seq<BinaryFrameBatch>, batchNum': u64, frameNum': u64)
    modifies shed`packetCounter
    ensures shed.stage == old(shed.stage)
    ensures
      var kept := Thin(shed.stage, old(shed.packetCounter), raw);
      && sent == Chunks(BatchSize(maxBatchSize), stats, batchNum, Number(frameNum, kept))
      && batchNum' == LastNumber(batchNum, |sent|) && frameNum' == LastNumber(frameNum, |kept|)
      && Grouped(if maxBatchSize == 0 then 1 else maxBatchSize, kept, sent)
  {
    hide Grouped;
    hide Thin;
    hide ThinOne;
    hide CounterAfter;
    hide Chunks;
    hide ToBinary;
    hide Number;
    var currentStage := shed.stage;
    ghost var size := BatchSize(maxBatchSize);
    ghost var kept := Thin(currentStage, shed.packetCounter, raw);
    var pending: seq<BinaryFrame> := [];
    sent, batchNum', frameNum' := [], batchNum, frameNum;
    assert raw[0..] == raw;
    ghost var target := Chunks(size, stats, batchNum, Number(frameNum, kept));
    assert [] + Number(frameNum, kept) == Number(frameNum, kept) && [] + target == target;
    for i := 0 to |raw|
      invariant shed.stage == currentStage
      invariant |pending| < size
      invariant
        var more := Number(frameNum', Thin(currentStage, shed.packetCounter, raw[i..]));
        sent + Chunks(size, stats, batchNum', pending + more) == target
      invariant batchNum' == LastNumber(batchNum, |sent|)
      invariant |Thin(currentStage, shed.packetCounter, raw[i..])| <= |kept|
      invariant frameNum' == LastNumber(frameNum, |kept| - |Thin(currentStage, shed.packetCounter, raw[i..])|)
    {
      ThinFrom(currentStage, shed.packetCounter, raw, i);
      var survivor := ShedFrame(shed, currentStage, raw[i]);
      ghost var more := Thin(currentStage, shed.packetCounter, raw[i + 1..]);
      if survivor.None? {
        assert [] + more == more;
        continue;
      }
      NumberNext(pending, frameNum', survivor.value, more);
      frameNum' := SatAdd(frameNum', 1);
      pending := pending + [ToBinary(frameNum', survivor.value)];
      if |pending| >= maxBatchSize {
        ChunksFlush(sent, size, stats, batchNum', pending, Number(frameNum', more));
        batchNum' := SatAdd(batchNum', 1);
        sent := sent + [BinaryFrameBatch(batchNum', stats, pending)];
        pending := [];
      }
    }
    assert raw[|raw|..] == [];
    NothingLeft(currentStage, shed.packetCounter, frameNum');
    ChunksLast(sent, size, stats, batchNum', pending);
    if pending != [] {
      batchNum' := SatAdd(batchNum', 1);
      sent := sent + [BinaryFrameBatch(batchNum', stats, pending)];
    }
    NumberedGroups(size, stats, batchNum, frameNum, kept);
  }

  lemma NothingLeft(stage: ShedStage, counter: u64, num: u64)
    ensures Thin(stage, counter, []) == [] && Number(num, []) == []
  {
  }

  /** A group of batches for each raw batch, with its frames and its statistics. */
  predicate Worked(limit: nat, raws: seq<RawBatch>, groups: seq<seq<BinaryFrameBatch>>) {
    && |groups| == |raws|
    && (forall i :: 0 <= i < |raws| ==> Grouped(limit, raws[i].frames, groups[i]))
    && (forall i :: 0 <= i < |raws| ==> Carries(groups[i], raws[i].kernelDrops, LastDrops(raws[..i])))
  }

  lemma NothingWorked(limit: nat, raws: seq<RawBatch>)
    ensures Worked(limit, raws[..0], []) && Joined([]) == [] && LastDrops(raws[..0]) == 0
    ensures raws[..|raws|] == raws
  {
  }

  lemma WorkedMore(limit: nat, raws: seq<RawBatch>, groups: seq<seq<BinaryFrameBatch>>, raw: RawBatch,
      more: seq<BinaryFrameBatch>)
    requires Worked(limit, raws, groups)
    requires raw.frames == [] ==> more == []
    requires raw.frames != [] ==> Grouped(limit, raw.frames, more) && Carries(more, raw.kernelDrops, LastDrops(raws))
    ensures Worked(limit, raws + [raw], groups + [more])
    ensures LastDrops(raws + [raw]) == if raw.frames == [] then LastDrops(raws) else raw.kernelDrops
    ensures more + [] == more && Joined(groups) + [] == Joined(groups)
  {
    var longer := raws + [raw];
    assert longer[..|raws|] == raws;
    assert Carries([], raw.kernelDrops, LastDrops(raws)) && Grouped(limit, [], []);
    hide Carries;
    hide Grouped;
    hide LastDrops;
    forall i | 0 <= i < |raws|
      ensures longer[i] == raws[i] && longer[..i] == raws[..i]
    {
    }
  }

  lemma ProducedNext(size: nat, c: Counters, raws: seq<RawBatch>)
    requires size >= 1 && raws != []
    ensures Produced(size, c, raws) ==
            if raws[0].frames == [] then Produced(size, c, raws[1..])
            else OneRaw(size, c, raws[0]) + Produced(size, AfterRaw(size, c, raws[0]), raws[1..])
  {
  }

  lemma ProducedNone(size: nat, c: Counters)
    requires size >= 1
    ensures Produced(size, c, []) == []
  {
  }

  lemma OneRawIs(size: nat, c: Counters, raw: RawBatch)
    requires size >= 1
    ensures OneRaw(size, c, raw) ==
            Chunks(size, StatsFor(raw, c.lastDropped), c.batchNum, Number(c.frameNum, raw.frames))
  {
  }

  /**
   * The worker loop over the raw batches it pulls before it is stopped, the device fails or the channel closes.
   * The shed controller is never updated, so the stage stays at full fidelity: each raw batch becomes a group of
   * batches of `maxBatchSize` frames, of one if that is zero, and a shorter last one.
   */
  method CaptureWorkerLoop(capacity: u64, maxBatchSize: nat, raws: seq<RawBatch>)
    returns (sent: seq<BinaryFrameBatch>, ghost groups: seq<seq<BinaryFrameBatch>>)
    ensures sent == Produced(BatchSize(maxBatchSize), COUNTERS_START, raws)
    ensures sent == Joined(groups)
    ensures Worked(if maxBatchSize == 0 then 1 else maxBatchSize, raws, groups)
  {
    hide Worked;
    hide Carries;
    hide Grouped;
    hide Produced;
    hide LastDrops;
    hide Joined;
    hide OneRaw;
    ghost var limit := if maxBatchSize == 0 then 1 else maxBatchSize;
    var shed := new ShedController(capacity);
    var batchSeqNum, frameSeqNum, lastDroppedCount: u64 := 0, 0, 0;
    ghost var size := BatchSize(maxBatchSize);
    sent, groups := [], [];
    assert raws[0..] == raws;
    NothingWorked(limit, raws);
    for i := 0 to |raws|
      invariant fresh(shed) && shed.stage == Full
      invariant sent == Joined(groups) && Worked(limit, raws[..i], groups)
      invariant lastDroppedCount == LastDrops(raws[..i])
      invariant sent + Produced(size, Counters(batchSeqNum, frameSeqNum, lastDroppedCount), raws[i..]) ==
                Produced(size, COUNTERS_START, raws)
    {
      var raw := raws[i];
      assert raws[i..][0] == raw && raws[i..][1..] == raws[i + 1..];
      assert raws[..i + 1] == raws[..i] + [raw];
      ProducedNext(size, Counters(batchSeqNum, frameSeqNum, lastDroppedCount), raws[i..]);
      if raw.frames == [] {
        WorkedMore(limit, raws[..i], groups, raw, []);
        JoinedMore(groups, []);
        groups := groups + [[]];
        continue;
      }
      var statsChanged := raw.kernelDrops != lastDroppedCount;
      var stats := if statsChanged then Some(TransportStats(raw.kernelDrops, 0, 0)) else None;
      ghost var c := Counters(batchSeqNum, frameSeqNum, lastDroppedCount);
      lastDroppedCount := raw.kernelDrops;
      ThinAtFull(shed.packetCounter, raw.frames);
      var more;
      more, batchSeqNum, frameSeqNum := SendRaw(shed, maxBatchSize, stats, batchSeqNum, frameSeqNum, raw.frames);
      OneRawIs(size, c, raw);
      OneRawCarries(size, c, raw);
      WorkedMore(limit, raws[..i], groups, raw, more);
      JoinedMore(groups, more);
      groups := groups + [more];
      Regroup(sent, more, Produced(size, AfterRaw(size, c, raw), raws[i + 1..]));
      sent := sent + more;
    }
    assert raws[|raws|..] == [];
    ProducedNone(size, Counters(batchSeqNum, frameSeqNum, lastDroppedCount));
  }

  /** The writer's framing of one batch. */
  method FrameBatch(b: BinaryFrameBatch) returns (bytes: seq<byte>)
    ensures bytes == Framed(b)
  {
    var payloadBytes := EncodePayload(b);
    var flags: byte := if b.stats.Some? then FLAG_STATS_PRESENT else 0;
    var header := NewHeader(flags, |payloadBytes| % TWO_32);
    bytes := HeaderBytes(header) + payloadBytes;
  }

  // ---------------------------------------------------------------- end to end

  function AllRaw(raws: seq<RawBatch>): seq<RawFrame> {
    if raws == [] then [] else raws[0].frames + AllRaw(raws[1..])
  }

  /** The largest drop count among `d` and the nonempty raw batches. */
  function LargestDrops(d: u64, raws: seq<RawBatch>): u64
    decreases |raws|
  {
    if raws == [] then d
    else LargestDrops(if raws[0].frames == [] then d else Max(d, raws[0].kernelDrops), raws[1..])
  }

  lemma {:induction false} LargestDropsExact(d: u64, raws: seq<RawBatch>)
    ensures LargestDrops(d, raws) >= d
    ensures forall i :: 0 <= i < |raws| && raws[i].frames != [] ==> LargestDrops(d, raws) >= raws[i].kernelDrops
    ensures LargestDrops(d, raws) == d ||
            exists i :: 0 <= i < |raws| && raws[i].frames != [] && LargestDrops(d, raws) == raws[i].kernelDrops
    decreases |raws|
  {
    if raws != [] {
      var d' := if raws[0].frames == [] then d else Max(d, raws[0].kernelDrops);
      LargestDropsExact(d', raws[1..]);
      assert forall i :: 1 <= i < |raws| ==> raws[i] == raws[1..][i - 1];
      if LargestDrops(d', raws[1..]) == d' {
        assert LargestDrops(d, raws) == d || LargestDrops(d, raws) == raws[0].kernelDrops;
      } else {
        var i :| 0 <= i < |raws| - 1 && raws[1..][i].frames != [] &&
          LargestDrops(d', raws[1..]) == raws[1..][i].kernelDrops;
        assert raws[i + 1].frames != [];
      }
    }
  }

  /** The client has last seen frame `num` (none yet when it is 0). */
  predicate LastSeen(acc: Account, num: u64) {
    acc.lastFrame == (if num == 0 then None else Some(num))
  }

  /** Consecutive frames are all received and none is counted as missing. */
  lemma {:induction false} CountConsecutive(acc: Account, num: u64, fs: seq<RawFrame>)
    requires LastSeen(acc, num) && num + |fs| < TWO_64 && acc.received + |fs| < TWO_64
    ensures CountFrames(acc, Number(num, fs)) ==
            acc.(lastFrame := if num + |fs| == 0 then None else Some(num + |fs|), received := acc.received + |fs|)
    ensures LastSeen(CountFrames(acc, Number(num, fs)), num + |fs|)
    decreases |fs|
  {
    hide CountFrames;
    if fs == [] {
      CountNone(acc);
    } else {
      var first := ToBinary(num + 1, fs[0]);
      var next := CountFrame(acc, first);
      CountOne(acc, first);
      CountConsecutive(next, num + 1, fs[1..]);
      CountFramesSplit(acc, [first], Number(num + 1, fs[1..]));
    }
  }

  lemma CountNone(acc: Account)
    ensures CountFrames(acc, []) == acc
  {
  }

  lemma CountOne(acc: Account, f: BinaryFrame)
    ensures CountFrames(acc, [f]) == CountFrame(acc, f)
  {
    assert [f][..0] == [];
  }

  lemma {:induction false} NumberSplit(num: u64, a: seq<RawFrame>, b: seq<RawFrame>)
    requires num + |a| < TWO_64
    ensures Number(num, a + b) == Number(num, a) + Number(num + |a|, b)
    decreases |a|
  {
    if a == [] {
      assert a + b == b;
    } else {
      assert (a + b)[1..] == a[1..] + b;
      NumberSplit(num + 1, a[1..], b);
    }
  }

  lemma {:induction false} NumberRaws(num: u64, fs: seq<RawFrame>)
    ensures Raws(Number(num, fs)) == fs
    ensures (forall i :: 0 <= i < |fs| ==> |fs[i].bytes| < TWO_32) ==> FramesOk(Number(num, fs))
    decreases |fs|
  {
    if fs != [] {
      NumberRaws(SatAdd(num, 1), fs[1..]);
      assert Raws(Number(num, fs)) == [fs[0]] + Raws(Number(SatAdd(num, 1), fs[1..]));
      assert fs == [fs[0]] + fs[1..];
      assert forall i :: 1 <= i < |fs| ==> fs[i] == fs[1..][i - 1];
      assert Number(num, fs)[1..] == Number(SatAdd(num, 1), fs[1..]);
      assert forall i :: 1 <= i < |Number(num, fs)| ==> Number(num, fs)[i] == Number(num, fs)[1..][i - 1];
    }
  }

  /** Concatenation of the client's batches. */
  function Flat(batches: seq<seq<RawFrame>>): seq<RawFrame> {
    if batches == [] then [] else batches[0] + Flat(batches[1..])
  }

  /** What reading these batches yields and how it leaves the counters. */
  predicate Delivers(bs: seq<BinaryFrameBatch>, acc: Account, fs: seq<RawFrame>, after: Account) {
    && Flat(RawBatches(bs)) == fs
    && CountBatches(acc, bs).(lastBatch := None) == after.(lastBatch := None)
  }

  lemma {:induction false} DeliversThen(a: seq<BinaryFrameBatch>, b: seq<BinaryFrameBatch>, acc: Account)
    ensures Flat(RawBatches(a + b)) == Flat(RawBatches(a)) + Flat(RawBatches(b))
    ensures CountBatches(acc, a + b) == CountBatches(CountBatches(acc, a), b)
    decreases |a|
  {
    hide CountBatch;
    if a == [] {
      assert a + b == b;
    } else {
      assert (a + b)[1..] == a[1..] + b;
      assert RawBatches(a)[1..] == RawBatches(a[1..]);
      assert RawBatches(a + b)[1..] == RawBatches(a[1..] + b);
      DeliversThen(a[1..], b, CountBatch(acc, a[0]));
      Regroup(Raws(a[0].frames), Flat(RawBatches(a[1..])), Flat(RawBatches(b)));
    }
  }

  function WithDrops(acc: Account, stats: Option<TransportStats>): Account {
    acc.(dropped := if stats.Some? then Max(acc.dropped, stats.value.droppedFrames) else acc.dropped)
  }

  lemma DeliversOne(b: BinaryFrameBatch, acc: Account)
    ensures Flat(RawBatches([b])) == Raws(b.frames)
    ensures CountBatches(acc, [b]) == CountBatch(acc, b)
  {
    hide CountBatch;
    assert RawBatches([b])[1..] == [];
    assert [b][1..] == [];
  }

  /** One batch of consecutive frames. */
  lemma DeliversBatch(b: BinaryFrameBatch, num: u64, fs: seq<RawFrame>, acc: Account)
    requires b.frames == Number(num, fs) && fs != []
    requires LastSeen(acc, num) && num + |fs| < TWO_64 && acc.received + |fs| < TWO_64
    ensures Flat(RawBatches([b])) == fs
    ensures CountBatches(acc, [b]).(lastBatch := None) ==
            WithDrops(acc, b.stats).(lastBatch := None, lastFrame := Some(num + |fs|), received := acc.received + |fs|)
  {
    hide Number;
    NumberRaws(num, fs);
    DeliversOne(b, acc);
    CountConsecutive(OpenBatch(acc, b), num, fs);
  }

  /** The first batch of a raw batch, and the rest. */
  lemma ChunksHead(size: nat, stats: Option<TransportStats>, batchNum: u64, num: u64, fs: seq<RawFrame>)
    requires size >= 1 && num + |fs| < TWO_64 && fs != []
    ensures
      var take := Min(size, |fs|);
      Chunks(size, stats, batchNum, Number(num, fs)) ==
      [BinaryFrameBatch(SatAdd(batchNum, 1), stats, Number(num, fs[..take]))] +
      Chunks(size, stats, SatAdd(batchNum, 1), Number(num + take, fs[take..]))
  {
    var take := Min(size, |fs|);
    var head, tail := fs[..take], fs[take..];
    assert fs == head + tail;
    NumberSplit(num, head, tail);
    NumberLength(num, head);
    NumberLength(num + take, tail);
    if tail == [] {
      assert Number(num, head) + [] == Number(num, head);
    } else {
      ChunksFull(size, stats, batchNum, Number(num, head), Number(num + take, tail));
    }
  }

  /** The batches of one raw batch deliver its frames, in order, with no gap and the statistics applied. */
  lemma {:induction false} DeliversChunks(size: nat, stats: Option<TransportStats>, batchNum: u64, num: u64,
      fs: seq<RawFrame>, acc: Account)
    requires size >= 1 && LastSeen(acc, num) && num + |fs| < TWO_64 && acc.received + |fs| < TWO_64 && fs != []
    ensures Delivers(Chunks(size, stats, batchNum, Number(num, fs)), acc, fs,
                     WithDrops(acc, stats).(lastFrame := Some(num + |fs|), received := acc.received + |fs|))
    decreases |fs|
  {
    hide Chunks;
    hide Number;
    hide CountBatch;
    var take := Min(size, |fs|);
    var head, tail := fs[..take], fs[take..];
    assert fs == head + tail;
    ChunksHead(size, stats, batchNum, num, fs);
    var b := BinaryFrameBatch(SatAdd(batchNum, 1), stats, Number(num, head));
    var more := Chunks(size, stats, SatAdd(batchNum, 1), Number(num + take, tail));
    DeliversBatch(b, num, head, acc);
    DeliversThen([b], more, acc);
    if tail == [] {
      NoChunks(size, stats, SatAdd(batchNum, 1), num + take);
      assert head == fs && [b] + [] == [b];
    } else {
      DeliversChunks(size, stats, SatAdd(batchNum, 1), num + take, tail, CountBatches(acc, [b]));
    }
  }

  lemma NoChunks(size: nat, stats: Option<TransportStats>, batchNum: u64, num: u64)
    requires size >= 1
    ensures Chunks(size, stats, batchNum, Number(num, [])) == []
  {
  }

  lemma NothingDelivered(acc: Account)
    ensures Flat(RawBatches([])) == [] && CountBatches(acc, []) == acc
  {
  }

  lemma {:induction false} DeliversAll(size: nat, c: Counters, raws: seq<RawBatch>, acc: Account)
    requires size >= 1 && LastSeen(acc, c.frameNum)
    requires c.frameNum + |AllRaw(raws)| < TWO_64 && acc.received + |AllRaw(raws)| < TWO_64
    requires acc.dropped >= c.lastDropped
    ensures
      var n := |AllRaw(raws)|;
      Delivers(Produced(size, c, raws), acc, AllRaw(raws),
               Account(None, if c.frameNum + n == 0 then None else Some(c.frameNum + n),
                       acc.received + n, LargestDrops(acc.dropped, raws)))
    decreases |raws|
  {
    hide Chunks;
    hide Number;
    hide CountBatch;
    hide CountBatches;
    hide RawBatches;
    hide Flat;
    if raws == [] {
      NothingDelivered(acc);
    } else {
      var raw := raws[0];
      if raw.frames == [] {
        DeliversAll(size, c, raws[1..], acc);
        assert raw.frames + AllRaw(raws[1..]) == AllRaw(raws[1..]);
      } else {
        var first := OneRaw(size, c, raw);
        DeliversChunks(size, StatsFor(raw, c.lastDropped), c.batchNum, c.frameNum, raw.frames, acc);
        var mid := CountBatches(acc, first);
        DeliversAll(size, AfterRaw(size, c, raw), raws[1..], mid);
        DeliversThen(first, Produced(size, AfterRaw(size, c, raw), raws[1..]), acc);
      }
    }
  }

  // ---------------------------------------------------------------- what the worker sends is well formed

  /** Every payload has a length its header can hold. */
  predicate LengthsFit(bs: seq<BinaryFrameBatch>) { forall i :: 0 <= i < |bs| ==> |Payload(bs[i])| < TWO_32 }

  /** Frames as the worker stamps them, with both lengths those of the data. */
  predicate Stamped(fs: seq<BinaryFrame>) {
    forall i :: 0 <= i < |fs| ==> fs[i].caplen == fs[i].wireLen == |fs[i].pktData| % TWO_32
  }

  predicate AllStamped(bs: seq<BinaryFrameBatch>) {
    forall i :: 0 <= i < |bs| ==> StatsOk(bs[i]) && Stamped(bs[i].frames)
  }

  lemma {:induction false} NumberStamped(num: u64, fs: seq<RawFrame>)
    ensures Stamped(Number(num, fs))
    decreases |fs|
  {
    if fs != [] {
      NumberStamped(SatAdd(num, 1), fs[1..]);
    }
  }

  lemma {:induction false} ChunksStamped(size: nat, stats: Option<TransportStats>, batchNum: u64, fs: seq<BinaryFrame>)
    requires size >= 1 && Stamped(fs) && (stats.Some? ==> stats.value.reserved == 0)
    ensures AllStamped(Chunks(size, stats, batchNum, fs))
    decreases |fs|
  {
    if |fs| > size {
      ChunksStamped(size, stats, SatAdd(batchNum, 1), fs[size..]);
    }
  }

  lemma {:induction false} ProducedStamped(size: nat, c: Counters, raws: seq<RawBatch>)
    requires size >= 1
    ensures AllStamped(Produced(size, c, raws))
    decreases |raws|
  {
    hide Chunks;
    hide Stamped;
    hide StatsOk;
    if raws != [] {
      if raws[0].frames == [] {
        ProducedStamped(size, c, raws[1..]);
      } else {
        NumberStamped(c.frameNum, raws[0].frames);
        ChunksStamped(size, StatsFor(raws[0], c.lastDropped), c.batchNum, Number(c.frameNum, raws[0].frames));
        ProducedStamped(size, AfterRaw(size, c, raws[0]), raws[1..]);
      }
    }
  }

  lemma StampedWellFormed(b: BinaryFrameBatch)
    requires |Payload(b)| < TWO_32 && StatsOk(b) && Stamped(b.frames)
    ensures WellFormed(b)
  {
    hide BatchHead;
    hide FramesBytes;
    FramesFitPayload(b.frames);
  }

  lemma ProducedWellFormed(size: nat, c: Counters, raws: seq<RawBatch>)
    requires size >= 1 && LengthsFit(Produced(size, c, raws))
    ensures AllWellFormed(Produced(size, c, raws))
  {
    hide Produced;
    hide Payload;
    hide Stamped;
    hide StatsOk;
    hide WellFormed;
    ProducedStamped(size, c, raws);
    var bs := Produced(size, c, raws);
    forall i | 0 <= i < |bs|
      ensures WellFormed(bs[i])
    {
      StampedWellFormed(bs[i]);
    }
  }

  predicate NoneEmpty(bs: seq<BinaryFrameBatch>) { forall i :: 0 <= i < |bs| ==> bs[i].frames != [] }

  lemma {:induction false} ChunksNotEmpty(size: nat, stats: Option<TransportStats>, batchNum: u64, fs: seq<BinaryFrame>)
    requires size >= 1
    ensures NoneEmpty(Chunks(size, stats, batchNum, fs))
    decreases |fs|
  {
    if |fs| > size {
      ChunksNotEmpty(size, stats, SatAdd(batchNum, 1), fs[size..]);
    }
  }

  /** The worker never sends an empty batch. */
  lemma {:induction false} ProducedNotEmpty(size: nat, c: Counters, raws: seq<RawBatch>)
    requires size >= 1
    ensures NoneEmpty(Produced(size, c, raws))
    decreases |raws|
  {
    hide Chunks;
    if raws != [] {
      if raws[0].frames == [] {
        ProducedNotEmpty(size, c, raws[1..]);
      } else {
        ChunksNotEmpty(size, StatsFor(raws[0], c.lastDropped), c.batchNum, Number(c.frameNum, raws[0].frames));
        ProducedNotEmpty(size, AfterRaw(size, c, raws[0]), raws[1..]);
      }
    }
  }

  /** A part of the batches has fewer frames than all of them when no batch is empty. */
  lemma {:induction false} PartIsLess(bs: seq<BinaryFrameBatch>, k: nat)
    requires NoneEmpty(bs) && k <= |bs|
    ensures Flat(RawBatches(bs[..k])) <= Flat(RawBatches(bs))
    ensures k < |bs| ==> Flat(RawBatches(bs[..k])) < Flat(RawBatches(bs))
    decreases |bs|
  {
    hide Raws;
    if k > 0 {
      assert RawBatches(bs)[1..] == RawBatches(bs[1..]);
      assert RawBatches(bs[..k])[1..] == RawBatches(bs[1..][..k - 1]);
      PartIsLess(bs[1..], k - 1);
    } else if bs != [] {
      assert |RawBatches(bs)[0]| == |bs[0].frames|;
    }
  }

  /**
   * Daemon to client. The client gets the frames of the batches before the first whose payload is over the limit,
   * and refuses that one if there is one. So delivery is complete if and only if no payload is over the limit: then
   * every raw frame is read once and in order, all are counted as received, no gap is counted, and `dropped` is the
   * largest kernel count seen at a nonempty raw batch. Otherwise frames are missing from the end.
   */
  lemma DaemonToClient(maxBatchSize: nat, raws: seq<RawBatch>, ending: Ending)
    requires |AllRaw(raws)| < TWO_64
    requires LengthsFit(Produced(BatchSize(maxBatchSize), COUNTERS_START, raws))
    ensures
      var bs := Produced(BatchSize(maxBatchSize), COUNTERS_START, raws);
      var k := FirstTooLarge(bs);
      var s := Reads(Wire(bs), ending, NEW_ACCOUNT);
      && s.batches == RawBatches(bs[..k])
      && s.failure == (if NoneTooLarge(bs) then HeaderEnd(ending) else Some(REFUSED))
      && Flat(s.batches) <= AllRaw(raws)
      && (Flat(s.batches) == AllRaw(raws) <==> NoneTooLarge(bs))
      && (NoneTooLarge(bs) ==>
            s.account.received == |AllRaw(raws)| && s.account.dropped == LargestDrops(0, raws))
  {
    hide Produced;
    hide Reads;
    hide Wire;
    hide CountBatches;
    hide AllWellFormed;
    hide LengthsFit;
    hide LargestDrops;
    hide AllRaw;
    hide TooLarge;
    hide RawBatches;
    hide Flat;
    var bs := Produced(BatchSize(maxBatchSize), COUNTERS_START, raws);
    var k := FirstTooLarge(bs);
    ProducedWellFormed(BatchSize(maxBatchSize), COUNTERS_START, raws);
    WholeStream(bs, ending, NEW_ACCOUNT);
    ProducedNotEmpty(BatchSize(maxBatchSize), COUNTERS_START, raws);
    PartIsLess(bs, k);
    assert bs[..|bs|] == bs;
    DeliversAll(BatchSize(maxBatchSize), COUNTERS_START, raws, NEW_ACCOUNT);
  }

  /**
   * On the daemon's stream, cut anywhere, a client that stops at the first empty batch reads all there is: the first
   * empty read is the end of the stream.
   */
  lemma EmptyReadIsTheEnd(maxBatchSize: nat, raws: seq<RawBatch>, n: nat, ending: Ending)
    requires LengthsFit(Produced(BatchSize(maxBatchSize), COUNTERS_START, raws))
    requires n <= |Wire(Produced(BatchSize(maxBatchSize), COUNTERS_START, raws))|
    ensures
      var stream := Wire(Produced(BatchSize(maxBatchSize), COUNTERS_START, raws))[..n];
      Drains(stream, ending, NEW_ACCOUNT) == Reads(stream, ending, NEW_ACCOUNT)
  {
    hide Produced;
    hide Reads;
    hide Drains;
    hide Wire;
    hide CountBatches;
    hide Delivered;
    hide CutEnd;
    hide AllWellFormed;
    var bs := Produced(BatchSize(maxBatchSize), COUNTERS_START, raws);
    ProducedWellFormed(BatchSize(maxBatchSize), COUNTERS_START, raws);
    CutStream(bs, n, ending, NEW_ACCOUNT);
    ProducedNotEmpty(BatchSize(maxBatchSize), COUNTERS_START, raws);
    var k := Delivered(bs, n);
    forall i | 0 <= i < k
      ensures RawBatches(bs[..k])[i] != []
    {
      assert |RawBatches(bs[..k])[i]| == |bs[i].frames|;
    }
    DrainsIsReads(Wire(bs)[..n], ending, NEW_ACCOUNT);
  }

  lemma {:induction false} ChunksNumbered(size: nat, stats: Option<TransportStats>, batchNum: u64, fs: seq<BinaryFrame>)
    requires size >= 1 && batchNum + |fs| < TWO_64
    ensures |Chunks(size, stats, batchNum, fs)| <= |fs|
    ensures forall i :: 0 <= i < |Chunks(size, stats, batchNum, fs)| ==>
              Chunks(size, stats, batchNum, fs)[i].batchSeqNum == batchNum + i + 1
    decreases |fs|
  {
    if |fs| > size {
      ChunksNumbered(size, stats, batchNum + 1, fs[size..]);
    }
  }

  /** Batches are numbered one after another, so the client's batch gap check never fires. */
  lemma {:induction false} BatchesNumbered(size: nat, c: Counters, raws: seq<RawBatch>)
    requires size >= 1 && c.batchNum + |AllRaw(raws)| < TWO_64
    ensures forall i :: 0 <= i < |Produced(size, c, raws)| ==>
              Produced(size, c, raws)[i].batchSeqNum == c.batchNum + i + 1
    decreases |raws|
  {
    if raws != [] {
      if raws[0].frames == [] {
        BatchesNumbered(size, c, raws[1..]);
      } else {
        NumberLength(c.frameNum, raws[0].frames);
        ChunksNumbered(size, StatsFor(raws[0], c.lastDropped), c.batchNum, Number(c.frameNum, raws[0].frames));
        BatchesNumbered(size, AfterRaw(size, c, raws[0]), raws[1..]);
      }
    }
  }

  // ---------------------------------------------------------------- when everything fits

  predicate Small(fs: seq<RawFrame>, bytes: nat) { forall i :: 0 <= i < |fs| ==> |fs[i].bytes| <= bytes }

  lemma {:induction false} FramesBytesBound(num: u64, fs: seq<RawFrame>, bytes: nat)
    requires Small(fs, bytes)
    ensures |FramesBytes(Number(num, fs))| <= |fs| * (28 + bytes)
    decreases |fs|
  {
    if fs != [] {
      FramesBytesBound(SatAdd(num, 1), fs[1..], bytes);
      assert Number(num, fs)[1..] == Number(SatAdd(num, 1), fs[1..]);
      assert |fs| * (28 + bytes) == (|fs| - 1) * (28 + bytes) + (28 + bytes);
    }
  }

  lemma {:induction false} ChunksSendable(size: nat, stats: Option<TransportStats>, batchNum: u64, num: u64,
      fs: seq<RawFrame>)
    requires 1 <= size <= 256 && Small(fs, 40_931) && (stats.Some? ==> stats.value.reserved == 0)
    requires num + |fs| < TWO_64
    ensures AllSendable(Chunks(size, stats, batchNum, Number(num, fs)))
    decreases |fs|
  {
    hide Chunks;
    hide Number;
    if fs == [] {
      NoChunks(size, stats, batchNum, num);
    } else {
      var take := Min(size, |fs|);
      ChunksHead(size, stats, batchNum, num, fs);
      SmallBatch(SatAdd(batchNum, 1), stats, num, fs[..take]);
      ChunksSendable(size, stats, SatAdd(batchNum, 1), num + take, fs[take..]);
    }
  }

  lemma SmallBatch(batchNum: u64, stats: Option<TransportStats>, num: u64, fs: seq<RawFrame>)
    requires |fs| <= 256 && Small(fs, 40_931) && (stats.Some? ==> stats.value.reserved == 0)
    ensures Sendable(BinaryFrameBatch(batchNum, stats, Number(num, fs)))
  {
    NumberRaws(num, fs);
    FramesBytesBound(num, fs, 40_931);
    assert |fs| * (28 + 40_931) <= 256 * (28 + 40_931);
  }

  /** With at most 256 frames a batch and at most 40,931 bytes a frame, every payload is within the limit. */
  lemma {:induction false} SmallFramesFit(size: nat, c: Counters, raws: seq<RawBatch>)
    requires 1 <= size <= 256 && c.frameNum + |AllRaw(raws)| < TWO_64
    requires Small(AllRaw(raws), 40_931)
    ensures AllSendable(Produced(size, c, raws))
    decreases |raws|
  {
    if raws != [] {
      var raw := raws[0];
      var fs, rest := raw.frames, AllRaw(raws[1..]);
      assert forall i :: 0 <= i < |fs| ==> fs[i] == AllRaw(raws)[i];
      assert forall i :: 0 <= i < |rest| ==> rest[i] == AllRaw(raws)[|fs| + i];
      if fs == [] {
        SmallFramesFit(size, c, raws[1..]);
      } else {
        ChunksSendable(size, StatsFor(raw, c.lastDropped), c.batchNum, c.frameNum, fs);
        SmallFramesFit(size, AfterRaw(size, c, raw), raws[1..]);
      }
    }
  }

  // ---------------------------------------------------------------- when it does not

  lemma {:induction false} FramesBytesExact(num: u64, fs: seq<RawFrame>, bytes: nat)
    requires forall i :: 0 <= i < |fs| ==> |fs[i].bytes| == bytes
    ensures |FramesBytes(Number(num, fs))| == |fs| * (28 + bytes)
    decreases |fs|
  {
    if fs != [] {
      FramesBytesExact(SatAdd(num, 1), fs[1..], bytes);
      assert Number(num, fs)[1..] == Number(SatAdd(num, 1), fs[1..]);
      assert |fs| * (28 + bytes) == (|fs| - 1) * (28 + bytes) + (28 + bytes);
    }
  }

  /**
   * At the default batch size, 256 of the longest frames the capture device hands out make a batch of about 16.8 MB.
   * Nothing of it reaches the client, whose reading ends there.
   */
  lemma LongFramesAreRefused(fs: seq<RawFrame>, kernelDrops: u64, ending: Ending)
    requires |fs| == 256 && forall i :: 0 <= i < |fs| ==> |fs[i].bytes| == 65_535
    ensures Reads(Wire(Produced(BatchSize(256), COUNTERS_START, [RawBatch(fs, kernelDrops)])), ending,
                  NEW_ACCOUNT) ==
            Session([], NEW_ACCOUNT, Some(REFUSED))
  {
    hide Reads;
    hide Wire;
    hide FramesBytes;
    hide BatchHead;
    hide FirstTooLarge;
    var raw := RawBatch(fs, kernelDrops);
    var c := COUNTERS_START;
    var size := BatchSize(256);
    var b := BinaryFrameBatch(1, StatsFor(raw, 0), Number(0, fs));
    NumberLength(0, fs);
    FramesBytesExact(0, fs, 65_535);
    assert OneRaw(size, c, raw) == [b];
    assert [raw][1..] == [] && Produced(size, AfterRaw(size, c, raw), []) == [];
    assert Produced(size, c, [raw]) == [b] + [] == [b];
    ProducedWellFormed(size, c, [raw]);
    WholeStream([b], ending, NEW_ACCOUNT);
    assert FirstTooLarge([b]) == 0;
    NothingYet([b], NEW_ACCOUNT);
  }

  /**
   * With the batch size at most 256 and no frame longer than 40,931 bytes every frame reaches the client, in order and
   * counted.
   */
  lemma SmallFramesArrive(maxBatchSize: nat, raws: seq<RawBatch>, ending: Ending)
    requires maxBatchSize <= 256 && |AllRaw(raws)| < TWO_64
    requires Small(AllRaw(raws), 40_931)
    ensures
      var s := Reads(Wire(Produced(BatchSize(maxBatchSize), COUNTERS_START, raws)), ending, NEW_ACCOUNT);
      && Flat(s.batches) == AllRaw(raws) && s.failure == HeaderEnd(ending)
      && s.account.received == |AllRaw(raws)|
  {
    hide Produced;
    hide Reads;
    hide AllRaw;
    hide Payload;
    hide LargestDrops;
    var bs := Produced(BatchSize(maxBatchSize), COUNTERS_START, raws);
    SmallFramesFit(BatchSize(maxBatchSize), COUNTERS_START, raws);
    assert forall i :: 0 <= i < |bs| ==> Sendable(bs[i]);
    DaemonToClient(maxBatchSize, raws, ending);
  }
}
