/** Replaying a sealed recording: the frame source and the seekable controller. */
module Replay {
  import opened Wrappers
  import opened Arith
  import opened Bytes
  import opened Pcapng
  import opened FileSource
  import opened Recording

  // ---------------------------------------------------------------- what a recording holds

  /** Everything the reader returns has a wall time that fits. */
  lemma {:induction false} BlocksFit(rest: seq<byte>, be: bool, sc: Scan)
    requires WallsFit(sc.records)
    ensures Blocks(rest, be, sc).Ok? ==> WallsFit(Blocks(rest, be, sc).value.records)
    decreases |rest|
  {
    if |rest| >= 12 {
      var total := Word32(rest[4..8], be);
      if 12 <= total <= |rest| && total % 4 == 0 {
        var v := BlockEffect(Word32(rest[0..4], be), rest[8..total - 4], be, sc);
        if v.Go? {
          BlocksFit(rest[total..], be, v.scan);
        }
      }
    }
  }

  lemma DecodedFit(bytes: seq<byte>)
    ensures Decoding(bytes).Ok? ==> WallsFit(Decoding(bytes).value.records)
  {
    BlocksFit(bytes, false, SCAN_START);
    BlocksFit(bytes, true, SCAN_START);
  }

  class ReplaySource {
    const linkType: LinkType
    var frames: seq<RawFrame>
    var wallNanos: seq<u64>
    var cursor: nat
    var batchSize: nat
    var incomplete: bool

    ghost predicate Valid()
      reads this
    {
      cursor <= |frames| && |wallNanos| == |frames| && batchSize >= 1
    }

    constructor FromParsed(parsed: PcapngFile)
      ensures Valid() && cursor == 0 && batchSize == 64
      ensures linkType == parsed.linkType && incomplete == parsed.truncated
      ensures frames == Frames(parsed.records, 0) && wallNanos == Walls(parsed.records)
    {
      var base: u64 := if parsed.records == [] then 0 else Wall(parsed.records[0]);
      var fs: seq<RawFrame> := [];
      var ws: seq<u64> := [];
      for i := 0 to |parsed.records|
        invariant |fs| == i && fs == Frames(parsed.records, 0)[..i]
        invariant |ws| == i && ws == Walls(parsed.records)[..i]
      {
        var wall := Wall(parsed.records[i]);
        fs := fs + [RawFrame(SatSub(wall, base), 0, parsed.records[i].data)];
        ws := ws + [wall];
      }
      linkType := parsed.linkType;
      frames := fs;
      wallNanos := ws;
      cursor := 0;
      batchSize := 64;
      incomplete := parsed.truncated;
    }

    static method FromRecording(rec: SealedRecording) returns (r: Result<ReplaySource, PcapngError>)
      ensures r.Ok? <==> Decoding(rec.pcapngBytes).Ok?
      ensures r.Err? ==> r.error == Decoding(rec.pcapngBytes).error
      ensures r.Ok? ==>
        var parsed := Decoding(rec.pcapngBytes).value;
        && fresh(r.value) && r.value.Valid() && r.value.cursor == 0 && r.value.batchSize == 64
        && r.value.linkType == parsed.linkType && r.value.incomplete == parsed.truncated
        && WallsFit(parsed.records)
        && r.value.frames == Frames(parsed.records, 0) && r.value.wallNanos == Walls(parsed.records)
    {
      var parsed := Parse(rec.pcapngBytes);
      DecodedFit(rec.pcapngBytes);
      if parsed.Err? {
        return Err(parsed.error);
      }
      var source := new ReplaySource.FromParsed(parsed.value);
      return Ok(source);
    }

    method SetBatchSize(n: nat)
      requires Valid()
      modifies this`batchSize
      ensures Valid() && batchSize == Max(n, 1)
    {
      batchSize := Max(n, 1);
    }

    method NextBatch() returns (batch: seq<RawFrame>)
      requires Valid()
      modifies this`cursor
      ensures Valid() && old(cursor) <= cursor
      ensures batch == frames[old(cursor)..cursor]
      ensures |batch| == Min(batchSize, |frames| - old(cursor))
    {
      if cursor >= |frames| {
        return [];
      }
      var end := Min(cursor + batchSize, |frames|);
      batch := frames[cursor..end];
      cursor := end;
    }

    /** Calling `NextBatch` until it comes back empty hands out every remaining frame once, in order. */
    method Drain() returns (all: seq<RawFrame>)
      requires Valid()
      modifies this`cursor
      ensures Valid() && all == frames[old(cursor)..] && cursor == |frames|
    {
      all := [];
      while true
        invariant Valid() && old(cursor) <= cursor
        invariant all == frames[old(cursor)..cursor]
        decreases |frames| - cursor
      {
        var batch := NextBatch();
        if batch == [] {
          break;
        }
        all := all + batch;
      }
    }
  }

  // ---------------------------------------------------------------- seeking

  /** The largest frame index among the checkpoints at or before `t`, or 0. */
  function NewestAt(cks: seq<Checkpoint>, t: u64): (i: nat)
    ensures forall c :: c in cks && c.monoNanos <= t ==> c.frameIndex <= i
    ensures i == 0 || exists c :: c in cks && c.monoNanos <= t && c.frameIndex == i
  {
    if cks == [] then 0
    else
      var rest := NewestAt(cks[..|cks| - 1], t);
      var last := cks[|cks| - 1];
      assert cks == cks[..|cks| - 1] + [last];
      if last.monoNanos <= t then Max(rest, last.frameIndex) else rest
  }

  function SeekStart(times: seq<u64>, cks: seq<Checkpoint>, t: u64): (i: nat) {
    Min(NewestAt(cks, t), SatSub(|times|, 1))
  }

  /** Step forward from `i` while the next frame is not after `t`. */
  function AdvanceFrom(times: seq<u64>, i: nat, t: u64): (j: nat)
    ensures j >= i
    decreases |times| - i
  {
    if i + 1 < |times| && times[i + 1] <= t then AdvanceFrom(times, i + 1, t) else i
  }

  function SeekIndex(times: seq<u64>, cks: seq<Checkpoint>, t: u64): nat {
    AdvanceFrom(times, SeekStart(times, cks, t), t)
  }

  /** Playing from the start up to `t`. */
  function LinearScan(times: seq<u64>, t: u64): nat { AdvanceFrom(times, 0, t) }

  predicate Nondecreasing(times: seq<u64>) {
    forall i, j :: 0 <= i < j < |times| ==> times[i] <= times[j]
  }

  datatype ReplayState = ReplayState(
    positionNanos: u64, totalNanos: u64, speedPercent: u32, playing: bool, frameIndex: nat, incomplete: bool)

  class ReplayController {
    const frameTimes: seq<u64>
    const checkpoints: seq<Checkpoint>
    const totalNanos: u64
    const incomplete: bool
    var cursor: nat
    var speedPercent: u32
    var playing: bool

    /** The cursor is a frame, or 0 when there are none, and time never stops. */
    ghost predicate Valid()
      reads this
    {
      && cursor <= SatSub(|frameTimes|, 1) && 1 <= speedPercent <= 10_000
      && totalNanos == (if frameTimes == [] then 0 else frameTimes[|frameTimes| - 1])
    }

    constructor Load(times: seq<u64>, cks: seq<Checkpoint>, truncated: bool)
      ensures Valid() && cursor == 0 && speedPercent == 100 && !playing
      ensures frameTimes == times && checkpoints == cks && incomplete == truncated
    {
      frameTimes := times;
      checkpoints := cks;
      totalNanos := if times == [] then 0 else times[|times| - 1];
      incomplete := truncated;
      cursor := 0;
      speedPercent := 100;
      playing := false;
    }

    static method FromRecording(rec: SealedRecording) returns (r: Result<ReplayController, PcapngError>)
      ensures r.Ok? <==> Decoding(rec.pcapngBytes).Ok?
      ensures r.Err? ==> r.error == Decoding(rec.pcapngBytes).error
      ensures r.Ok? ==>
        var parsed := Decoding(rec.pcapngBytes).value;
        && fresh(r.value) && r.value.Valid() && r.value.cursor == 0
        && r.value.speedPercent == 100 && !r.value.playing
        && WallsFit(parsed.records) && r.value.frameTimes == Times(parsed.records)
        && r.value.checkpoints == rec.manifest.checkpoints && r.value.incomplete == parsed.truncated
    {
      var parsed := Parse(rec.pcapngBytes);
      DecodedFit(rec.pcapngBytes);
      if parsed.Err? {
        return Err(parsed.error);
      }
      var file := parsed.value;
      var controller := new ReplayController.Load(Times(file.records), rec.manifest.checkpoints, file.truncated);
      return Ok(controller);
    }

    method Play()
      requires Valid()
      modifies this`playing
      ensures Valid() && playing
    {
      playing := true;
    }

    method Pause()
      requires Valid()
      modifies this`playing
      ensures Valid() && !playing
    {
      playing := false;
    }

    method SetSpeed(percent: u32)
      requires Valid()
      modifies this`speedPercent
      ensures Valid() && speedPercent == Min(Max(percent, 1), 10_000)
    {
      speedPercent := Min(Max(percent, 1), 10_000);
    }

    method Step()
      requires Valid()
      modifies this`cursor
      ensures Valid() && cursor == Min(old(cursor) + 1, SatSub(|frameTimes|, 1))
    {
      if cursor + 1 < |frameTimes| {
        cursor := cursor + 1;
      }
    }

    /** `steps` counts the turns of the advance loop. */
    method Seek(monoNanos: u64) returns (ghost steps: nat)
      requires Valid()
      modifies this`cursor
      ensures Valid() && cursor == SeekIndex(frameTimes, checkpoints, monoNanos)
      ensures steps == cursor - SeekStart(frameTimes, checkpoints, monoNanos)
    {
      var idx := 0;
      for i := 0 to |checkpoints|
        invariant idx == NewestAt(checkpoints[..i], monoNanos)
      {
        assert checkpoints[..i + 1][..i] == checkpoints[..i];
        if checkpoints[i].monoNanos <= monoNanos {
          idx := Max(idx, checkpoints[i].frameIndex);
        }
      }
      assert checkpoints[..|checkpoints|] == checkpoints;
      idx := Min(idx, SatSub(|frameTimes|, 1));
      steps := 0;
      while idx + 1 < |frameTimes| && frameTimes[idx + 1] <= monoNanos
        invariant idx <= SatSub(|frameTimes|, 1)
        invariant AdvanceFrom(frameTimes, idx, monoNanos) == SeekIndex(frameTimes, checkpoints, monoNanos)
        invariant steps == idx - SeekStart(frameTimes, checkpoints, monoNanos)
        decreases |frameTimes| - idx
      {
        idx := idx + 1;
        steps := steps + 1;
      }
      cursor := idx;
    }

    function State(): (s: ReplayState)
      reads this
      requires Valid()
      ensures s.frameIndex == cursor && s.totalNanos == totalNanos && s.incomplete == incomplete
      ensures s.playing == playing && s.speedPercent == speedPercent
      ensures frameTimes == [] ==> s.positionNanos == 0
      ensures frameTimes != [] ==> s.positionNanos == frameTimes[s.frameIndex]
    {
      var position := if cursor < |frameTimes| then frameTimes[cursor] else 0;
      ReplayState(position, totalNanos, speedPercent, playing, cursor, incomplete)
    }
  }

  /** On ordered times the scan stops at the last frame at or before `t`, if it started at one. */
  lemma {:induction false} AdvanceLands(times: seq<u64>, i: nat, t: u64)
    requires Nondecreasing(times) && i < |times|
    ensures AdvanceFrom(times, i, t) < |times|
    ensures forall j :: AdvanceFrom(times, i, t) < j < |times| ==> times[j] > t
    ensures times[i] <= t ==> times[AdvanceFrom(times, i, t)] <= t
    ensures times[i] > t ==> AdvanceFrom(times, i, t) == i
    decreases |times| - i
  {
    if i + 1 < |times| && times[i + 1] <= t {
      AdvanceLands(times, i + 1, t);
    }
  }

  /** One seek agrees with the linear scan exactly when the frame it starts from is not after the target. */
  lemma SeekExact(times: seq<u64>, cks: seq<Checkpoint>, t: u64)
    requires Nondecreasing(times) && (times != [] ==> times[0] == 0)
    ensures SeekIndex(times, cks, t) == LinearScan(times, t) <==>
            times == [] || times[SeekStart(times, cks, t)] <= t
    ensures times != [] ==> LinearScan(times, t) < |times| && times[LinearScan(times, t)] <= t
    ensures forall j :: LinearScan(times, t) < j < |times| ==> times[j] > t
  {
    if times != [] {
      AdvanceLands(times, 0, t);
      AdvanceLands(times, SeekStart(times, cks, t), t);
    }
  }

  /** The checkpoint's time is not before the time of the frame it leads to. */
  predicate Sound(times: seq<u64>, c: Checkpoint) {
    times == [] || times[Min(c.frameIndex, |times| - 1)] <= c.monoNanos
  }

  /** Every seek is exact precisely when every checkpoint is sound. */
  lemma SeekExactForAll(times: seq<u64>, cks: seq<Checkpoint>)
    requires Nondecreasing(times) && (times != [] ==> times[0] == 0)
    ensures (forall t: u64 :: SeekIndex(times, cks, t) == LinearScan(times, t)) <==>
            (forall c :: c in cks ==> Sound(times, c))
  {
    if forall c :: c in cks ==> Sound(times, c) {
      forall t: u64
        ensures SeekIndex(times, cks, t) == LinearScan(times, t)
      {
        SeekExact(times, cks, t);
      }
    } else {
      var c :| c in cks && !Sound(times, c);
      var t := c.monoNanos;
      assert times[SeekStart(times, cks, t)] > t;
      SeekExact(times, cks, t);
      assert SeekIndex(times, cks, t) != LinearScan(times, t);
    }
  }

  lemma {:induction false} AdvanceThrough(times: seq<u64>, i: nat, j: nat, t: u64)
    requires i <= j && (j < |times| || j == i) && forall k :: i < k <= j ==> times[k] <= t
    ensures AdvanceFrom(times, i, t) == AdvanceFrom(times, j, t)
    decreases j - i
  {
    if i < j {
      assert times[i + 1] <= t;
      AdvanceThrough(times, i + 1, j, t);
    }
  }

  lemma {:induction false} AdvancedOver(times: seq<u64>, i: nat, t: u64)
    ensures AdvanceFrom(times, i, t) < |times| || AdvanceFrom(times, i, t) == i
    ensures forall k :: i < k <= AdvanceFrom(times, i, t) ==> times[k] <= t
    decreases |times| - i
  {
    if i + 1 < |times| && times[i + 1] <= t {
      AdvancedOver(times, i + 1, t);
    }
  }

  /**
   * Nothing keeps the frame times ascending: a wall clock may step back. On any times one seek agrees with the linear
   * scan exactly when no frame up to the one it starts from, after the first, is past the target. Otherwise the scan
   * has stopped before that frame and the seek lands beyond it.
   */
  lemma SeekOnAnyClock(times: seq<u64>, cks: seq<Checkpoint>, t: u64)
    ensures SeekIndex(times, cks, t) == LinearScan(times, t) <==>
            forall j :: 1 <= j <= SeekStart(times, cks, t) ==> times[j] <= t
    ensures SeekIndex(times, cks, t) >= LinearScan(times, t)
  {
    var start := SeekStart(times, cks, t);
    AdvancedOver(times, 0, t);
    AdvancedOver(times, start, t);
    if forall j :: 1 <= j <= start ==> times[j] <= t {
      AdvanceThrough(times, 0, start, t);
    } else if LinearScan(times, t) >= start {
      assert false;
    }
  }

  /** No frame up to the one the checkpoint leads to, after the first, is past the checkpoint's time. */
  predicate Covers(times: seq<u64>, c: Checkpoint) {
    forall j :: 1 <= j <= c.frameIndex && j < |times| ==> times[j] <= c.monoNanos
  }

  /** On any times every seek is exact precisely when every checkpoint covers the frames before it. */
  lemma SeekForAllOnAnyClock(times: seq<u64>, cks: seq<Checkpoint>)
    ensures (forall t: u64 :: SeekIndex(times, cks, t) == LinearScan(times, t)) <==>
            (forall c :: c in cks ==> Covers(times, c))
  {
    hide SeekIndex;
    hide LinearScan;
    if forall c :: c in cks ==> Covers(times, c) {
      forall t: u64
        ensures SeekIndex(times, cks, t) == LinearScan(times, t)
      {
        SeekOnAnyClock(times, cks, t);
      }
    } else {
      var c :| c in cks && !Covers(times, c);
      SeekOnAnyClock(times, cks, c.monoNanos);
    }
  }

  // ---------------------------------------------------------------- record, seal, cut, load

  function Records(cs: seq<Capture>): (rs: seq<PcapRecord>)
    ensures |rs| == |cs| && forall i :: 0 <= i < |cs| ==> rs[i] == cs[i].record
  {
    seq(|cs|, i requires 0 <= i < |cs| => cs[i].record)
  }

  /** What a recording's file can hold: blocks within 32 bits. */
  predicate Recordable(cs: seq<Capture>) {
    |cs| <= TWO_64 && forall i :: 0 <= i < |cs| ==> Writable(cs[i].record)
  }

  /** The nanoseconds of the record's whole seconds fit 64 bits. */
  predicate SecondsFit(r: PcapRecord) { r.tsSecs * NANOS_PER_SEC < TWO_64 }

  predicate ClocksFit(cs: seq<Capture>) { forall i :: 0 <= i < |cs| ==> SecondsFit(cs[i].record) }

  /**
   * The file keeps a record's wall time, normalised or not, exactly when the nanoseconds of its seconds fit: past that
   * the writer's product saturates, at an odd number, and the importer's wraps, to an even one.
   */
  lemma WallOnDisk(r: PcapRecord)
    ensures Wall(OnDisk(r)) == Wall(r) <==> SecondsFit(r)
  {
    var w := WallNanos(r);
    assert w == w / NANOS_PER_SEC * NANOS_PER_SEC + w % NANOS_PER_SEC;
    var p := r.tsSecs * NANOS_PER_SEC;
    assert p == 2 * (500_000_000 * r.tsSecs);
    if !SecondsFit(r) {
      NotCongruent(500_000_000 * r.tsSecs, r.tsNanos);
    }
  }

  lemma NotCongruent(half: nat, n: nat)
    ensures (2 * half + n) % TWO_64 != (U64_MAX + n) % TWO_64
  {
    var a, b := 2 * half + n, U64_MAX + n;
    assert a == a / TWO_64 * TWO_64 + a % TWO_64;
    assert b == b / TWO_64 * TWO_64 + b % TWO_64;
  }

  lemma StoredKeeps(level: PayloadLevel, cs: seq<Capture>)
    requires Recordable(cs)
    ensures AllWritable(StoredAll(level, cs))
    ensures forall i :: 0 <= i < |cs| ==> StoredAll(level, cs)[i].(origLen := 0) == Records(cs)[i].(origLen := 0)
  {
    forall i | 0 <= i < |cs|
      ensures Writable(StoredAll(level, cs)[i])
    {
      assert |StoredAll(level, cs)[i].data| == |cs[i].record.data|;
    }
  }

  /** Length of the recording's frame data. */
  function DataLength(scope: Scope, cs: seq<Capture>): nat { 60 + EpbsLength(StoredAll(scope.level, cs)) }

  /** Loading a sealed recording whose frame data was cut anywhere past the headers: the frames up to the cut. */
  lemma CutRecording(link: LinkType, scope: Scope, api: u32, cs: seq<Capture>, n: nat)
    requires Recordable(cs)
    requires 60 <= n <= DataLength(scope, cs)
    ensures
      var stored := StoredAll(scope.level, cs);
      var k := WholeCount(stored, n - 60);
      Decoding(SealOf(link, scope, api, cs).pcapngBytes[..n]) ==
      Ok(PcapngFile(link, AllOnDisk(stored[..k]), LeftOver(stored, n - 60) >= 12))
  {
    hide Decoding;
    hide WholeCount;
    hide LeftOver;
    hide Writable;
    StoredKeeps(scope.level, cs);
    CutFile(link, StoredAll(scope.level, cs), n);
  }

  /** The whole recording is read as what was stored, with the times as the file keeps them. */
  lemma WholeRecording(link: LinkType, scope: Scope, api: u32, cs: seq<Capture>)
    requires Recordable(cs)
    ensures
      var stored := StoredAll(scope.level, cs);
      var read := Decoding(SealOf(link, scope, api, cs).pcapngBytes);
      && read == Ok(PcapngFile(link, AllOnDisk(stored), false))
      && (AllOnDisk(stored) == stored <==> forall i :: 0 <= i < |cs| ==> Representable(cs[i].record))
  {
    hide Decoding;
    hide Encoding;
    hide OnDisk;
    StoredKeeps(scope.level, cs);
    var stored := StoredAll(scope.level, cs);
    WholeFile(link, stored);
    forall i | 0 <= i < |cs|
      ensures AllOnDisk(stored)[i] == stored[i] <==> Representable(cs[i].record)
    {
      OnDiskSame(stored[i]);
    }
    if forall i :: 0 <= i < |cs| ==> Representable(cs[i].record) {
      assert AllOnDisk(stored) == stored;
    }
  }

  /**
   * Replay equals import: over the recording, cut anywhere past its headers, the link type and the frame data are
   * those of importing the frames recorded before the cut, and so are the wall times exactly when each of them fits.
   * The replayed frames, times included, are then the imported ones.
   */
  lemma ReplayEqualsImport(link: LinkType, scope: Scope, api: u32, cs: seq<Capture>, n: nat)
    requires Recordable(cs)
    requires 60 <= n <= DataLength(scope, cs)
    ensures
      var parsed := Decoding(SealOf(link, scope, api, cs).pcapngBytes[..n]);
      && parsed.Ok? && parsed.value.linkType == link
      && var k := |parsed.value.records|;
      && k <= |cs| && (n == DataLength(scope, cs) ==> k == |cs|)
      && (forall i :: 0 <= i < k ==> parsed.value.records[i].data == cs[i].record.data)
      && (Walls(parsed.value.records) == Walls(Records(cs)[..k]) <==> ClocksFit(cs[..k]))
      && (ClocksFit(cs[..k]) ==> Frames(parsed.value.records, 0) == Frames(Records(cs)[..k], 0))
  {
    hide Decoding;
    hide WholeCount;
    hide Encoding;
    hide SecondsFit;
    var stored := StoredAll(scope.level, cs);
    StoredKeeps(scope.level, cs);
    CutRecording(link, scope, api, cs, n);
    WholeCountAll(stored);
    SameFeed(stored, cs, WholeCount(stored, n - 60));
  }

  /** The feed depends on the timestamps and the bytes alone. */
  lemma SameFeed(stored: seq<PcapRecord>, cs: seq<Capture>, k: nat)
    requires |stored| == |cs| && k <= |stored|
    requires forall i :: 0 <= i < |cs| ==> stored[i].(origLen := 0) == Records(cs)[i].(origLen := 0)
    ensures
      var read := AllOnDisk(stored[..k]);
      && (forall i :: 0 <= i < k ==> read[i].data == cs[i].record.data)
      && (Walls(read) == Walls(Records(cs)[..k]) <==> ClocksFit(cs[..k]))
      && (ClocksFit(cs[..k]) ==> Frames(read, 0) == Frames(Records(cs)[..k], 0))
  {
    var read, captured := AllOnDisk(stored[..k]), Records(cs)[..k];
    forall i | 0 <= i < k
      ensures Walls(read)[i] == Walls(captured)[i] <==> SecondsFit(cs[i].record)
      ensures read[i].data == cs[i].record.data
    {
      WallOnDisk(stored[i]);
      assert stored[i].(origLen := 0) == Records(cs)[i].(origLen := 0);
    }
    hide Wall;
    hide SecondsFit;
    if ClocksFit(cs[..k]) {
      assert forall i :: 0 <= i < k ==> SecondsFit(cs[..k][i].record);
      assert Walls(read) == Walls(captured);
      assert Times(read) == Times(captured);
      assert Frames(read, 0) == Frames(captured, 0);
    }
  }

  /** Wall time never runs backwards. */
  predicate WallOrdered(cs: seq<Capture>) { Nondecreasing(Walls(Records(cs))) }

  /** Frame i's time since the first frame, on the wall clock. */
  function Since0(cs: seq<Capture>, i: nat): u64
    requires i < |cs|
  {
    Times(Records(cs))[i]
  }

  /** Monotonic times are ordered and wall time advances in step with them, from any starting offset. */
  predicate InStep(cs: seq<Capture>) {
    && (forall i, j :: 0 <= i < j < |cs| ==> cs[i].monoNanos <= cs[j].monoNanos)
    && (forall i :: 0 <= i < |cs| ==>
          Wall(cs[i].record) - Wall(cs[0].record) == cs[i].monoNanos - cs[0].monoNanos)
  }

  lemma InStepOrdered(cs: seq<Capture>)
    requires InStep(cs)
    ensures WallOrdered(cs)
    ensures forall i :: 0 <= i < |cs| ==> Since0(cs, i) == cs[i].monoNanos - cs[0].monoNanos
  {
    assert forall i, j :: 0 <= i < j < |cs| ==> Wall(cs[i].record) <= Wall(cs[j].record);
  }

  lemma TimesOrdered(cs: seq<Capture>)
    requires WallOrdered(cs)
    ensures Nondecreasing(Times(Records(cs)))
    ensures cs != [] ==> Times(Records(cs))[0] == 0
  {
    var ws := Walls(Records(cs));
    assert forall i, j :: 0 <= i < j < |cs| ==> ws[i] <= ws[j];
  }

  /** The times a controller loads from a recording cut at `n`. */
  function LoadedTimes(link: LinkType, scope: Scope, api: u32, cs: seq<Capture>, n: nat): seq<u64>
    requires Recordable(cs)
    requires 60 <= n <= DataLength(scope, cs)
  {
    CutRecording(link, scope, api, cs, n);
    DecodedFit(SealOf(link, scope, api, cs).pcapngBytes[..n]);
    Times(Decoding(SealOf(link, scope, api, cs).pcapngBytes[..n]).value.records)
  }

  lemma LoadedArePrefix(link: LinkType, scope: Scope, api: u32, cs: seq<Capture>, n: nat)
    requires Recordable(cs) && ClocksFit(cs)
    requires 60 <= n <= DataLength(scope, cs)
    ensures LoadedTimes(link, scope, api, cs, n) <= Times(Records(cs))
    ensures n == DataLength(scope, cs) ==> LoadedTimes(link, scope, api, cs, n) == Times(Records(cs))
  {
    hide Decoding;
    hide Encoding;
    hide Wall;
    ReplayEqualsImport(link, scope, api, cs, n);
    var records := Decoding(SealOf(link, scope, api, cs).pcapngBytes[..n]).value.records;
    var k := |records|;
    assert forall i :: 0 <= i < k ==> cs[..k][i] == cs[i];
    forall i | 0 <= i < k
      ensures Times(records)[i] == Times(Records(cs))[i]
    {
      assert Frames(records, 0)[i] == Frames(Records(cs)[..k], 0)[i];
    }
  }

  /** The frame's number is a multiple of the scope's cadence. */
  predicate OnCadence(scope: Scope, i: nat) { scope.checkpointEvery > 0 && i % scope.checkpointEvery == 0 }

  /**
   * Seeking after push, finalize and load: for ordered wall clocks every target lands where the linear scan does,
   * precisely when no checkpointed frame's monotonic time is behind its time since the first frame.
   */
  lemma SeekEndToEnd(link: LinkType, scope: Scope, api: u32, cs: seq<Capture>)
    requires Recordable(cs) && ClocksFit(cs) && WallOrdered(cs)
    ensures
      var times := LoadedTimes(link, scope, api, cs, DataLength(scope, cs));
      var cks := SealOf(link, scope, api, cs).manifest.checkpoints;
      (forall t: u64 :: SeekIndex(times, cks, t) == LinearScan(times, t)) <==>
      (forall i :: 0 <= i < |cs| && OnCadence(scope, i) ==> Since0(cs, i) <= cs[i].monoNanos)
  {
    hide Encoding;
    hide CheckpointsOf;
    hide SeekIndex;
    hide LinearScan;
    hide Wall;
    hide Times;
    hide LoadedTimes;
    LoadedArePrefix(link, scope, api, cs, DataLength(scope, cs));
    var times := Times(Records(cs));
    var cks := CheckpointsOf(scope.checkpointEvery, cs);
    CheckpointsExact(scope.checkpointEvery, cs);
    TimesOrdered(cs);
    SeekExactForAll(times, cks);
    forall i | 0 <= i < |cs| && OnCadence(scope, i)
      ensures Checkpoint(i, cs[i].monoNanos) in cks
    {
    }
    if forall c :: c in cks ==> Sound(times, c) {
      forall i | 0 <= i < |cs| && OnCadence(scope, i)
        ensures Since0(cs, i) <= cs[i].monoNanos
      {
        assert Sound(times, Checkpoint(i, cs[i].monoNanos));
      }
    }
  }

  /**
   * The same for any wall clock: every seek is exact precisely when no frame from the second up to a checkpointed one
   * has a time since the first frame that is past the checkpoint's monotonic time.
   */
  lemma SeekEndToEndOnAnyClock(link: LinkType, scope: Scope, api: u32, cs: seq<Capture>)
    requires Recordable(cs) && ClocksFit(cs)
    ensures
      var times := LoadedTimes(link, scope, api, cs, DataLength(scope, cs));
      var cks := SealOf(link, scope, api, cs).manifest.checkpoints;
      (forall t: u64 :: SeekIndex(times, cks, t) == LinearScan(times, t)) <==>
      (forall i :: 0 <= i < |cs| && OnCadence(scope, i) ==>
         forall j :: 1 <= j <= i ==> Since0(cs, j) <= cs[i].monoNanos)
  {
    hide Encoding;
    hide CheckpointsOf;
    hide SeekIndex;
    hide LinearScan;
    hide Wall;
    hide Times;
    hide LoadedTimes;
    LoadedArePrefix(link, scope, api, cs, DataLength(scope, cs));
    var times := Times(Records(cs));
    var cks := CheckpointsOf(scope.checkpointEvery, cs);
    CheckpointsExact(scope.checkpointEvery, cs);
    SeekForAllOnAnyClock(times, cks);
    if forall c :: c in cks ==> Covers(times, c) {
      forall i, j | 0 <= i < |cs| && OnCadence(scope, i) && 1 <= j <= i
        ensures Since0(cs, j) <= cs[i].monoNanos
      {
        assert Covers(times, Checkpoint(i, cs[i].monoNanos));
        assert times[j] == Since0(cs, j);
      }
    }
    if forall i :: 0 <= i < |cs| && OnCadence(scope, i) ==>
         forall j :: 1 <= j <= i ==> Since0(cs, j) <= cs[i].monoNanos {
      forall c | c in cks
        ensures Covers(times, c)
      {
        var i := c.frameIndex;
        assert OnCadence(scope, i);
        assert forall j :: 1 <= j <= i ==> Since0(cs, j) <= cs[i].monoNanos;
        assert forall j :: 1 <= j <= i ==> times[j] == Since0(cs, j);
      }
    }
  }

  /** With clocks in step, seeking is exact for every target, on the recording and on any cut of it past the headers. */
  lemma SeekExactWhenInStep(link: LinkType, scope: Scope, api: u32, cs: seq<Capture>, n: nat, t: u64)
    requires Recordable(cs) && ClocksFit(cs) && InStep(cs)
    requires 60 <= n <= DataLength(scope, cs)
    ensures
      var times := LoadedTimes(link, scope, api, cs, n);
      var at := SeekIndex(times, SealOf(link, scope, api, cs).manifest.checkpoints, t);
      && at == LinearScan(times, t)
      && (times != [] ==> at < |times| && times[at] <= t && forall j :: at < j < |times| ==> times[j] > t)
  {
    hide Decoding;
    hide LoadedTimes;
    hide SeekIndex;
    hide LinearScan;
    hide Encoding;
    hide CheckpointsOf;
    hide Wall;
    var times := LoadedTimes(link, scope, api, cs, n);
    var all := Times(Records(cs));
    var cks := CheckpointsOf(scope.checkpointEvery, cs);
    InStepOrdered(cs);
    TimesOrdered(cs);
    LoadedArePrefix(link, scope, api, cs, n);
    CheckpointsExact(scope.checkpointEvery, cs);
    forall c | c in cks
      ensures Sound(times, c)
    {
      assert all[c.frameIndex] == Since0(cs, c.frameIndex);
      if times != [] {
        var i := Min(c.frameIndex, |times| - 1);
        assert times[i] == all[i] <= all[c.frameIndex];
      }
    }
    SeekExactForAll(times, cks);
    SeekExact(times, cks, t);
  }

  /** Every seek takes fewer than `k` advance steps. */
  ghost predicate SeeksWithin(times: seq<u64>, cks: seq<Checkpoint>, k: nat) {
    forall t: u64 :: SeekIndex(times, cks, t) < SeekStart(times, cks, t) + k
  }

  /**
   * The cost claim: with clocks in step and a checkpoint every k frames, every seek advances at most k-1 frames
   * precisely when the first monotonic time is zero or there are at most k frames.
   */
  lemma SeekCost(k: u64, cs: seq<Capture>)
    requires |cs| <= TWO_64 && InStep(cs) && cs != [] && k > 0
    ensures SeeksWithin(Times(Records(cs)), CheckpointsOf(k, cs), k) <==>
            (cs[0].monoNanos == 0 || |cs| <= k)
  {
    if cs[0].monoNanos == 0 || |cs| <= k {
      forall t: u64
        ensures SeekIndex(Times(Records(cs)), CheckpointsOf(k, cs), t) <
                SeekStart(Times(Records(cs)), CheckpointsOf(k, cs), t) + k
      {
        SeekIsNear(k, cs, t);
      }
    } else {
      SeekIsFar(k, cs);
    }
  }

  /** From a nonzero offset, seeking to the first checkpointed frame after the start scans a whole spacing. */
  lemma SeekIsFar(k: u64, cs: seq<Capture>)
    requires |cs| <= TWO_64 && InStep(cs) && 0 < k < |cs|
    requires cs[0].monoNanos > 0
    ensures
      var times := Times(Records(cs));
      var cks := CheckpointsOf(k, cs);
      SeekIndex(times, cks, times[k]) - SeekStart(times, cks, times[k]) >= k
  {
    var times, cks := Times(Records(cs)), CheckpointsOf(k, cs);
    var t := times[k];
    CheckpointsExact(k, cs);
    InStepOrdered(cs);
    TimesOrdered(cs);
    forall c | c in cks && c.monoNanos <= t
      ensures c.frameIndex == 0
    {
      var i := c.frameIndex;
      assert times[i] == Since0(cs, i) < t;
      assert i < k;
      SmallMod(i, k);
    }
    AdvanceLands(times, SeekStart(times, cks, t), t);
  }

  lemma SmallMod(i: nat, k: nat)
    requires i < k
    ensures i % k == i
  {
  }

  lemma SeekIsNear(k: u64, cs: seq<Capture>, t: u64)
    requires |cs| <= TWO_64 && InStep(cs) && cs != [] && k > 0
    requires cs[0].monoNanos == 0 || |cs| <= k
    ensures
      var times := Times(Records(cs));
      var cks := CheckpointsOf(k, cs);
      SeekIndex(times, cks, t) - SeekStart(times, cks, t) < k
  {
    hide Encoding;
    hide CheckpointsOf;
    hide Wall;
    hide InStep;
    hide NewestAt;
    var times, cks := Times(Records(cs)), CheckpointsOf(k, cs);
    CheckpointsExact(k, cs);
    InStepOrdered(cs);
    TimesOrdered(cs);
    AdvanceLands(times, SeekStart(times, cks, t), t);
    if cs[0].monoNanos == 0 && SeekIndex(times, cks, t) > SeekStart(times, cks, t) {
      var r := SeekIndex(times, cks, t);
      assert times[r] <= t;
      var j := r - r % k;
      MultipleBelow(r, k);
      assert times[j] == Since0(cs, j) == cs[j].monoNanos;
      assert Checkpoint(j, cs[j].monoNanos) in cks;
    }
  }
}
