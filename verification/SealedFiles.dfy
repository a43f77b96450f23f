/** What a sealed recording discloses, and what any cut of its file replays. */
module SealedFiles {
  import opened Wrappers
  import opened Bytes
  import opened Pcapng
  import opened FileSource
  import opened Recording
  import opened Replay

  // ---------------------------------------------------------------- the payload level

  /**
   * The recorder enforces no payload level: whatever a level is taken to permit, every frame that reads back from the
   * sealed recording is permitted exactly when every frame handed to the recorder was.
   */
  lemma PermittedIffCaptured(permitted: (PayloadLevel, seq<byte>) -> bool,
                             link: LinkType, scope: Scope, api: u32, cs: seq<Capture>)
    requires Recordable(cs)
    ensures
      var read := Decoding(SealOf(link, scope, api, cs).pcapngBytes);
      && read.Ok? && |read.value.records| == |cs|
      && ((forall i :: 0 <= i < |cs| ==> permitted(scope.level, read.value.records[i].data)) <==>
          (forall i :: 0 <= i < |cs| ==> permitted(scope.level, cs[i].record.data)))
  {
    hide Decoding;
    hide Encoding;
    WholeRecording(link, scope, api, cs);
    SameData(scope.level, cs);
  }

  lemma SameData(level: PayloadLevel, cs: seq<Capture>)
    ensures forall i :: 0 <= i < |cs| ==> StoredAll(level, cs)[i].data == cs[i].record.data
  {
  }

  /** Some frame holds payload bytes, by whatever test. */
  predicate AnyBears(bears: seq<byte> -> bool, rs: seq<PcapRecord>) { exists i :: 0 <= i < |rs| && bears(rs[i].data) }

  /**
   * The manifest's statement that payloads are contained agrees with the frames exactly when the scope's level is full
   * payload just if some captured frame bears payload.
   */
  lemma ManifestAgrees(bears: seq<byte> -> bool, link: LinkType, scope: Scope, api: u32, cs: seq<Capture>)
    requires Recordable(cs)
    ensures
      var sealed := SealOf(link, scope, api, cs);
      var read := Decoding(sealed.pcapngBytes);
      && read.Ok?
      && ((sealed.manifest.privacy.containsPayloads <==> AnyBears(bears, read.value.records)) <==>
          (scope.level == FullPayload <==> AnyBears(bears, Records(cs))))
  {
    hide Decoding;
    hide Encoding;
    WholeRecording(link, scope, api, cs);
    SameData(scope.level, cs);
    var stored, captured := StoredAll(scope.level, cs), Records(cs);
    if i :| 0 <= i < |stored| && bears(stored[i].data) {
      assert bears(captured[i].data);
    }
    if i :| 0 <= i < |captured| && bears(captured[i].data) {
      assert bears(stored[i].data);
    }
  }

  /**
   * A metadata-only recording of one frame of 55 bytes, one more than Ethernet, IPv4 and TCP headers without options
   * take up: all 55 are in the sealed file, whose manifest says that no payload is.
   */
  lemma MetadataOnlyKeepsPayload(link: LinkType, scope: Scope, api: u32)
    requires scope.level == MetadataOnly
    ensures
      var data := Zeros(54) + [0x47];
      var sealed := SealOf(link, scope, api, [Capture(0, PcapRecord(0, 0, data, 55))]);
      && !sealed.manifest.privacy.containsPayloads
      && Decoding(sealed.pcapngBytes) == Ok(PcapngFile(link, [PcapRecord(0, 0, data, 55)], false))
  {
    hide Decoding;
    hide Encoding;
    var frame := PcapRecord(0, 0, Zeros(54) + [0x47], 55);
    var cs := [Capture(0, frame)];
    WholeRecording(link, scope, api, cs);
    assert Representable(frame);
    assert StoredAll(scope.level, cs) == [frame];
  }

  // ---------------------------------------------------------------- cutting the file

  /** Every seek agrees with the linear scan and lands on the last frame at or before its target. */
  ghost predicate SeeksExactly(times: seq<u64>, cks: seq<Checkpoint>) {
    forall t: u64 :: SeeksExactlyTo(times, cks, t)
  }

  predicate SeeksExactlyTo(times: seq<u64>, cks: seq<Checkpoint>, t: u64) {
    var at := SeekIndex(times, cks, t);
    && at == LinearScan(times, t)
    && (times != [] ==> at < |times| && times[at] <= t && forall j :: at < j < |times| ==> times[j] > t)
  }

  /** The frames that are whole when `n` bytes of frame data are left. */
  function FramesLeft(scope: Scope, cs: seq<Capture>, n: nat): nat {
    WholeCount(StoredAll(scope.level, cs), SatSub(n, 60))
  }

  /**
   * Any byte cut of a sealed file: an error until the manifest and the two header blocks are whole; from there it
   * replays as the import of the frames before the cut, and with clocks in step every seek is exact.
   */
  lemma CutSealedFile(json: Manifest -> seq<byte>, unjson: seq<byte> -> Option<Manifest>,
                      link: LinkType, scope: Scope, api: u32, cs: seq<Capture>, n: nat)
    requires Recordable(cs) && Invertible(json, unjson, SealOf(link, scope, api, cs).manifest)
    requires n <= |ToBytes(json, SealOf(link, scope, api, cs))|
    ensures
      var sealed := SealOf(link, scope, api, cs);
      var head := 8 + |json(sealed.manifest)|;
      var loaded := ParseContainer(unjson, ToBytes(json, sealed)[..n]);
      if n < head then loaded.Err?
      else
        && loaded.Ok? && loaded.value.manifest == sealed.manifest
        && var read := Decoding(loaded.value.pcapngBytes);
           if n < head + 60 then read.Err?
           else
             var k := FramesLeft(scope, cs, n - head);
             && read.Ok? && read.value.linkType == link && k <= |cs|
             && |read.value.records| == k
             && (forall i :: 0 <= i < k ==> read.value.records[i].data == cs[i].record.data)
             && (Walls(read.value.records) == Walls(Records(cs)[..k]) <==> ClocksFit(cs[..k]))
             && (ClocksFit(cs[..k]) ==> Frames(read.value.records, 0) == Frames(Records(cs)[..k], 0))
             && (ClocksFit(cs) && InStep(cs) ==>
                   SeeksExactly(Times(read.value.records), sealed.manifest.checkpoints))
  {
    hide ParseContainer;
    hide Decoding;
    hide SeeksExactly;
    hide InStep;
    hide Encoding;
    hide Frames;
    hide Walls;
    hide Times;
    hide ClocksFit;
    hide WholeCount;
    hide Invertible;
    var sealed := SealOf(link, scope, api, cs);
    var head := 8 + |json(sealed.manifest)|;
    CutContainer(json, unjson, sealed, n);
    FileLength(json, sealed);
    if n >= head + 60 {
      CutData(link, scope, api, cs, n - head);
    } else if n >= head {
      CutHeaders(link, scope, api, cs, n - head);
    }
  }

  lemma FileLength(json: Manifest -> seq<byte>, rec: SealedRecording)
    ensures |ToBytes(json, rec)| == 8 + |json(rec.manifest)| + |rec.pcapngBytes|
  {
  }

  lemma CutHeaders(link: LinkType, scope: Scope, api: u32, cs: seq<Capture>, n: nat)
    requires Recordable(cs) && n < 60
    ensures Decoding(SealOf(link, scope, api, cs).pcapngBytes[..n]).Err?
  {
    hide Decoding;
    StoredKeeps(scope.level, cs);
    CutFile(link, StoredAll(scope.level, cs), n);
  }

  lemma CutData(link: LinkType, scope: Scope, api: u32, cs: seq<Capture>, n: nat)
    requires Recordable(cs) && 60 <= n <= DataLength(scope, cs)
    ensures
      var sealed := SealOf(link, scope, api, cs);
      var read := Decoding(sealed.pcapngBytes[..n]);
      var k := FramesLeft(scope, cs, n);
      && read.Ok? && read.value.linkType == link && k <= |cs|
      && |read.value.records| == k
      && (forall i :: 0 <= i < k ==> read.value.records[i].data == cs[i].record.data)
      && (Walls(read.value.records) == Walls(Records(cs)[..k]) <==> ClocksFit(cs[..k]))
      && (ClocksFit(cs[..k]) ==> Frames(read.value.records, 0) == Frames(Records(cs)[..k], 0))
      && (ClocksFit(cs) && InStep(cs) ==>
            SeeksExactly(Times(read.value.records), sealed.manifest.checkpoints))
  {
    hide Decoding;
    hide SecondsFit;
    hide InStep;
    hide Encoding;
    hide Frames;
    hide Walls;
    hide WholeCount;
    hide SeeksExactlyTo;
    CutRecording(link, scope, api, cs, n);
    ReplayEqualsImport(link, scope, api, cs, n);
    if ClocksFit(cs) && InStep(cs) {
      forall t: u64
        ensures SeeksExactlyTo(
                  LoadedTimes(link, scope, api, cs, n), SealOf(link, scope, api, cs).manifest.checkpoints, t)
      {
        SeekOneExactly(link, scope, api, cs, n, t);
      }
      var read := Decoding(SealOf(link, scope, api, cs).pcapngBytes[..n]);
      assert LoadedTimes(link, scope, api, cs, n) == Times(read.value.records);
      assert SeeksExactly(Times(read.value.records), SealOf(link, scope, api, cs).manifest.checkpoints);
    }
  }

  lemma SeekOneExactly(link: LinkType, scope: Scope, api: u32, cs: seq<Capture>, n: nat, t: u64)
    requires Recordable(cs) && ClocksFit(cs) && InStep(cs) && 60 <= n <= DataLength(scope, cs)
    ensures SeeksExactlyTo(LoadedTimes(link, scope, api, cs, n), SealOf(link, scope, api, cs).manifest.checkpoints, t)
  {
    hide LoadedTimes;
    hide SeekIndex;
    hide LinearScan;
    SeekExactWhenInStep(link, scope, api, cs, n, t);
  }
}
