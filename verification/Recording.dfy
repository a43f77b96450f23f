/**
 * Recording a session: the recorder, the sealed artifact and its container form.
 * The JSON form of the manifest is a parameter: any encoding with an inverse.
 */
module Recording {
  import opened Wrappers
  import opened Arith
  import opened Bytes
  import opened Pcapng

  datatype PayloadLevel = MetadataOnly | Headers | FullPayload {
    predicate AllowsPayloads() { FullPayload? }
  }

  datatype Checkpoint = Checkpoint(frameIndex: u64, monoNanos: u64)

  datatype PrivacyManifest = PrivacyManifest(level: PayloadLevel, containsPayloads: bool, redactions: seq<string>)

  /** The versions of the parts that processed the capture. */
  datatype VersionPins = VersionPins(engine: string, decode: string, intel: string, ai: string, content: string)

  const PACKAGE_VERSION: string := "0.1.0"

  /** `VersionPins::current`: every part is pinned to the version of the build. */
  const CURRENT_PINS := VersionPins(PACKAGE_VERSION, PACKAGE_VERSION, PACKAGE_VERSION, PACKAGE_VERSION, PACKAGE_VERSION)

  datatype Manifest = Manifest(
    apiVersion: u32,
    interfaces: seq<u16>,
    filter: Option<string>,
    fromMonoNanos: u64,
    toMonoNanos: u64,
    frameCount: nat,
    pins: VersionPins,
    privacy: PrivacyManifest,
    checkpoints: seq<Checkpoint>)

  datatype SealedRecording = SealedRecording(manifest: Manifest, pcapngBytes: seq<byte>)

  datatype Scope = Scope(interfaces: seq<u16>, filter: Option<string>, level: PayloadLevel, checkpointEvery: u64)

  /** A captured frame with its monotonic time, as handed to the recorder. */
  datatype Capture = Capture(monoNanos: u64, record: PcapRecord)

  // ---------------------------------------------------------------- what a run of pushes records

  /** The frame as stored: below full payload the claimed length is at least the stored one (`len() as u32`). */
  function Stored(level: PayloadLevel, r: PcapRecord): PcapRecord {
    if level.AllowsPayloads() then r else r.(origLen := Max(r.origLen, |r.data| % TWO_32))
  }

  function StoredAll(level: PayloadLevel, cs: seq<Capture>): (rs: seq<PcapRecord>)
    ensures |rs| == |cs|
    ensures forall i :: 0 <= i < |cs| ==> rs[i] == Stored(level, cs[i].record)
  {
    seq(|cs|, i requires 0 <= i < |cs| => Stored(level, cs[i].record))
  }

  /** Frame i gets a checkpoint exactly when i is a multiple of the (nonzero) cadence. */
  predicate Marked(every: u64, i: nat) { every != 0 && i % every == 0 }

  function CheckpointsOf(every: u64, cs: seq<Capture>): (ks: seq<Checkpoint>)
    requires |cs| <= TWO_64
  {
    if cs == [] then []
    else
      var last := |cs| - 1;
      CheckpointsOf(every, cs[..last]) +
      (if Marked(every, last) then [Checkpoint(last, cs[last].monoNanos)] else [])
  }

  function Latest(cs: seq<Capture>): u64 {
    if cs == [] then 0 else Max(Latest(cs[..|cs| - 1]), cs[|cs| - 1].monoNanos)
  }

  function SealOf(link: LinkType, scope: Scope, apiVersion: u32, cs: seq<Capture>): SealedRecording
    requires |cs| <= TWO_64
  {
    SealedRecording(
      Manifest(apiVersion, scope.interfaces, scope.filter,
               if cs == [] then 0 else cs[0].monoNanos, Latest(cs), |cs|, CURRENT_PINS,
               PrivacyManifest(scope.level, scope.level.AllowsPayloads(), []),
               CheckpointsOf(scope.checkpointEvery, cs)),
      Encoding(link, StoredAll(scope.level, cs)))
  }

  /** One more frame. */
  lemma HistoryGrows(level: PayloadLevel, every: u64, cs: seq<Capture>, c: Capture)
    requires |cs| < TWO_64
    ensures StoredAll(level, cs + [c]) == StoredAll(level, cs) + [Stored(level, c.record)]
    ensures CheckpointsOf(every, cs + [c]) ==
            CheckpointsOf(every, cs) + (if Marked(every, |cs|) then [Checkpoint(|cs|, c.monoNanos)] else [])
    ensures Latest(cs + [c]) == Max(Latest(cs), c.monoNanos)
  {
    hide Stored;
    assert (cs + [c])[..|cs|] == cs;
  }

  class Recorder {
    const link: LinkType
    const scope: Scope
    var records: seq<PcapRecord>
    var checkpoints: seq<Checkpoint>
    var fromMonoNanos: Option<u64>
    var toMonoNanos: u64
    /** Everything pushed so far, in order. */
    ghost var pushed: seq<Capture>

    ghost predicate Valid()
      reads this
    {
      && |pushed| <= TWO_64
      && records == StoredAll(scope.level, pushed)
      && checkpoints == CheckpointsOf(scope.checkpointEvery, pushed)
      && fromMonoNanos == (if pushed == [] then None else Some(pushed[0].monoNanos))
      && toMonoNanos == Latest(pushed)
    }

    constructor Start(link: LinkType, scope: Scope)
      ensures Valid() && pushed == []
      ensures this.link == link && this.scope == scope
    {
      this.link := link;
      this.scope := scope;
      records := [];
      checkpoints := [];
      fromMonoNanos := None;
      toMonoNanos := 0;
      pushed := [];
    }

    method Push(monoNanos: u64, captured: PcapRecord)
      requires Valid() && |records| < TWO_64
      modifies this
      ensures Valid() && pushed == old(pushed) + [Capture(monoNanos, captured)]
    {
      hide StoredAll;
      hide CheckpointsOf;
      hide Latest;
      HistoryGrows(scope.level, scope.checkpointEvery, pushed, Capture(monoNanos, captured));
      var record := captured;
      if !scope.level.AllowsPayloads() {
        record := record.(origLen := Max(record.origLen, |record.data| % TWO_32));
      }
      var index := |records|;
      if scope.checkpointEvery != 0 && index % scope.checkpointEvery == 0 {
        checkpoints := checkpoints + [Checkpoint(index, monoNanos)];
      }
      if fromMonoNanos == None {
        fromMonoNanos := Some(monoNanos);
      }
      toMonoNanos := Max(toMonoNanos, monoNanos);
      records := records + [record];
      pushed := pushed + [Capture(monoNanos, captured)];
    }

    method Finalize(apiVersion: u32) returns (sealed: SealedRecording)
      requires Valid()
      ensures sealed == SealOf(link, scope, apiVersion, pushed)
    {
      var bytes := Write(link, records);
      sealed := SealedRecording(
        Manifest(apiVersion, scope.interfaces, scope.filter,
                 if fromMonoNanos.Some? then fromMonoNanos.value else 0, toMonoNanos, |records|, CURRENT_PINS,
                 PrivacyManifest(scope.level, scope.level.AllowsPayloads(), []),
                 checkpoints),
        bytes);
    }
  }

  /**
   * The checkpoints one by one: none if the cadence is zero, otherwise one for every `every` frames begun, the j-th for
   * frame j * every with that frame's time.
   */
  lemma {:induction false} CheckpointsSpaced(every: u64, cs: seq<Capture>)
    requires |cs| <= TWO_64
    ensures every == 0 ==> CheckpointsOf(every, cs) == []
    ensures every > 0 ==> |CheckpointsOf(every, cs)| == (|cs| + every - 1) / every
    ensures every > 0 ==>
              forall j :: 0 <= j < |CheckpointsOf(every, cs)| ==>
                0 <= j * every < |cs| &&
                CheckpointsOf(every, cs)[j] == Checkpoint(j * every, cs[j * every].monoNanos)
  {
    SpacedAll(every, cs);
    hide CheckpointsOf;
    if every > 0 {
      var q := |CheckpointsOf(every, cs)|;
      RemainderIs(|cs| + every - 1, every, q, |cs| + every - 1 - q * every);
      forall j | 0 <= j < |CheckpointsOf(every, cs)|
        ensures 0 <= j * every < |cs|
        ensures CheckpointsOf(every, cs)[j] == Checkpoint(j * every, cs[j * every].monoNanos)
      {
        assert SpacedAt(every, cs, CheckpointsOf(every, cs)[j], j);
      }
    }
  }

  predicate AllSpaced(every: u64, cs: seq<Capture>, ks: seq<Checkpoint>) {
    forall j :: 0 <= j < |ks| ==> SpacedAt(every, cs, ks[j], j)
  }

  /** The number of checkpoints, times the cadence, is the first multiple from the number of frames on. */
  lemma {:induction false} SpacedAll(every: u64, cs: seq<Capture>)
    requires |cs| <= TWO_64
    ensures every == 0 ==> CheckpointsOf(every, cs) == []
    ensures every > 0 ==> |cs| <= |CheckpointsOf(every, cs)| * every < |cs| + every
    ensures every > 0 ==> AllSpaced(every, cs, CheckpointsOf(every, cs))
  {
    hide AllSpaced;
    if cs == [] {
      NothingSpaced(every);
    } else {
      var n := |cs| - 1;
      SpacedAll(every, cs[..n]);
      var before := CheckpointsOf(every, cs[..n]);
      assert CheckpointsOf(every, cs) ==
             before + if every != 0 && n % every == 0 then [Checkpoint(n, cs[n].monoNanos)] else [];
      hide CheckpointsOf;
      if every > 0 {
        FirstMultiple(n, |before|, every);
        SpacedMore(every, cs, before);
      }
    }
  }

  lemma NothingSpaced(every: u64)
    ensures CheckpointsOf(every, []) == [] && AllSpaced(every, [], [])
  {
  }

  /** The first multiple from `n` on is `n` itself exactly when that is one; then the next is the first from there. */
  lemma FirstMultiple(n: nat, q: nat, k: nat)
    requires k > 0 && n <= q * k < n + k
    ensures n % k == 0 <==> q * k == n
    ensures (q + 1) * k == q * k + k
  {
    if q * k == n {
      ModOfMultiple(q, k);
    }
    if n % k == 0 {
      RemainderIs(q * k, k, n / k, q * k - n);
      ModOfMultiple(q, k);
    }
  }

  predicate SpacedAt(every: u64, cs: seq<Capture>, c: Checkpoint, j: nat) {
    && 0 <= j * every < |cs| && j * every < TWO_64
    && c == Checkpoint(j * every, cs[j * every].monoNanos)
  }

  lemma SpacedMore(every: u64, cs: seq<Capture>, before: seq<Checkpoint>)
    requires 0 < |cs| <= TWO_64 && every > 0
    requires AllSpaced(every, cs[..|cs| - 1], before)
    requires (|cs| - 1) % every == 0 ==> |before| * every == |cs| - 1
    ensures
      var n := |cs| - 1;
      AllSpaced(every, cs, before + if n % every == 0 then [Checkpoint(n, cs[n].monoNanos)] else [])
  {
    forall j | 0 <= j < |before|
      ensures SpacedAt(every, cs, before[j], j)
    {
      assert SpacedAt(every, cs[..|cs| - 1], before[j], j);
    }
  }

  /** The checkpoints are exactly the frames at the multiples of a nonzero cadence, in order, each with its time. */
  lemma {:induction false} CheckpointsExact(every: u64, cs: seq<Capture>)
    requires |cs| <= TWO_64
    ensures forall c :: c in CheckpointsOf(every, cs) <==>
              c.frameIndex < |cs| && every != 0 && c.frameIndex % every == 0 &&
              c.monoNanos == cs[c.frameIndex].monoNanos
    ensures forall i, j :: 0 <= i < j < |CheckpointsOf(every, cs)| ==>
              CheckpointsOf(every, cs)[i].frameIndex < CheckpointsOf(every, cs)[j].frameIndex
  {
    if cs != [] {
      var last := |cs| - 1;
      CheckpointsExact(every, cs[..last]);
      var before := CheckpointsOf(every, cs[..last]);
      forall i | 0 <= i < |before|
        ensures before[i].frameIndex < last
      {
        assert before[i] in before;
      }
    }
  }

  lemma {:induction false} LatestAbove(cs: seq<Capture>, i: nat)
    requires i < |cs|
    ensures cs[i].monoNanos <= Latest(cs)
  {
    if i < |cs| - 1 {
      LatestAbove(cs[..|cs| - 1], i);
    }
  }

  lemma {:induction false} LatestAttained(cs: seq<Capture>) returns (i: nat)
    requires cs != []
    ensures i < |cs| && cs[i].monoNanos == Latest(cs)
  {
    var n := |cs| - 1;
    if n == 0 {
      assert cs[..0] == [];
      i := n;
    } else if cs[n].monoNanos == Latest(cs) {
      i := n;
    } else {
      i := LatestAttained(cs[..n]);
    }
  }

  /** Every frame time lies at or below the manifest's end, which some frame attains. */
  lemma LatestIsMax(cs: seq<Capture>)
    ensures forall i :: 0 <= i < |cs| ==> cs[i].monoNanos <= Latest(cs)
    ensures cs != [] ==> exists i :: 0 <= i < |cs| && cs[i].monoNanos == Latest(cs)
  {
    forall i | 0 <= i < |cs|
      ensures cs[i].monoNanos <= Latest(cs)
    {
      LatestAbove(cs, i);
    }
    if cs != [] {
      var i := LatestAttained(cs);
    }
  }

  // ---------------------------------------------------------------- retroactive recording

  function Since(rolling: seq<Capture>, cutoff: nat): seq<Capture> {
    if rolling == [] then []
    else
      var last := rolling[|rolling| - 1];
      Since(rolling[..|rolling| - 1], cutoff) + (if last.monoNanos >= cutoff then [last] else [])
  }

  /** Frames from `k` on are the recent ones. */
  predicate Splits(rolling: seq<Capture>, cutoff: nat, k: nat) {
    k <= |rolling| && forall i :: 0 <= i < |rolling| ==> (rolling[i].monoNanos >= cutoff <==> i >= k)
  }

  lemma LastOfSuffix(s: seq<Capture>, k: nat)
    requires k < |s|
    ensures s[k..] == s[..|s| - 1][k..] + [s[|s| - 1]]
  {
  }

  lemma {:induction false} SinceFrom(rolling: seq<Capture>, cutoff: nat, k: nat)
    requires Splits(rolling, cutoff, k)
    ensures Since(rolling, cutoff) == rolling[k..]
  {
    if rolling != [] {
      var n := |rolling| - 1;
      var front := rolling[..n];
      assert forall i :: 0 <= i < n ==> front[i] == rolling[i];
      if k > n {
        SinceFrom(front, cutoff, n);
      } else {
        SinceFrom(front, cutoff, k);
        LastOfSuffix(rolling, k);
      }
    }
  }

  predicate TimeOrdered(rolling: seq<Capture>) {
    forall i, j :: 0 <= i < j < |rolling| ==> rolling[i].monoNanos <= rolling[j].monoNanos
  }

  lemma {:induction false} CutPoint(rolling: seq<Capture>, cutoff: nat) returns (k: nat)
    requires TimeOrdered(rolling)
    ensures Splits(rolling, cutoff, k)
  {
    if rolling == [] {
      k := 0;
    } else {
      var n := |rolling| - 1;
      var front := rolling[..n];
      assert forall i :: 0 <= i < n ==> front[i] == rolling[i];
      if rolling[n].monoNanos >= cutoff {
        k := CutPoint(front, cutoff);
      } else {
        k := n + 1;
      }
    }
  }

  /** In a time-ordered buffer the frames since the cutoff are a suffix, and everything before it is older. */
  lemma SinceIsSuffix(rolling: seq<Capture>, cutoff: nat)
    requires TimeOrdered(rolling)
    ensures |Since(rolling, cutoff)| <= |rolling|
    ensures Since(rolling, cutoff) == rolling[|rolling| - |Since(rolling, cutoff)|..]
    ensures forall i :: 0 <= i < |rolling| ==>
              (rolling[i].monoNanos >= cutoff <==> i >= |rolling| - |Since(rolling, cutoff)|)
  {
    var k := CutPoint(rolling, cutoff);
    SinceFrom(rolling, cutoff, k);
  }

  lemma SinceStep(rolling: seq<Capture>, i: nat, cutoff: nat)
    requires i < |rolling|
    ensures Since(rolling[..i + 1], cutoff) ==
            Since(rolling[..i], cutoff) + (if rolling[i].monoNanos >= cutoff then [rolling[i]] else [])
  {
    assert rolling[..i + 1][..i] == rolling[..i];
  }

  lemma SinceEnds(rolling: seq<Capture>, cutoff: nat)
    ensures Since(rolling[..0], cutoff) == []
    ensures rolling != [] && rolling[|rolling| - 1].monoNanos >= cutoff ==> Since(rolling, cutoff) != []
    ensures rolling[..|rolling|] == rolling
  {
  }

  /** What the retained buffer can still seal: nothing from an empty buffer, else the frames in the window. */
  method RecordLastN(link: LinkType, rolling: seq<Capture>, windowNanos: u64, scope: Scope, apiVersion: u32)
    returns (r: Option<SealedRecording>)
    requires |rolling| <= TWO_64
    ensures r.None? <==> rolling == []
    ensures rolling != [] ==>
      var kept := Since(rolling, SatSub(rolling[|rolling| - 1].monoNanos, windowNanos));
      |kept| <= |rolling| && kept != [] && r == Some(SealOf(link, scope, apiVersion, kept))
  {
    if rolling == [] {
      return None;
    }
    var latest := rolling[|rolling| - 1].monoNanos;
    var cutoff := SatSub(latest, windowNanos);
    hide SealOf;
    hide StoredAll;
    hide CheckpointsOf;
    hide Latest;
    hide Since;
    SinceEnds(rolling, cutoff);
    var recorder := new Recorder.Start(link, scope);
    for i := 0 to |rolling|
      invariant recorder.Valid() && fresh(recorder)
      invariant recorder.link == link && recorder.scope == scope
      invariant recorder.pushed == Since(rolling[..i], cutoff)
      invariant |recorder.pushed| <= i
    {
      SinceStep(rolling, i, cutoff);
      if rolling[i].monoNanos >= cutoff {
        recorder.Push(rolling[i].monoNanos, rolling[i].record);
      }
    }
    if |recorder.records| != 0 {
      var sealed := recorder.Finalize(apiVersion);
      r := Some(sealed);
    } else {
      r := None;
    }
  }

  // ---------------------------------------------------------------- the container

  const MAGIC: seq<byte> := [0x4E, 0x50, 0x52, 0x31]

  datatype ContainerError = BadMagic | ManifestOverrunsFile | BadManifest

  /** `magic | manifest length (cast to 32 bits) | manifest | pcapng` */
  function ToBytes(json: Manifest -> seq<byte>, rec: SealedRecording): seq<byte> {
    MAGIC + Le(|json(rec.manifest)|, 4) + json(rec.manifest) + rec.pcapngBytes
  }

  function ParseContainer(unjson: seq<byte> -> Option<Manifest>,
      bytes: seq<byte>): Result<SealedRecording, ContainerError>
  {
    if |bytes| < 8 || bytes[0..4] != MAGIC then Err(BadMagic)
    else
      var end := 8 + Word32(bytes[4..8], false);
      if end > |bytes| then Err(ManifestOverrunsFile)
      else match unjson(bytes[8..end])
           case None => Err(BadManifest)
           case Some(m) => Ok(SealedRecording(m, bytes[end..]))
  }

  /** The manifest encoding can be undone, and this manifest's length fits its length field. */
  ghost predicate Invertible(json: Manifest -> seq<byte>, unjson: seq<byte> -> Option<Manifest>, m: Manifest) {
    unjson(json(m)) == Some(m) && |json(m)| < TWO_32
  }

  /**
   * Reading any cut of a sealed file: an error until the manifest is whole, then the same manifest
   * with the frame data cut at the same place.
   */
  lemma CutContainer(json: Manifest -> seq<byte>, unjson: seq<byte> -> Option<Manifest>, rec: SealedRecording, n: nat)
    requires Invertible(json, unjson, rec.manifest)
    requires n <= |ToBytes(json, rec)|
    ensures
      var head := 8 + |json(rec.manifest)|;
      if n < head then ParseContainer(unjson, ToBytes(json, rec)[..n]).Err?
      else
        ParseContainer(unjson, ToBytes(json, rec)[..n]) ==
        Ok(SealedRecording(rec.manifest, rec.pcapngBytes[..n - head]))
  {
    var text := json(rec.manifest);
    var front := MAGIC + Le(|text|, 4);
    WordsRoundTrip(|text|);
    TakeAcross(front + text, rec.pcapngBytes, n);
    TakeAcross(front, text, Min(n, |front + text|));
    if n >= 8 {
      var s := ToBytes(json, rec)[..n];
      assert s[..8] == front;
      assert s[0..4] == s[..8][0..4] == MAGIC && s[4..8] == s[..8][4..8] == Le(|text|, 4);
      if n >= 8 + |text| {
        assert s[8..8 + |text|] == text;
      }
    }
  }

  /** A sealed recording reads back as itself. */
  lemma ContainerRoundTrip(json: Manifest -> seq<byte>, unjson: seq<byte> -> Option<Manifest>, rec: SealedRecording)
    requires Invertible(json, unjson, rec.manifest)
    ensures ParseContainer(unjson, ToBytes(json, rec)) == Ok(rec)
  {
    var s := ToBytes(json, rec);
    CutContainer(json, unjson, rec, |s|);
    assert s[..|s|] == s;
    assert rec.pcapngBytes[..|rec.pcapngBytes|] == rec.pcapngBytes;
  }

  // ---------------------------------------------------------------- what a sealed recording says

  /** A frame is stored with its bytes and time; below full payload it claims at least the bytes it has. */
  lemma StoredAre(level: PayloadLevel, cs: seq<Capture>, i: nat)
    requires i < |cs|
    ensures
      var given, stored := cs[i].record, StoredAll(level, cs)[i];
      && stored.data == given.data && stored.tsSecs == given.tsSecs && stored.tsNanos == given.tsNanos
      && stored.origLen >= given.origLen
      && (level == FullPayload ==> stored.origLen == given.origLen)
      && (level != FullPayload && |given.data| < 0x1_0000_0000 ==>
            stored.origLen >= |given.data| && stored.origLen in {given.origLen, |given.data|})
  {
  }

  /** The manifest is true of the frames recorded, but for what its payload level promises. */
  lemma SealedManifest(link: LinkType, scope: Scope, api: u32, cs: seq<Capture>)
    requires |cs| <= TWO_64
    ensures
      var m := SealOf(link, scope, api, cs).manifest;
      && m.apiVersion == api && m.interfaces == scope.interfaces && m.filter == scope.filter
      && m.frameCount == |cs| && m.pins == VersionPins("0.1.0", "0.1.0", "0.1.0", "0.1.0", "0.1.0")
      && (cs == [] ==> m.fromMonoNanos == m.toMonoNanos == 0)
      && (cs != [] ==> m.fromMonoNanos == cs[0].monoNanos)
      && (forall i :: 0 <= i < |cs| ==> cs[i].monoNanos <= m.toMonoNanos)
      && (cs != [] ==> exists i :: 0 <= i < |cs| && cs[i].monoNanos == m.toMonoNanos)
      && m.privacy.level == scope.level && (m.privacy.containsPayloads <==> scope.level == FullPayload)
      && m.privacy.redactions == []
  {
    hide Encoding;
    hide CheckpointsOf;
    LatestIsMax(cs);
  }

  /** A sealed file starts with the four characters NPR1, the manifest's length and the manifest. */
  lemma ContainerLayout(json: Manifest -> seq<byte>, rec: SealedRecording)
    ensures
      var s, text := ToBytes(json, rec), json(rec.manifest);
      && |s| >= 8 + |text| && s[0..4] == [0x4E, 0x50, 0x52, 0x31] && s[4..8] == Le(|text|, 4)
      && s[8..8 + |text|] == text && s[8 + |text|..] == rec.pcapngBytes
  {
    hide Le;
  }
}
