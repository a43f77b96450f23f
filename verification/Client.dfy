/** The capture client: reads framed batches from a byte stream and accounts for gaps. */
module Client {
  import opened Wrappers
  import opened Bytes
  import opened FileSource
  import opened Transport

  /** What a read finds once everything has been delivered: the end of the stream, or a transport error. */
  datatype Ending = Closed | Broken

  datatype ClientError =
    | HeaderUnread
    | HeaderCorrupt(cause: TransportError)
    | PayloadUnread
    | PayloadCorrupt(cause: TransportError)

  /** The counters a client keeps. */
  datatype Account = Account(lastBatch: Option<u64>, lastFrame: Option<u64>, received: u64, dropped: u64)

  const NEW_ACCOUNT := Account(None, None, 0, 0)

  /** Frames missing between the last number seen and this one; `last + 1` wraps (release build). */
  function Gap(last: Option<u64>, num: u64): u64 {
    match last
    case None => 0
    case Some(l) => SatSub(num, (l + 1) % TWO_64)
  }

  /** A frame numbered past the next expected one counts the numbers in between as missing; any other counts none. */
  lemma GapIs(last: u64, num: u64)
    ensures num > last ==> Gap(Some(last), num) == num - last - 1
    ensures num <= last && last < U64_MAX ==> Gap(Some(last), num) == 0
    ensures last == U64_MAX ==> Gap(Some(last), num) == num
    ensures Gap(None, num) == 0
  {
  }

  function CountFrame(acc: Account, f: BinaryFrame): Account {
    acc.(lastFrame := Some(f.frameSeqNum),
         received := SatAdd(acc.received, 1),
         dropped := SatAdd(acc.dropped, Gap(acc.lastFrame, f.frameSeqNum)))
  }

  function CountFrames(acc: Account, fs: seq<BinaryFrame>): Account {
    if fs == [] then acc else CountFrame(CountFrames(acc, fs[..|fs| - 1]), fs[|fs| - 1])
  }

  function OpenBatch(acc: Account, b: BinaryFrameBatch): Account {
    acc.(lastBatch := Some(b.batchSeqNum),
         dropped := if b.stats.Some? then Max(acc.dropped, b.stats.value.droppedFrames) else acc.dropped)
  }

  function CountBatch(acc: Account, b: BinaryFrameBatch): Account {
    CountFrames(OpenBatch(acc, b), b.frames)
  }

  /** What a frame looks like to the pipeline; the interface id is cast to 16 bits. */
  function Raw(f: BinaryFrame): RawFrame { RawFrame(f.monoNanos, f.ifaceId % 0x1_0000, f.pktData) }

  function Raws(fs: seq<BinaryFrame>): (rs: seq<RawFrame>)
    ensures |rs| == |fs| && forall i :: 0 <= i < |fs| ==> rs[i] == Raw(fs[i])
  {
    seq(|fs|, i requires 0 <= i < |fs| => Raw(fs[i]))
  }

  datatype ReadOutcome = ReadOutcome(result: Result<seq<RawFrame>, ClientError>, rest: seq<byte>, account: Account)

  /** One read from the stream: the result, what is left of the stream, and the new counters. */
  function ReadOne(stream: seq<byte>, ending: Ending, acc: Account): ReadOutcome {
    if |stream| < 12 then ReadOutcome(if ending == Closed then Ok([]) else Err(HeaderUnread), [], acc)
    else match ParseHeader(stream[..12])
         case Err(e) => ReadOutcome(Err(HeaderCorrupt(e)), stream[12..], acc)
         case Ok(h) =>
           var body := stream[12..];
           if |body| < h.payloadLen then ReadOutcome(Err(PayloadUnread), [], acc)
           else match ParsePayload(body[..h.payloadLen], h.flags % 2 == 1)
                case Err(e) => ReadOutcome(Err(PayloadCorrupt(e)), body[h.payloadLen..], acc)
                case Ok(b) => ReadOutcome(Ok(Raws(b.frames)), body[h.payloadLen..], CountBatch(acc, b))
  }

  class IpcCaptureSource {
    /** What the reader has not delivered yet. */
    var stream: seq<byte>
    const ending: Ending
    var lastBatchSeq: Option<u64>
    var lastFrameSeq: Option<u64>
    var receivedFrames: u64
    var droppedFrames: u64

    function Counters(): Account
      reads this
    {
      Account(lastBatchSeq, lastFrameSeq, receivedFrames, droppedFrames)
    }

    constructor (stream: seq<byte>, ending: Ending)
      ensures this.stream == stream && this.ending == ending && Counters() == NEW_ACCOUNT
    {
      this.stream := stream;
      this.ending := ending;
      lastBatchSeq := None;
      lastFrameSeq := None;
      receivedFrames := 0;
      droppedFrames := 0;
    }

    /** `read_exact`: all of the bytes, or none of them and the stream at its end, however it ends. */
    method ReadExact(n: nat) returns (r: Result<seq<byte>, Ending>)
      modifies this`stream
      ensures |old(stream)| >= n ==> r == Ok(old(stream)[..n]) && stream == old(stream)[n..]
      ensures |old(stream)| < n ==> r == Err(ending) && stream == []
    {
      if |stream| < n {
        stream := [];
        return Err(ending);
      }
      r := Ok(stream[..n]);
      stream := stream[n..];
    }

    method ReadNextBatch() returns (r: Result<seq<RawFrame>, ClientError>)
      modifies this
      ensures ReadOutcome(r, stream, Counters()) == ReadOne(old(stream), ending, old(Counters()))
    {
      hide ParseHeader;
      hide ParsePayload;
      hide CountFrames;
      hide Raws;
      var headerBuf := ReadExact(12);
      if headerBuf.Err? {
        if headerBuf.error == Closed {
          return Ok([]);
        }
        return Err(HeaderUnread);
      }
      var header := ParseHeader(headerBuf.value);
      if header.Err? {
        return Err(HeaderCorrupt(header.error));
      }
      var readBuf := ReadExact(header.value.payloadLen);
      if readBuf.Err? {
        return Err(PayloadUnread);
      }
      var statsPresent := header.value.flags % 2 == 1;
      var decoded := DecodeBatchView(readBuf.value, statsPresent);
      if decoded.Err? {
        return Err(PayloadCorrupt(decoded.error));
      }
      var view := decoded.value;
      lastBatchSeq := Some(view.batchSeqNum);
      if view.stats.Some? {
        droppedFrames := Max(droppedFrames, view.stats.value.droppedFrames);
      }
      var frames := AcceptFrames(view.frames);
      r := Ok(frames);
    }

    /** The frame loop: gap detection, counting and conversion. */
    method AcceptFrames(view: seq<BinaryFrame>) returns (frames: seq<RawFrame>)
      modifies this`lastFrameSeq, this`receivedFrames, this`droppedFrames
      ensures Counters() == CountFrames(old(Counters()), view) && frames == Raws(view)
      ensures |frames| == |view|
      ensures forall i :: 0 <= i < |view| ==>
                && frames[i].monoNanos == view[i].monoNanos && frames[i].bytes == view[i].pktData
                && frames[i].ifaceId == view[i].ifaceId % 0x1_0000
    {
      frames := [];
      for i := 0 to |view|
        invariant Counters() == CountFrames(old(Counters()), view[..i])
        invariant lastBatchSeq == old(lastBatchSeq)
        invariant |frames| == i && frames == Raws(view)[..i]
      {
        var f := view[i];
        assert view[..i + 1][..i] == view[..i];
        if lastFrameSeq.Some? {
          var expected := (lastFrameSeq.value + 1) % TWO_64;
          if f.frameSeqNum > expected {
            droppedFrames := SatAdd(droppedFrames, f.frameSeqNum - expected);
          }
        }
        lastFrameSeq := Some(f.frameSeqNum);
        receivedFrames := SatAdd(receivedFrames, 1);
        frames := frames + [RawFrame(f.monoNanos, f.ifaceId % 0x1_0000, f.pktData)];
      }
      assert view[..|view|] == view;
    }
  }

  // ---------------------------------------------------------------- well-formed streams

  function FlagsOf(b: BinaryFrameBatch): byte { if b.stats.Some? then FLAG_STATS_PRESENT else 0 }

  /** A batch as the writer frames it: header, then payload. */
  function Framed(b: BinaryFrameBatch): (s: seq<byte>)
    ensures |s| == 12 + |Payload(b)|
  {
    HeaderBytes(NewHeader(FlagsOf(b), |Payload(b)| % TWO_32)) + Payload(b)
  }

  function Wire(bs: seq<BinaryFrameBatch>): seq<byte> {
    if bs == [] then [] else Framed(bs[0]) + Wire(bs[1..])
  }

  /** A batch the client accepts: well formed and within the payload limit. */
  predicate Sendable(b: BinaryFrameBatch) {
    |Payload(b)| <= 10_485_760 && StatsOk(b) && FramesOk(b.frames)
  }

  predicate AllSendable(bs: seq<BinaryFrameBatch>) { forall i :: 0 <= i < |bs| ==> Sendable(bs[i]) }

  /** A batch that can be told from its framed form, whether or not the client accepts it. */
  predicate WellFormed(b: BinaryFrameBatch) {
    |Payload(b)| < TWO_32 && StatsOk(b) && FramesOk(b.frames)
  }

  predicate AllWellFormed(bs: seq<BinaryFrameBatch>) { forall i :: 0 <= i < |bs| ==> WellFormed(bs[i]) }

  /** A batch whose header the client refuses; nothing on the writing side keeps it from being sent. */
  predicate TooLarge(b: BinaryFrameBatch) { |Payload(b)| > 10_485_760 }

  predicate NoneTooLarge(bs: seq<BinaryFrameBatch>) { forall i :: 0 <= i < |bs| ==> !TooLarge(bs[i]) }

  /** The position of the first batch that is too large, or the number of batches. */
  function FirstTooLarge(bs: seq<BinaryFrameBatch>): (k: nat)
    ensures k <= |bs| && NoneTooLarge(bs[..k])
    ensures k < |bs| ==> TooLarge(bs[k])
  {
    if bs == [] || TooLarge(bs[0]) then 0
    else
      var k := 1 + FirstTooLarge(bs[1..]);
      assert forall i :: 1 <= i < k ==> bs[..k][i] == bs[1..][..k - 1][i - 1];
      k
  }

  const REFUSED: ClientError := HeaderCorrupt(PayloadTooLarge)

  lemma {:induction false} FramesFitPayload(fs: seq<BinaryFrame>)
    ensures |fs| * 28 <= |FramesBytes(fs)|
    ensures forall i :: 0 <= i < |fs| ==> |fs[i].pktData| <= |FramesBytes(fs)|
  {
    if fs != [] {
      FramesFitPayload(fs[1..]);
      assert forall i :: 1 <= i < |fs| ==> fs[i] == fs[1..][i - 1];
    }
  }

  /** Reading one framed batch returns its frames and leaves what follows it. */
  lemma ReadFramed(b: BinaryFrameBatch, tail: seq<byte>, ending: Ending, acc: Account)
    requires Sendable(b)
    ensures ReadOne(Framed(b) + tail, ending, acc) == ReadOutcome(Ok(Raws(b.frames)), tail, CountBatch(acc, b))
  {
    hide Payload;
    hide ParsePayload;
    hide HeaderBytes;
    hide ParseHeader;
    hide CountBatch;
    var h := NewHeader(FlagsOf(b), |Payload(b)|);
    var s := Framed(b) + tail;
    Regroup(HeaderBytes(h), Payload(b), tail);
    assert s[..12] == HeaderBytes(h) && s[12..] == Payload(b) + tail;
    HeaderCodec(HeaderBytes(h), h);
    assert (Payload(b) + tail)[..|Payload(b)|] == Payload(b) + [];
    assert (Payload(b) + tail)[|Payload(b)|..] == tail;
    SendableSizes(b);
    PayloadForward(b, []);
    assert Payload(b) + [] == Payload(b);
  }

  lemma SendableSizes(b: BinaryFrameBatch)
    requires Sendable(b)
    ensures |b.frames| < TWO_32 && Sized(b.frames) && |Payload(b)| >= 12
  {
    FramesFitPayload(b.frames);
  }

  /** A read of `n` bytes, too few: the stream's ending if not even the header is whole, an error otherwise. */
  function CutResult(ending: Ending, n: nat): Result<seq<RawFrame>, ClientError> {
    if n >= 12 then Err(PayloadUnread) else if ending == Closed then Ok([]) else Err(HeaderUnread)
  }

  /** A framed batch cut short. */
  lemma ReadCut(b: BinaryFrameBatch, n: nat, ending: Ending, acc: Account)
    requires Sendable(b) && n < |Framed(b)|
    ensures ReadOne(Framed(b)[..n], ending, acc) == ReadOutcome(CutResult(ending, n), [], acc)
  {
    hide Payload;
    hide ParsePayload;
    hide HeaderBytes;
    hide ParseHeader;
    if n >= 12 {
      var h := NewHeader(FlagsOf(b), |Payload(b)|);
      var s := Framed(b)[..n];
      TakeAcross(HeaderBytes(h), Payload(b), n);
      assert s[..12] == HeaderBytes(h);
      HeaderCodec(HeaderBytes(h), h);
    }
  }

  /** Twelve bytes of a batch that is too large are enough for it to be refused. */
  lemma ReadRefused(b: BinaryFrameBatch, tail: seq<byte>, ending: Ending, acc: Account)
    requires WellFormed(b) && TooLarge(b) && 12 <= |tail|
    requires tail <= Framed(b) || Framed(b) <= tail
    ensures ReadOne(tail, ending, acc) == ReadOutcome(Err(REFUSED), tail[12..], acc)
  {
    hide Payload;
    hide ParsePayload;
    hide HeaderBytes;
    hide ParseHeader;
    var h := NewHeader(FlagsOf(b), |Payload(b)|);
    assert tail[..12] == Framed(b)[..12] == HeaderBytes(h);
    HeaderForward(h);
  }

  // ---------------------------------------------------------------- whole sessions

  datatype Session = Session(batches: seq<seq<RawFrame>>, account: Account, failure: Option<ClientError>)

  /** How reading ends when less than a header is left. */
  function HeaderEnd(ending: Ending): Option<ClientError> { if ending == Closed then None else Some(HeaderUnread) }

  /** Reading until the stream is exhausted (fewer than 12 bytes left) or a read fails. */
  function Reads(stream: seq<byte>, ending: Ending, acc: Account): Session
    decreases |stream|
  {
    if |stream| < 12 then Session([], acc, HeaderEnd(ending))
    else
      var o := ReadOne(stream, ending, acc);
      match o.result
      case Err(e) => Session([], o.account, Some(e))
      case Ok(frames) =>
        var more := Reads(o.rest, ending, o.account);
        more.(batches := [frames] + more.batches)
  }

  /** Batches whose framed form lies wholly within the first `n` bytes. */
  function WholeBatches(bs: seq<BinaryFrameBatch>, n: nat): (k: nat)
    ensures k <= |bs|
  {
    if bs == [] || |Framed(bs[0])| > n then 0 else 1 + WholeBatches(bs[1..], n - |Framed(bs[0])|)
  }

  function RawBatches(bs: seq<BinaryFrameBatch>): (rs: seq<seq<RawFrame>>)
    ensures |rs| == |bs| && forall i :: 0 <= i < |bs| ==> rs[i] == Raws(bs[i].frames)
  {
    seq(|bs|, i requires 0 <= i < |bs| => Raws(bs[i].frames))
  }

  function CountBatches(acc: Account, bs: seq<BinaryFrameBatch>): Account
    decreases |bs|
  {
    if bs == [] then acc else CountBatches(CountBatch(acc, bs[0]), bs[1..])
  }

  lemma WirePrefixStep(bs: seq<BinaryFrameBatch>, k: nat)
    requires 0 < k <= |bs|
    ensures |Wire(bs[..k])| == |Framed(bs[0])| + |Wire(bs[1..][..k - 1])|
  {
    hide Framed;
    assert bs[..k][1..] == bs[1..][..k - 1];
  }

  /** `WholeBatches` is the longest prefix that fits. */
  lemma {:induction false} WholeBatchesLongest(bs: seq<BinaryFrameBatch>, n: nat)
    ensures |Wire(bs[..WholeBatches(bs, n)])| <= n
    ensures WholeBatches(bs, n) < |bs| ==> |Wire(bs[..WholeBatches(bs, n) + 1])| > n
  {
    hide Framed;
    hide Wire;
    NoWire();
    assert bs[..0] == [];
    if bs != [] {
      WirePrefixStep(bs, 1);
      if |Framed(bs[0])| <= n {
        var k := WholeBatches(bs[1..], n - |Framed(bs[0])|);
        WholeBatchesLongest(bs[1..], n - |Framed(bs[0])|);
        WirePrefixStep(bs, k + 1);
        if k + 1 < |bs| {
          WirePrefixStep(bs, k + 2);
        }
      }
    }
  }

  lemma NoWire()
    ensures Wire([]) == []
  {
  }

  function BytesPast(bs: seq<BinaryFrameBatch>, n: nat): nat {
    WholeBatchesLongest(bs, n);
    n - |Wire(bs[..WholeBatches(bs, n)])|
  }

  lemma WholeBatchesStep(bs: seq<BinaryFrameBatch>, n: nat)
    requires bs != [] && |Framed(bs[0])| <= n
    ensures WholeBatches(bs, n) == 1 + WholeBatches(bs[1..], n - |Framed(bs[0])|)
    ensures BytesPast(bs, n) == BytesPast(bs[1..], n - |Framed(bs[0])|)
  {
    hide Framed;
    WirePrefixStep(bs, WholeBatches(bs, n));
    hide Wire;
  }

  /** The header of the first batch that is too large lies within the first `n` bytes. */
  predicate RefusedWithin(bs: seq<BinaryFrameBatch>, n: nat) {
    FirstTooLarge(bs) < |bs| && |Wire(bs[..FirstTooLarge(bs)])| + 12 <= n
  }

  /** The batches a client gets from the first `n` bytes. */
  function Delivered(bs: seq<BinaryFrameBatch>, n: nat): (k: nat)
    ensures k <= |bs|
  {
    if RefusedWithin(bs, n) then FirstTooLarge(bs) else WholeBatches(bs, n)
  }

  /** And how reading them ends. */
  function CutEnd(bs: seq<BinaryFrameBatch>, n: nat, ending: Ending): Option<ClientError> {
    if RefusedWithin(bs, n) then Some(REFUSED)
    else if BytesPast(bs, n) < 12 then HeaderEnd(ending)
    else Some(PayloadUnread)
  }

  lemma FirstTooLargeStep(bs: seq<BinaryFrameBatch>)
    requires bs != [] && !TooLarge(bs[0])
    ensures FirstTooLarge(bs) == 1 + FirstTooLarge(bs[1..])
    ensures |Wire(bs[..FirstTooLarge(bs)])| == |Framed(bs[0])| + |Wire(bs[1..][..FirstTooLarge(bs) - 1])|
  {
    hide Framed;
    hide Wire;
    hide TooLarge;
    WirePrefixStep(bs, FirstTooLarge(bs));
  }

  lemma DeliveredStep(bs: seq<BinaryFrameBatch>, n: nat, ending: Ending)
    requires bs != [] && !TooLarge(bs[0]) && |Framed(bs[0])| <= n
    ensures Delivered(bs, n) == 1 + Delivered(bs[1..], n - |Framed(bs[0])|)
    ensures CutEnd(bs, n, ending) == CutEnd(bs[1..], n - |Framed(bs[0])|, ending)
  {
    hide Framed;
    hide Wire;
    hide TooLarge;
    hide BytesPast;
    hide FirstTooLarge;
    hide WholeBatches;
    FirstTooLargeStep(bs);
    WholeBatchesStep(bs, n);
  }

  lemma BatchesStep(bs: seq<BinaryFrameBatch>, k: nat, acc: Account)
    requires 0 < k <= |bs|
    ensures RawBatches(bs[..k]) == [Raws(bs[0].frames)] + RawBatches(bs[1..][..k - 1])
    ensures CountBatches(acc, bs[..k]) == CountBatches(CountBatch(acc, bs[0]), bs[1..][..k - 1])
  {
    hide CountBatch;
    hide Raws;
    assert bs[..k][1..] == bs[1..][..k - 1];
  }

  /**
   * Any byte cut of any stream of framed batches. Up to the first batch that is too large the client returns
   * exactly the batches that are whole and counts exactly those, and ends as the stream does if less than a header
   * remains, otherwise with an unread payload. At the header of a batch that is too large it stops for good.
   */
  lemma {:induction false} CutStream(bs: seq<BinaryFrameBatch>, n: nat, ending: Ending, acc: Account)
    requires AllWellFormed(bs) && n <= |Wire(bs)|
    ensures
      var k := Delivered(bs, n);
      Reads(Wire(bs)[..n], ending, acc) ==
      Session(RawBatches(bs[..k]), CountBatches(acc, bs[..k]), CutEnd(bs, n, ending))
    decreases |bs|
  {
    hide Framed;
    hide CountBatch;
    hide ReadOne;
    hide BytesPast;
    hide WellFormed;
    hide Reads;
    hide WholeBatches;
    hide CountBatches;
    hide RawBatches;
    hide CutEnd;
    hide Delivered;
    hide TooLarge;
    hide FirstTooLarge;
    if bs == [] || |Framed(bs[0])| > n {
      CutStreamShort(bs, n, ending, acc);
    } else if TooLarge(bs[0]) {
      CutStreamRefused(bs, n, ending, acc);
    } else {
      WireFirst(bs);
      hide Wire;
      var m := n - |Framed(bs[0])|;
      TakeAcross(Framed(bs[0]), Wire(bs[1..]), n);
      ReadsFramed(bs[0], Wire(bs[1..])[..m], ending, acc);
      DeliveredStep(bs, n, ending);
      BatchesStep(bs, Delivered(bs, n), acc);
      CutStream(bs[1..], m, ending, CountBatch(acc, bs[0]));
    }
  }

  lemma WireGrows(bs: seq<BinaryFrameBatch>, k: nat, w: nat)
    requires k < w <= |bs|
    ensures |Wire(bs[..k])| + 12 <= |Wire(bs[..w])|
  {
    hide Payload;
    WireSplit(bs[..w], k);
    WireFirst(bs[..w][k..]);
    hide Wire;
    assert bs[..w][..k] == bs[..k];
  }

  /** None of the batches delivered is too large, and a refusal is of the next one. */
  lemma DeliveredSmall(bs: seq<BinaryFrameBatch>, n: nat)
    requires n <= |Wire(bs)|
    ensures NoneTooLarge(bs[..Delivered(bs, n)])
    ensures RefusedWithin(bs, n) ==> Delivered(bs, n) < |bs| && TooLarge(bs[Delivered(bs, n)])
  {
    hide TooLarge;
    hide Framed;
    hide Wire;
    var k, w := FirstTooLarge(bs), WholeBatches(bs, n);
    WholeBatchesLongest(bs, n);
    if k < w {
      WireGrows(bs, k, w);
    }
    assert forall i :: 0 <= i < w && w <= k ==> bs[..w][i] == bs[..k][i];
  }

  lemma WireFirst(bs: seq<BinaryFrameBatch>)
    requires bs != []
    ensures Wire(bs) == Framed(bs[0]) + Wire(bs[1..])
  {
  }

  lemma ReadsFramed(b: BinaryFrameBatch, tail: seq<byte>, ending: Ending, acc: Account)
    requires WellFormed(b) && !TooLarge(b)
    ensures
      var more := Reads(tail, ending, CountBatch(acc, b));
      Reads(Framed(b) + tail, ending, acc) == more.(batches := [Raws(b.frames)] + more.batches)
  {
    hide CountBatch;
    hide ReadOne;
    assert Sendable(b);
    ReadFramed(b, tail, ending, acc);
  }

  lemma NothingYet(bs: seq<BinaryFrameBatch>, acc: Account)
    ensures Wire(bs[..0]) == [] && RawBatches(bs[..0]) == [] && CountBatches(acc, bs[..0]) == acc
  {
  }

  lemma CutStreamShort(bs: seq<BinaryFrameBatch>, n: nat, ending: Ending, acc: Account)
    requires bs == [] || (WellFormed(bs[0]) && n < |Framed(bs[0])|)
    requires n <= |Wire(bs)|
    ensures
      var k := Delivered(bs, n);
      Reads(Wire(bs)[..n], ending, acc) ==
      Session(RawBatches(bs[..k]), CountBatches(acc, bs[..k]), CutEnd(bs, n, ending))
  {
    hide Framed;
    hide ReadOne;
    NothingYet(bs, acc);
    hide RawBatches;
    hide CountBatches;
    if bs != [] {
      TakeAcross(Framed(bs[0]), Wire(bs[1..]), n);
      if TooLarge(bs[0]) {
        if n >= 12 {
          ReadRefused(bs[0], Framed(bs[0])[..n], ending, acc);
        }
      } else {
        assert Sendable(bs[0]);
        ReadCut(bs[0], n, ending, acc);
        WirePrefixStep(bs, FirstTooLarge(bs));
      }
    }
  }

  lemma CutStreamRefused(bs: seq<BinaryFrameBatch>, n: nat, ending: Ending, acc: Account)
    requires bs != [] && WellFormed(bs[0]) && TooLarge(bs[0])
    requires |Framed(bs[0])| <= n <= |Wire(bs)|
    ensures
      var k := Delivered(bs, n);
      Reads(Wire(bs)[..n], ending, acc) ==
      Session(RawBatches(bs[..k]), CountBatches(acc, bs[..k]), CutEnd(bs, n, ending))
  {
    hide ReadOne;
    hide Payload;
    NothingYet(bs, acc);
    hide RawBatches;
    hide CountBatches;
    var s := Wire(bs)[..n];
    TakeAcross(Framed(bs[0]), Wire(bs[1..]), n);
    ReadRefused(bs[0], s, ending, acc);
  }

  lemma {:induction false} WholeBatchesAll(bs: seq<BinaryFrameBatch>)
    ensures WholeBatches(bs, |Wire(bs)|) == |bs| && BytesPast(bs, |Wire(bs)|) == 0
  {
    hide Framed;
    if bs != [] {
      WholeBatchesAll(bs[1..]);
    }
    assert bs[..|bs|] == bs;
  }

  /**
   * The whole stream: exactly the batches before the first that is too large, and the refusal of that one if there
   * is one.
   */
  lemma WholeStream(bs: seq<BinaryFrameBatch>, ending: Ending, acc: Account)
    requires AllWellFormed(bs)
    ensures
      var k := FirstTooLarge(bs);
      Reads(Wire(bs), ending, acc) ==
      Session(RawBatches(bs[..k]), CountBatches(acc, bs[..k]), if k < |bs| then Some(REFUSED) else HeaderEnd(ending))
  {
    hide Reads;
    hide CountBatches;
    hide RawBatches;
    hide WellFormed;
    var n := |Wire(bs)|;
    CutStream(bs, n, ending, acc);
    assert Wire(bs)[..n] == Wire(bs);
    WholeBatchesAll(bs);
    var k := FirstTooLarge(bs);
    if k < |bs| {
      WireSplit(bs, k);
      WireFirst(bs[k..]);
    }
  }

  lemma {:induction false} WireSplit(bs: seq<BinaryFrameBatch>, k: nat)
    requires k <= |bs|
    ensures |Wire(bs)| == |Wire(bs[..k])| + |Wire(bs[k..])|
    decreases |bs|
  {
    hide Framed;
    if k > 0 {
      WirePrefixStep(bs, k);
      WireSplit(bs[1..], k - 1);
      assert bs[1..][k - 1..] == bs[k..];
    } else {
      assert bs[..0] == [] && bs[0..] == bs;
    }
  }

  /** Pulling as the capture contract has it: until an error or the first empty batch, which means a clean shutdown. */
  function Drains(stream: seq<byte>, ending: Ending, acc: Account): Session
    decreases |stream|
  {
    if |stream| < 12 then Session([], acc, HeaderEnd(ending))
    else
      var o := ReadOne(stream, ending, acc);
      match o.result
      case Err(e) => Session([], o.account, Some(e))
      case Ok(frames) =>
        if frames == [] then Session([], o.account, None)
        else
          var more := Drains(o.rest, ending, o.account);
          more.(batches := [frames] + more.batches)
  }

  lemma ReadShortens(stream: seq<byte>, ending: Ending, acc: Account)
    ensures |stream| >= 12 ==> |ReadOne(stream, ending, acc).rest| < |stream|
  {
  }

  /** Where no batch is empty, the first empty read is the end of the stream. */
  lemma {:induction false} DrainsIsReads(stream: seq<byte>, ending: Ending, acc: Account)
    requires [] !in Reads(stream, ending, acc).batches
    ensures Drains(stream, ending, acc) == Reads(stream, ending, acc)
    decreases |stream|
  {
    ReadShortens(stream, ending, acc);
    hide ReadOne;
    if |stream| >= 12 {
      var o := ReadOne(stream, ending, acc);
      if o.result.Ok? {
        var more := Reads(o.rest, ending, o.account).batches;
        assert o.result.value in [o.result.value] + more;
        assert forall b :: b in more ==> b in [o.result.value] + more;
        DrainsIsReads(o.rest, ending, o.account);
      }
    }
  }

  // ---------------------------------------------------------------- accounting

  lemma {:induction false} FramesKeepBatch(acc: Account, fs: seq<BinaryFrame>)
    ensures CountFrames(acc, fs).lastBatch == acc.lastBatch
  {
    if fs != [] {
      FramesKeepBatch(acc, fs[..|fs| - 1]);
    }
  }

  /** The last batch number kept is that of the last batch read. */
  lemma {:induction false} LastBatchKept(acc: Account, bs: seq<BinaryFrameBatch>)
    ensures CountBatches(acc, bs).lastBatch ==
            if bs == [] then acc.lastBatch else Some(bs[|bs| - 1].batchSeqNum)
    decreases |bs|
  {
    if bs != [] {
      FramesKeepBatch(OpenBatch(acc, bs[0]), bs[0].frames);
      LastBatchKept(CountBatch(acc, bs[0]), bs[1..]);
    }
  }

  function FramesOf(bs: seq<BinaryFrameBatch>): (fs: seq<BinaryFrame>) {
    if bs == [] then [] else bs[0].frames + FramesOf(bs[1..])
  }

  lemma {:induction false} CountFramesSplit(acc: Account, a: seq<BinaryFrame>, b: seq<BinaryFrame>)
    ensures CountFrames(acc, a + b) == CountFrames(CountFrames(acc, a), b)
  {
    hide CountFrame;
    if b == [] {
      assert a + b == a;
    } else {
      var front := b[..|b| - 1];
      assert (a + b)[..|a + b| - 1] == a + front;
      CountFramesSplit(acc, a, front);
    }
  }

  /** Without statistics, batching does not matter to the counts. */
  lemma {:induction false} BatchingIsInvisible(acc: Account, bs: seq<BinaryFrameBatch>)
    requires forall i :: 0 <= i < |bs| ==> bs[i].stats == None
    ensures CountBatches(acc, bs).(lastBatch := None) == CountFrames(acc.(lastBatch := None), FramesOf(bs))
    decreases |bs|
  {
    if bs != [] {
      BatchingIsInvisible(CountBatch(acc, bs[0]), bs[1..]);
      CountIgnoresBatch(OpenBatch(acc, bs[0]), bs[0].frames);
      CountFramesSplit(acc.(lastBatch := None), bs[0].frames, FramesOf(bs[1..]));
    }
  }

  lemma {:induction false} CountIgnoresBatch(acc: Account, fs: seq<BinaryFrame>)
    ensures CountFrames(acc, fs).(lastBatch := None) == CountFrames(acc.(lastBatch := None), fs)
  {
    if fs != [] {
      CountIgnoresBatch(acc, fs[..|fs| - 1]);
    }
  }

  predicate Increasing(fs: seq<BinaryFrame>) {
    forall i, j :: 0 <= i < j < |fs| ==> fs[i].frameSeqNum < fs[j].frameSeqNum
  }

  function Span(fs: seq<BinaryFrame>): int
    requires fs != []
  {
    fs[|fs| - 1].frameSeqNum - fs[0].frameSeqNum + 1
  }

  lemma {:induction false} CountIncreasing(fs: seq<BinaryFrame>)
    requires Increasing(fs) && fs != []
    ensures
      var acc := CountFrames(NEW_ACCOUNT, fs);
      && |fs| <= Span(fs) <= TWO_64
      && acc.lastFrame == Some(fs[|fs| - 1].frameSeqNum)
      && acc.received == Min(|fs|, U64_MAX)
      && acc.dropped == Span(fs) - |fs|
  {
    var front := fs[..|fs| - 1];
    if front == [] {
      assert CountFrames(NEW_ACCOUNT, front) == NEW_ACCOUNT;
    } else {
      assert fs[|fs| - 2].frameSeqNum < fs[|fs| - 1].frameSeqNum;
      CountIncreasing(front);
    }
  }

  /**
   * Conservation: over stats-free batches with increasing frame numbers, every number from the first to the last
   * is counted once, as received or as dropped. The one exception is a stream of all 2^64 numbers, whose received
   * count saturates one short.
   */
  lemma AccountConserves(bs: seq<BinaryFrameBatch>)
    requires forall i :: 0 <= i < |bs| ==> bs[i].stats == None
    requires Increasing(FramesOf(bs)) && FramesOf(bs) != []
    ensures
      var acc := CountBatches(NEW_ACCOUNT, bs);
      && acc.dropped == Span(FramesOf(bs)) - |FramesOf(bs)|
      && (acc.received + acc.dropped == Span(FramesOf(bs)) <==> |FramesOf(bs)| < TWO_64)
  {
    BatchingIsInvisible(NEW_ACCOUNT, bs);
    CountIncreasing(FramesOf(bs));
  }
}
