/**
 * The capture daemon's two threads as a state machine: the worker feeding a bounded channel, the writer framing
 * what it takes from it, and a stop flag either side may see at any moment. Writes may stop anywhere in a batch.
 */
module Pipe {
  import opened Wrappers
  import opened Bytes
  import opened FileSource
  import opened Transport
  import opened Client
  import opened Daemon

  const CHANNEL_CAPACITY: nat := 128

  datatype State = State(
    sent: nat,                          // batches the worker has put into the channel
    channel: seq<BinaryFrameBatch>,
    writing: seq<byte>,                 // what is left to write of the batch taken last
    wire: seq<byte>,                    // bytes that reached the stream
    stop: bool,
    workerDone: bool,
    writerDone: bool,
    writeFailed: bool)

  const START := State(0, [], [], [], false, false, false, false)

  /**
   * Who moves, and how; `plan` is everything the worker would send if it were never stopped. A write may fail with
   * bytes left to write, the flush after them with none.
   */
  datatype Step = Send | WorkerExit | Take | WriteSome(n: nat) | WriteError | WriterExit | Stop

  predicate Enabled(plan: seq<BinaryFrameBatch>, s: State, step: Step) {
    match step
    case Send => !s.workerDone && s.sent < |plan| && |s.channel| < CHANNEL_CAPACITY
    case WorkerExit => !s.workerDone && (s.stop || s.sent == |plan|)
    case Take => !s.writerDone && s.writing == [] && s.channel != []
    case WriteSome(n) => !s.writerDone && 0 < n <= |s.writing|
    case WriteError => !s.writerDone && s.sent > |s.channel|
    case WriterExit => !s.writerDone && s.writing == [] && (s.stop || (s.workerDone && s.channel == []))
    case Stop => true
  }

  function Effect(plan: seq<BinaryFrameBatch>, s: State, step: Step): State
    requires Enabled(plan, s, step)
  {
    match step
    case Send => s.(sent := s.sent + 1, channel := s.channel + [plan[s.sent]])
    case WorkerExit => s.(workerDone := true)
    case Take => s.(writing := Framed(s.channel[0]), channel := s.channel[1..])
    case WriteSome(n) => s.(wire := s.wire + s.writing[..n], writing := s.writing[n..])
    case WriteError => s.(writerDone := true, writeFailed := true, stop := true)
    case WriterExit => s.(writerDone := true, stop := true)
    case Stop => s.(stop := true)
  }

  /** A run: each state follows from the one before by some enabled step. */
  predicate Run(plan: seq<BinaryFrameBatch>, steps: seq<Step>, states: seq<State>) {
    && |states| == |steps| + 1
    && states[0] == START
    && forall i :: 0 <= i < |steps| ==>
       Enabled(plan, states[i], steps[i]) && states[i + 1] == Effect(plan, states[i], steps[i])
  }

  /** Nothing is lost, duplicated or reordered between the worker and the stream. */
  predicate InOrder(plan: seq<BinaryFrameBatch>, s: State) {
    && |s.channel| <= s.sent <= |plan|
    && |s.channel| <= 128
    && s.channel == plan[s.sent - |s.channel|..s.sent]
    && s.wire + s.writing == Wire(plan[..s.sent - |s.channel|])
    && (s.workerDone ==> s.stop || s.sent == |plan|)
    && (s.writerDone ==> s.stop)
    && (s.writerDone && !s.writeFailed ==> s.writing == [])
  }

  lemma {:induction false} WireAppend(bs: seq<BinaryFrameBatch>, b: BinaryFrameBatch)
    ensures Wire(bs + [b]) == Wire(bs) + Framed(b)
  {
    hide Framed;
    if bs == [] {
      assert [] + [b] == [b] && [b][1..] == [];
      assert Wire([b]) == Framed(b) + Wire([]) == Framed(b);
    } else {
      assert (bs + [b])[1..] == bs[1..] + [b];
      WireAppend(bs[1..], b);
      Regroup(Framed(bs[0]), Wire(bs[1..]), Framed(b));
    }
  }

  lemma {:induction false} WirePrefix(bs: seq<BinaryFrameBatch>, k: nat)
    requires k <= |bs|
    ensures Wire(bs[..k]) <= Wire(bs)
    decreases |bs|
  {
    hide Framed;
    if k > 0 {
      assert bs[..k][1..] == bs[1..][..k - 1];
      WirePrefix(bs[1..], k - 1);
    }
  }

  lemma TakeKeepsOrder(plan: seq<BinaryFrameBatch>, s: State)
    requires InOrder(plan, s) && Enabled(plan, s, Take)
    ensures InOrder(plan, Effect(plan, s, Take))
  {
    hide Framed;
    hide Wire;
    var taken := s.sent - |s.channel|;
    assert plan[..taken + 1] == plan[..taken] + [plan[taken]];
    WireAppend(plan[..taken], plan[taken]);
    assert s.wire + [] == s.wire;
  }

  lemma SendKeepsOrder(plan: seq<BinaryFrameBatch>, s: State)
    requires InOrder(plan, s) && Enabled(plan, s, Send)
    ensures InOrder(plan, Effect(plan, s, Send))
  {
    hide Framed;
    hide Wire;
  }

  lemma StepKeepsOrder(plan: seq<BinaryFrameBatch>, s: State, step: Step)
    requires InOrder(plan, s) && Enabled(plan, s, step)
    ensures InOrder(plan, Effect(plan, s, step))
  {
    hide Framed;
    hide Wire;
    match step
    case Take => TakeKeepsOrder(plan, s);
    case Send => SendKeepsOrder(plan, s);
    case WriteSome(n) => assert s.wire + s.writing[..n] + s.writing[n..] == s.wire + s.writing;
    case WorkerExit =>
    case WriteError =>
    case WriterExit =>
    case Stop =>
  }

  /** Every reachable state is in order, whatever the interleaving. */
  lemma {:induction false} AlwaysInOrder(plan: seq<BinaryFrameBatch>, steps: seq<Step>, states: seq<State>, i: nat)
    requires Run(plan, steps, states) && i < |states|
    ensures InOrder(plan, states[i])
  {
    if i == 0 {
      assert plan[..0] == [];
    } else {
      AlwaysInOrder(plan, steps, states, i - 1);
      StepKeepsOrder(plan, states[i - 1], steps[i - 1]);
    }
  }

  /**
   * Safety for the reader: at any moment of any run, what the client has been able to read is the frames of some
   * whole number of batches from the start of the plan, counted once each, and none of them is too large. The
   * stream is never corrupt: what stops the client, other than the stream's own end, is a batch not yet whole or one
   * that is too large.
   */
  lemma ReaderSeesPrefix(plan: seq<BinaryFrameBatch>, steps: seq<Step>, states: seq<State>, i: nat, ending: Ending)
    requires Run(plan, steps, states) && i < |states| && AllWellFormed(plan)
    ensures
      var s := Reads(states[i].wire, ending, NEW_ACCOUNT);
      var k := |s.batches|;
      && k <= states[i].sent <= |plan|
      && s.batches == RawBatches(plan[..k])
      && s.account == CountBatches(NEW_ACCOUNT, plan[..k])
      && NoneTooLarge(plan[..k])
      && s.failure in {HeaderEnd(ending), Some(PayloadUnread), Some(REFUSED)}
      && (s.failure == Some(REFUSED) ==> k < |plan| && TooLarge(plan[k]))
  {
    hide Wire;
    hide Reads;
    hide CountBatches;
    hide WellFormed;
    hide TooLarge;
    hide Framed;
    hide FirstTooLarge;
    AlwaysInOrder(plan, steps, states, i);
    var st := states[i];
    var taken := st.sent - |st.channel|;
    var sent := plan[..taken];
    assert st.wire == Wire(sent)[..|st.wire|];
    CutStream(sent, |st.wire|, ending, NEW_ACCOUNT);
    DeliveredSmall(sent, |st.wire|);
    assert sent[..Delivered(sent, |st.wire|)] == plan[..Delivered(sent, |st.wire|)];
  }

  /**
   * A writer that ends without a write error and without the stop flag having been raised from outside has put
   * the whole plan on the stream.
   */
  lemma {:induction false} CleanEndIsComplete(plan: seq<BinaryFrameBatch>, steps: seq<Step>, states: seq<State>, i: nat)
    requires Run(plan, steps, states) && i < |states|
    requires Stop !in steps
    requires states[i].writerDone && !states[i].writeFailed
    ensures states[i].wire == Wire(plan)
    decreases i
  {
    hide Wire;
    hide InOrder;
    hide Effect;
    var before := states[i - 1];
    AlwaysInOrder(plan, steps, states, i - 1);
    if before.writerDone {
      DoneStaysDone(plan, before, steps[i - 1]);
      CleanEndIsComplete(plan, steps, states, i - 1);
    } else {
      NotStopped(plan, steps, states, i - 1);
      WriterEnds(plan, before, steps[i - 1]);
    }
  }

  lemma WriterEnds(plan: seq<BinaryFrameBatch>, s: State, step: Step)
    requires InOrder(plan, s) && Enabled(plan, s, step) && !s.writerDone && !s.stop
    requires Effect(plan, s, step).writerDone && !Effect(plan, s, step).writeFailed
    ensures Effect(plan, s, step).wire == Wire(plan)
  {
    hide Wire;
    assert plan[..|plan|] == plan;
    assert s.wire + [] == s.wire;
  }

  lemma DoneStaysDone(plan: seq<BinaryFrameBatch>, s: State, step: Step)
    requires Enabled(plan, s, step) && s.writerDone
    ensures Effect(plan, s, step).writerDone
    ensures Effect(plan, s, step).wire == s.wire && Effect(plan, s, step).writeFailed == s.writeFailed
  {
  }

  /** Without an outside stop, the flag is only raised by the writer ending. */
  lemma {:induction false} NotStopped(plan: seq<BinaryFrameBatch>, steps: seq<Step>, states: seq<State>, i: nat)
    requires Run(plan, steps, states) && i < |states| && Stop !in steps
    ensures states[i].stop ==> states[i].writerDone
  {
    if i > 0 {
      NotStopped(plan, steps, states, i - 1);
      assert steps[i - 1] in steps;
    }
  }

  /**
   * From device to pipeline under every interleaving: whatever has been read so far is a prefix of the raw frames
   * in capture order, and a clean unstopped end delivers all of them exactly when no payload is over the limit.
   */
  lemma CaptureToPipeline(maxBatchSize: nat, raws: seq<RawBatch>, steps: seq<Step>, states: seq<State>, i: nat,
      ending: Ending)
    requires |AllRaw(raws)| < TWO_64
    requires LengthsFit(Produced(BatchSize(maxBatchSize), COUNTERS_START, raws))
    requires Run(Produced(BatchSize(maxBatchSize), COUNTERS_START, raws), steps, states) && i < |states|
    ensures
      var plan := Produced(BatchSize(maxBatchSize), COUNTERS_START, raws);
      var s := Reads(states[i].wire, ending, NEW_ACCOUNT);
      && Flat(s.batches) <= AllRaw(raws)
      && (Stop !in steps && states[i].writerDone && !states[i].writeFailed ==>
            && s.batches == RawBatches(plan[..FirstTooLarge(plan)])
            && s.failure == (if NoneTooLarge(plan) then HeaderEnd(ending) else Some(REFUSED))
            && (Flat(s.batches) == AllRaw(raws) <==> NoneTooLarge(plan))
            && (NoneTooLarge(plan) ==> s.account.received == |AllRaw(raws)|))
  {
    hide Produced;
    hide Reads;
    hide AllRaw;
    hide Wire;
    hide CountBatches;
    hide Run;
    hide LengthsFit;
    hide AllWellFormed;
    hide NoneTooLarge;
    hide FirstTooLarge;
    hide LargestDrops;
    hide RawBatches;
    hide Flat;
    hide NoneEmpty;
    var plan := Produced(BatchSize(maxBatchSize), COUNTERS_START, raws);
    ProducedWellFormed(BatchSize(maxBatchSize), COUNTERS_START, raws);
    ReaderSeesPrefix(plan, steps, states, i, ending);
    ProducedNotEmpty(BatchSize(maxBatchSize), COUNTERS_START, raws);
    PartIsLess(plan, |Reads(states[i].wire, ending, NEW_ACCOUNT).batches|);
    DeliversAll(BatchSize(maxBatchSize), COUNTERS_START, raws, NEW_ACCOUNT);
    if Stop !in steps && states[i].writerDone && !states[i].writeFailed {
      CleanEndIsComplete(plan, steps, states, i);
      DaemonToClient(maxBatchSize, raws, ending);
    }
  }

  // ---------------------------------------------------------------- the channel's room

  /** The states of `k` sends, with nothing taken. */
  function Filling(plan: seq<BinaryFrameBatch>, k: nat): (states: seq<State>)
    requires k <= |plan|
    ensures |states| == k + 1 && forall i :: 0 <= i <= k ==> states[i] == START.(sent := i, channel := plan[..i])
  {
    seq(k + 1, i requires 0 <= i <= k => START.(sent := i, channel := plan[..i]))
  }

  /** The worker is at most 128 batches ahead of the writer, and it does get that far. */
  lemma ChannelFills(plan: seq<BinaryFrameBatch>)
    requires |plan| > 128
    ensures Run(plan, seq(128, _ => Send), Filling(plan, 128))
    ensures Filling(plan, 128)[128].channel == plan[..128] && !Enabled(plan, Filling(plan, 128)[128], Send)
  {
    var states := Filling(plan, 128);
    assert START.(sent := 0, channel := plan[..0]) == START;
    forall i | 0 <= i < 128
      ensures Enabled(plan, states[i], Send) && states[i + 1] == Effect(plan, states[i], Send)
    {
      assert plan[..i + 1] == plan[..i] + [plan[i]];
    }
  }
}
