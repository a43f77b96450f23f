/**
 * The probe gate: an atomic counter of running probes, raised by a compare-exchange loop and lowered when a permit
 * is dropped. Any number of threads interleave their atomic steps in any order.
 */
module ProbeGate {
  import opened Wrappers
  import opened Bytes

  const MAX_CONCURRENT: nat := 4

  /** Where a thread stands in `try_acquire`: outside it, or about to compare the value it last observed. */
  datatype Phase = Outside | Comparing(current: nat)

  datatype Thread = Thread(phase: Phase, permits: nat)

  datatype State = State(inFlight: nat, threads: seq<Thread>)

  /**
   * One atomic step. `Exchange` is a compare-exchange that succeeds; `Fail` is one that fails and observes the counter
   * again, spuriously or not. A permit is dropped or handed over by whoever owns it.
   */
  datatype Event =
    | Load(t: nat)
    | Refuse(t: nat)
    | Exchange(t: nat)
    | Fail(t: nat)
    | Drop(t: nat)
    | HandOver(t: nat, to: nat)

  predicate Enabled(s: State, e: Event) {
    && e.t < |s.threads|
    && var th := s.threads[e.t];
       match e
       case Load(_) => th.phase.Outside?
       case Refuse(_) => th.phase.Comparing? && th.phase.current >= MAX_CONCURRENT
       case Exchange(_) => th.phase.Comparing? && th.phase.current < MAX_CONCURRENT && s.inFlight == th.phase.current
       case Fail(_) => th.phase.Comparing? && th.phase.current < MAX_CONCURRENT
       case Drop(_) => th.permits > 0
       case HandOver(_, to) => th.permits > 0 && to < |s.threads| && to != e.t
  }

  /** The counter is a machine word and would wrap at either end. */
  function Raise(n: nat): nat { (n + 1) % TWO_64 }

  function Lower(n: nat): nat { (n + U64_MAX) % TWO_64 }

  lemma NoWrap(n: nat)
    ensures n < MAX_CONCURRENT ==> Raise(n) == n + 1
    ensures 0 < n <= MAX_CONCURRENT ==> Lower(n) == n - 1
  {
  }

  function After(s: State, e: Event): State
    requires Enabled(s, e)
  {
    var th := s.threads[e.t];
    match e
    case Load(t) => s.(threads := s.threads[t := th.(phase := Comparing(s.inFlight))])
    case Refuse(t) => s.(threads := s.threads[t := th.(phase := Outside)])
    case Exchange(t) => State(Raise(s.inFlight), s.threads[t := Thread(Outside, th.permits + 1)])
    case Fail(t) => s.(threads := s.threads[t := th.(phase := Comparing(s.inFlight))])
    case Drop(t) => State(Lower(s.inFlight), s.threads[t := th.(permits := th.permits - 1)])
    case HandOver(t, to) =>
      var kept := s.threads[t := th.(permits := th.permits - 1)];
      s.(threads := kept[to := kept[to].(permits := kept[to].permits + 1)])
  }

  /** The state `n` threads reach from a new gate by these steps, if each is possible where it is taken. */
  function Reached(n: nat, run: seq<Event>): Option<State> {
    if run == [] then Some(State(0, seq(n, _ => Thread(Outside, 0))))
    else
      match Reached(n, run[..|run| - 1])
      case None => None
      case Some(s) => if Enabled(s, run[|run| - 1]) then Some(After(s, run[|run| - 1])) else None
  }

  function Live(threads: seq<Thread>): nat {
    if threads == [] then 0 else threads[0].permits + Live(threads[1..])
  }

  lemma {:induction false} LiveUpdate(threads: seq<Thread>, t: nat, th: Thread)
    requires t < |threads|
    ensures Live(threads[t := th]) == Live(threads) - threads[t].permits + th.permits
  {
    if t > 0 {
      assert threads[t := th][1..] == threads[1..][t - 1 := th];
      LiveUpdate(threads[1..], t - 1, th);
    } else {
      assert threads[t := th][1..] == threads[1..];
    }
  }

  lemma {:induction false} NoneLive(n: nat)
    ensures Live(seq(n, _ => Thread(Outside, 0))) == 0
  {
    if n > 0 {
      NoneLive(n - 1);
      assert seq(n, _ => Thread(Outside, 0))[1..] == seq(n - 1, _ => Thread(Outside, 0));
    }
  }

  predicate Sound(s: State) {
    && s.inFlight == Live(s.threads) <= 4
    && forall t :: 0 <= t < |s.threads| && s.threads[t].phase.Comparing? ==>
       s.threads[t].phase.current <= MAX_CONCURRENT
  }

  lemma StepKeepsSound(s: State, e: Event)
    requires Sound(s) && Enabled(s, e)
    ensures Sound(After(s, e)) && |After(s, e).threads| == |s.threads|
  {
    hide Raise;
    hide Lower;
    hide Live;
    NoWrap(s.inFlight);
    OwnerIsLive(s.threads, e.t);
    var th := s.threads[e.t];
    match e
    case Load(t) => LiveUpdate(s.threads, t, th.(phase := Comparing(s.inFlight)));
    case Refuse(t) => LiveUpdate(s.threads, t, th.(phase := Outside));
    case Exchange(t) => LiveUpdate(s.threads, t, Thread(Outside, th.permits + 1));
    case Fail(t) => LiveUpdate(s.threads, t, th.(phase := Comparing(s.inFlight)));
    case Drop(t) => LiveUpdate(s.threads, t, th.(permits := th.permits - 1));
    case HandOver(t, to) =>
      var kept := s.threads[t := th.(permits := th.permits - 1)];
      LiveUpdate(s.threads, t, th.(permits := th.permits - 1));
      LiveUpdate(kept, to, kept[to].(permits := kept[to].permits + 1));
  }

  /** In every run the counter is the number of live permits, and there are never more than four. */
  lemma {:induction false} CounterIsLivePermits(n: nat, run: seq<Event>)
    ensures Reached(n, run).Some? ==> Sound(Reached(n, run).value) && |Reached(n, run).value.threads| == n
  {
    if run == [] {
      NoneLive(n);
    } else {
      CounterIsLivePermits(n, run[..|run| - 1]);
      if Reached(n, run).Some? {
        StepKeepsSound(Reached(n, run[..|run| - 1]).value, run[|run| - 1]);
      }
    }
  }

  function Acquired(run: seq<Event>): nat {
    if run == [] then 0 else Acquired(run[..|run| - 1]) + if run[|run| - 1].Exchange? then 1 else 0
  }

  function Released(run: seq<Event>): nat {
    if run == [] then 0 else Released(run[..|run| - 1]) + if run[|run| - 1].Drop? then 1 else 0
  }

  /** Conservation: what was acquired has been released or is live, so acquisitions are at most four ahead. */
  lemma {:induction false} PermitsConserved(n: nat, run: seq<Event>)
    requires Reached(n, run).Some?
    ensures Acquired(run) == Released(run) + Reached(n, run).value.inFlight
    ensures Released(run) <= Acquired(run) <= Released(run) + 4
  {
    hide Raise;
    hide Lower;
    hide Live;
    CounterIsLivePermits(n, run);
    if run != [] {
      var before := run[..|run| - 1];
      PermitsConserved(n, before);
      CounterIsLivePermits(n, before);
      NoWrap(Reached(n, before).value.inFlight);
      if run[|run| - 1].Drop? {
        OwnerIsLive(Reached(n, before).value.threads, run[|run| - 1].t);
      }
    }
  }

  lemma {:induction false} OwnerIsLive(threads: seq<Thread>, t: nat)
    requires t < |threads|
    ensures threads[t].permits <= Live(threads)
  {
    if t > 0 {
      OwnerIsLive(threads[1..], t - 1);
    }
  }

  predicate Observes(e: Event, t: nat) { e == Load(t) || e == Fail(t) }

  predicate Attempts(e: Event, t: nat) { Observes(e, t) || e == Refuse(t) || e == Exchange(t) }

  lemma StepAndPhase(s: State, e: Event, t: nat)
    requires Enabled(s, e) && t < |s.threads|
    ensures
      var next := After(s, e);
      && |next.threads| == |s.threads|
      && (!Attempts(e, t) ==> next.threads[t].phase == s.threads[t].phase)
      && (Attempts(e, t) && next.threads[t].phase.Comparing? ==>
         Observes(e, t) && next.threads[t].phase.current == s.inFlight)
  {
  }

  /** The value a thread is about to compare is the counter as it stood at that thread's last attempt. */
  lemma {:induction false} ObservedAt(n: nat, run: seq<Event>, t: nat) returns (k: nat)
    requires Reached(n, run).Some? && t < n
    requires |Reached(n, run).value.threads| == n && Reached(n, run).value.threads[t].phase.Comparing?
    ensures k < |run| && Observes(run[k], t) && (forall j :: k < j < |run| ==> !Attempts(run[j], t))
    ensures Reached(n, run[..k]).Some?
    ensures Reached(n, run[..k]).value.inFlight == Reached(n, run).value.threads[t].phase.current
    decreases |run|
  {
    hide After;
    hide Enabled;
    hide Live;
    var m := |run| - 1;
    var before := run[..m];
    CounterIsLivePermits(n, before);
    StepAndPhase(Reached(n, before).value, run[m], t);
    if Attempts(run[m], t) {
      k := m;
    } else {
      k := ObservedAt(n, before, t);
      assert before[..k] == run[..k];
      assert forall j :: k < j < m ==> before[j] == run[j];
    }
  }

  /** A refusal means that four permits were live when the refused thread last looked at the counter. */
  lemma RefusedOnlyWhenFull(n: nat, run: seq<Event>, t: nat)
    requires Reached(n, run + [Refuse(t)]).Some?
    ensures exists k ::
              && 0 <= k < |run| && Observes(run[k], t) && (forall j :: k < j < |run| ==> !Attempts(run[j], t))
              && Reached(n, run[..k]).Some? && Live(Reached(n, run[..k]).value.threads) == 4
  {
    assert (run + [Refuse(t)])[..|run|] == run;
    CounterIsLivePermits(n, run);
    var k := ObservedAt(n, run, t);
    CounterIsLivePermits(n, run[..k]);
  }

  /**
   * No slot is ever lost: a thread left alone gets a permit when fewer than four are live, and is refused otherwise.
   */
  lemma NoSlotIsLost(n: nat, run: seq<Event>, t: nat)
    requires Reached(n, run).Some? && t < |Reached(n, run).value.threads| &&
             Reached(n, run).value.threads[t].phase.Outside?
    ensures Reached(n, run + [Load(t)] + [Exchange(t)]).Some? <==> Live(Reached(n, run).value.threads) < 4
    ensures Reached(n, run + [Load(t)] + [Refuse(t)]).Some? <==> Live(Reached(n, run).value.threads) == 4
  {
    CounterIsLivePermits(n, run);
    assert (run + [Load(t)])[..|run|] == run;
    assert (run + [Load(t)] + [Exchange(t)])[..|run| + 1] == run + [Load(t)];
    assert (run + [Load(t)] + [Refuse(t)])[..|run| + 1] == run + [Load(t)];
  }
}

/**
 * The throttle of the narrative feed: threads read a shared clock, read the time of the last emission and try to
 * replace it by compare-exchange. Any number of threads interleave their steps in any order.
 */
module FeedThrottle {
  import opened Wrappers
  import opened Bytes

  const FEED_REFRESH_MS: nat := 3000

  datatype Phase = Outside | HasNow(now: u64) | HasLast(now: u64, last: u64)

  /** A winning emission: the value it replaced, the time it recorded, and the time on the clock when it won. */
  datatype Win = Win(last: u64, now: u64, at: nat)

  datatype State = State(clock: nat, cell: u64, threads: seq<Phase>, wins: seq<Win>)

  datatype Event =
    | Tick(ms: nat)
    | ReadClock(t: nat)
    | ReadLast(t: nat)
    | Exchange(t: nat)

  predicate Enabled(s: State, e: Event) {
    match e
    case Tick(_) => true
    case ReadClock(t) => t < |s.threads| && s.threads[t].Outside?
    case ReadLast(t) => t < |s.threads| && s.threads[t].HasNow?
    case Exchange(t) => t < |s.threads| && s.threads[t].HasLast?
  }

  /** The clock's milliseconds are cut to a 64-bit word. */
  function Word(clock: nat): (now: u64)
    ensures now <= clock
    ensures clock < 0x1_0000_0000_0000_0000 ==> now == clock
  {
    clock % TWO_64
  }

  /** The strong exchange fails only when the cell has changed. */
  function After(s: State, e: Event): State
    requires Enabled(s, e)
  {
    match e
    case Tick(ms) => s.(clock := s.clock + ms)
    case ReadClock(t) => s.(threads := s.threads[t := HasNow(Word(s.clock))])
    case ReadLast(t) =>
      var now := s.threads[t].now;
      s.(threads := s.threads[t := if SatSub(now, s.cell) < FEED_REFRESH_MS then Outside else HasLast(now, s.cell)])
    case Exchange(t) =>
      var th := s.threads[t];
      var out := s.threads[t := Outside];
      if s.cell == th.last then State(s.clock, th.now, out, s.wins + [Win(th.last, th.now, s.clock)])
      else s.(threads := out)
  }

  function Reached(n: nat, run: seq<Event>): Option<State> {
    if run == [] then Some(State(0, 0, seq(n, _ => Outside), []))
    else
      match Reached(n, run[..|run| - 1])
      case None => None
      case Some(s) => if Enabled(s, run[|run| - 1]) then Some(After(s, run[|run| - 1])) else None
  }

  function LastWin(wins: seq<Win>): u64 {
    if wins == [] then 0 else wins[|wins| - 1].now
  }

  /** Each winner replaced the time the one before it recorded, and recorded a time at least 3000 ms later. */
  predicate Chained(wins: seq<Win>) {
    forall i :: 0 <= i < |wins| ==>
      && wins[i].last == LastWin(wins[..i])
      && wins[i].now >= wins[i].last + 3000
      && wins[i].now <= wins[i].at
  }

  predicate ThreadOk(th: Phase, clock: nat) {
    match th
    case Outside => true
    case HasNow(now) => now <= clock
    case HasLast(now, last) => now <= clock && now >= last + FEED_REFRESH_MS
  }

  predicate Sound(s: State) {
    && s.cell == LastWin(s.wins) && s.cell <= s.clock
    && Chained(s.wins) && (forall i :: 0 <= i < |s.wins| ==> s.wins[i].at <= s.clock)
    && (forall t :: 0 <= t < |s.threads| ==> ThreadOk(s.threads[t], s.clock))
  }

  lemma StepKeepsSound(s: State, e: Event)
    requires Sound(s) && Enabled(s, e)
    ensures Sound(After(s, e))
    ensures s.clock <= After(s, e).clock && s.cell <= After(s, e).cell && s.wins <= After(s, e).wins
    ensures s.cell == After(s, e).cell <==> s.wins == After(s, e).wins
  {
    hide Chained;
    hide Word;
    if e.Exchange? && s.cell == s.threads[e.t].last {
      var th := s.threads[e.t];
      assert ThreadOk(th, s.clock);
      ChainGrows(s.wins, Win(th.last, th.now, s.clock));
    }
  }

  lemma ChainGrows(wins: seq<Win>, w: Win)
    requires Chained(wins) && w.last == LastWin(wins) && w.last + FEED_REFRESH_MS <= w.now <= w.at
    ensures Chained(wins + [w]) && wins != wins + [w]
  {
    var longer := wins + [w];
    forall i | 0 <= i < |longer|
      ensures longer[i].last == LastWin(longer[..i])
    {
      assert longer[..i] == wins[..i];
      assert wins[..|wins|] == wins;
    }
  }

  lemma {:induction false} RunsAreSound(n: nat, run: seq<Event>)
    ensures Reached(n, run).Some? ==> Sound(Reached(n, run).value)
  {
    if run != [] {
      RunsAreSound(n, run[..|run| - 1]);
      if Reached(n, run).Some? {
        StepKeepsSound(Reached(n, run[..|run| - 1]).value, run[|run| - 1]);
      }
    }
  }

  /** In every run successive winners record times at least 3000 ms apart, and the first at 3000 ms or later. */
  lemma WinsAreSpaced(n: nat, run: seq<Event>)
    requires Reached(n, run).Some?
    ensures
      var wins := Reached(n, run).value.wins;
      forall i :: 0 <= i < |wins| ==> wins[i].now >= 3000 + (if i == 0 then 0 else wins[i - 1].now)
  {
    RunsAreSound(n, run);
    var wins := Reached(n, run).value.wins;
    forall i | 0 <= i < |wins|
      ensures wins[i].now >= 3000 + (if i == 0 then 0 else wins[i - 1].now)
    {
      if i > 0 {
        assert wins[..i][i - 1] == wins[i - 1];
      }
    }
  }

  /** The cell only grows, and grows exactly when an emission is won. */
  lemma {:induction false} CellOnlyGrows(n: nat, run: seq<Event>, k: nat)
    requires k <= |run| && Reached(n, run).Some?
    ensures Reached(n, run[..k]).Some?
    ensures
      var earlier, later := Reached(n, run[..k]).value, Reached(n, run).value;
      && earlier.cell <= later.cell && earlier.wins <= later.wins
      && (earlier.cell == later.cell <==> earlier.wins == later.wins)
    decreases |run|
  {
    if k == |run| {
      assert run[..k] == run;
    } else {
      var before := run[..|run| - 1];
      assert before[..k] == run[..k];
      CellOnlyGrows(n, before, k);
      RunsAreSound(n, before);
      StepKeepsSound(Reached(n, before).value, run[|run| - 1]);
    }
  }

  /** There is at most one emission for every full 3000 ms the clock has run. */
  lemma EmissionsAreBounded(n: nat, run: seq<Event>)
    requires Reached(n, run).Some?
    ensures |Reached(n, run).value.wins| <= Reached(n, run).value.clock / 3000
  {
    RunsAreSound(n, run);
    ChainIsLong(Reached(n, run).value.wins);
  }

  lemma {:induction false} ChainIsLong(wins: seq<Win>)
    requires Chained(wins)
    ensures LastWin(wins) >= FEED_REFRESH_MS * |wins|
  {
    if wins != [] {
      var before := wins[..|wins| - 1];
      assert forall i :: 0 <= i < |before| ==> before[i] == wins[i] && before[..i] == wins[..i];
      ChainIsLong(before);
    }
  }

  /**
   * On the clock itself, two successive emissions are apart by 3000 ms less the time the first winner took between
   * reading the clock and winning.
   */
  lemma ClockGap(n: nat, run: seq<Event>, i: nat)
    requires Reached(n, run).Some? && i + 1 < |Reached(n, run).value.wins|
    ensures
      var wins := Reached(n, run).value.wins;
      wins[i + 1].at - wins[i].at >= 3000 - (wins[i].at - wins[i].now)
  {
    RunsAreSound(n, run);
    WinsAreSpaced(n, run);
  }

  /**
   * That gap is attained for every delay: a winner held up for 3000 ms is followed by an emission at the same
   * instant.
   */
  lemma ClockGapIsAttained(delay: nat) returns (run: seq<Event>)
    requires delay <= 3000
    ensures Reached(1, run).Some? && |Reached(1, run).value.wins| == 2
    ensures
      var wins := Reached(1, run).value.wins;
      && wins[0].at - wins[0].now == delay
      && wins[1].at - wins[0].at == 3000 - delay
  {
    run := [];
    run := More(1, run, Tick(3000));
    run := More(1, run, ReadClock(0));
    run := More(1, run, ReadLast(0));
    run := More(1, run, Tick(delay));
    run := More(1, run, Exchange(0));
    run := More(1, run, Tick(3000 - delay));
    run := More(1, run, ReadClock(0));
    run := More(1, run, ReadLast(0));
    run := More(1, run, Exchange(0));
  }

  lemma More(n: nat, run: seq<Event>, e: Event) returns (longer: seq<Event>)
    requires Reached(n, run).Some? && Enabled(Reached(n, run).value, e)
    ensures longer == run + [e] && Reached(n, longer) == Some(After(Reached(n, run).value, e))
  {
    longer := run + [e];
    assert longer[..|run|] == run;
  }

  /** A thread left alone emits exactly when the clock's word is at least 3000 ms past the last recorded time. */
  lemma AloneEmitsWhenDue(n: nat, run: seq<Event>, t: nat)
    requires Reached(n, run).Some? && t < |Reached(n, run).value.threads| && Reached(n, run).value.threads[t].Outside?
    ensures
      var s := Reached(n, run).value;
      Reached(n, run + [ReadClock(t)] + [ReadLast(t)] + [Exchange(t)]).Some? <==>
        Word(s.clock) >= s.cell + 3000
    ensures
      var s := Reached(n, run).value;
      Word(s.clock) >= s.cell + 3000 ==>
        Reached(n, run + [ReadClock(t)] + [ReadLast(t)] + [Exchange(t)]).value.wins ==
        s.wins + [Win(s.cell, Word(s.clock), s.clock)]
  {
    var one := More(n, run, ReadClock(t));
    var two := More(n, one, ReadLast(t));
    assert (two + [Exchange(t)])[..|two|] == two;
  }
}
