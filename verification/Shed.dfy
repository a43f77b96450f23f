/** Staged load shedding: integer thresholds with hysteresis and persistent 1-in-2 sampling. */
module Shed {
  import opened Wrappers
  import opened Bytes

  datatype ShedStage = Full | PayloadsOff | SampleDissection | CoarsenMetrics | DropPackets

  /** Position in the shedding order, least aggressive first. */
  function Level(s: ShedStage): (l: nat)
    ensures l <= 4
  {
    match s
    case Full => 0
    case PayloadsOff => 1
    case SampleDissection => 2
    case CoarsenMetrics => 3
    case DropPackets => 4
  }

  datatype ShedThresholds = ShedThresholds(t45: nat, t50: nat, t70: nat, t75: nat, t85: nat, t90: nat, t95: nat)

  function ThresholdsFor(capacity: nat): ShedThresholds {
    ShedThresholds(
      capacity * 45 / 100, capacity * 50 / 100, capacity * 70 / 100, capacity * 75 / 100,
      capacity * 85 / 100, capacity * 90 / 100, capacity * 95 / 100)
  }

  /** `capacity * percent / 100` on 64 bits: the product wraps (release build). */
  function Percent(capacity: u64, percent: nat): nat {
    assert capacity * percent >= 0;
    capacity * percent % TWO_64 / 100
  }

  function ComputedThresholds(capacity: u64): ShedThresholds {
    ShedThresholds(
      Percent(capacity, 45), Percent(capacity, 50), Percent(capacity, 70), Percent(capacity, 75),
      Percent(capacity, 85), Percent(capacity, 90), Percent(capacity, 95))
  }

  lemma PercentExact(capacity: u64, percent: nat)
    ensures Percent(capacity, percent) == capacity * percent / 100 <==> capacity * percent < TWO_64
  {
    var x := capacity * percent;
    assert x >= 0;
    if x >= TWO_64 {
      assert x % TWO_64 < TWO_64 && x % TWO_64 <= x - TWO_64;
    }
  }

  /** The computed thresholds are the percentages of the capacity exactly when the largest product fits 64 bits. */
  lemma ThresholdsComputed(capacity: u64)
    ensures ComputedThresholds(capacity) == ThresholdsFor(capacity) <==> capacity * 95 < TWO_64
  {
    hide Percent;
    PercentExact(capacity, 45);
    PercentExact(capacity, 50);
    PercentExact(capacity, 70);
    PercentExact(capacity, 75);
    PercentExact(capacity, 85);
    PercentExact(capacity, 90);
    PercentExact(capacity, 95);
  }

  /** The stage after seeing a buffer of length `len`. */
  function NextStage(t: ShedThresholds, s: ShedStage, len: nat): ShedStage {
    match s
    case Full => if len >= t.t50 then PayloadsOff else Full
    case PayloadsOff => if len >= t.t75 then SampleDissection else if len < t.t45 then Full else PayloadsOff
    case SampleDissection =>
      if len >= t.t90 then CoarsenMetrics else if len < t.t70 then PayloadsOff else SampleDissection
    case CoarsenMetrics =>
      if len >= t.t95 then DropPackets else if len < t.t85 then SampleDissection else CoarsenMetrics
    case DropPackets => if len < t.t90 then CoarsenMetrics else DropPackets
  }

  class ShedController {
    const thresholds: ShedThresholds
    var stage: ShedStage
    var packetCounter: u64

    constructor (capacity: u64)
      ensures thresholds == ComputedThresholds(capacity) && stage == Full && packetCounter == 0
    {
      thresholds := ComputedThresholds(capacity);
      stage := Full;
      packetCounter := 0;
    }

    method Update(currentLen: nat) returns (next: ShedStage)
      modifies this`stage
      ensures stage == next == NextStage(thresholds, old(stage), currentLen)
    {
      var t := thresholds;
      match stage {
        case Full =>
          next := if currentLen >= t.t50 then PayloadsOff else Full;
        case PayloadsOff =>
          if currentLen >= t.t75 { next := SampleDissection; }
          else if currentLen < t.t45 { next := Full; }
          else { next := PayloadsOff; }
        case SampleDissection =>
          if currentLen >= t.t90 { next := CoarsenMetrics; }
          else if currentLen < t.t70 { next := PayloadsOff; }
          else { next := SampleDissection; }
        case CoarsenMetrics =>
          if currentLen >= t.t95 { next := DropPackets; }
          else if currentLen < t.t85 { next := SampleDissection; }
          else { next := CoarsenMetrics; }
        case DropPackets =>
          next := if currentLen < t.t90 then CoarsenMetrics else DropPackets;
      }
      stage := next;
    }

    method ShouldSample() returns (keep: bool)
      modifies this`packetCounter
      ensures packetCounter == (old(packetCounter) + 1) % TWO_64
      ensures keep <==> packetCounter % 2 == 0
    {
      packetCounter := (packetCounter + 1) % TWO_64;
      keep := packetCounter % 2 == 0;
    }
  }

  // ---------------------------------------------------------------- runs

  function RunStage(t: ShedThresholds, s: ShedStage, lens: seq<nat>): ShedStage
    decreases |lens|
  {
    if lens == [] then s else RunStage(t, NextStage(t, s, lens[0]), lens[1..])
  }

  datatype Direction = Up | Down

  function ChangeOf(before: ShedStage, after: ShedStage): Option<Direction> {
    if Level(after) > Level(before) then Some(Up)
    else if Level(after) < Level(before) then Some(Down)
    else None
  }

  function DirectionAfter(last: Option<Direction>, change: Option<Direction>): Option<Direction> {
    if change == None then last else change
  }

  predicate Reverses(last: Option<Direction>, change: Option<Direction>) {
    last.Some? && change.Some? && last != change
  }

  /** How often, over the run, a stage change goes the other way from the stage change before it. */
  function Reversals(t: ShedThresholds, s: ShedStage, last: Option<Direction>, lens: seq<nat>): nat
    decreases |lens|
  {
    if lens == [] then 0
    else
      var next := NextStage(t, s, lens[0]);
      var change := ChangeOf(s, next);
      (if Reverses(last, change) then 1 else 0) + Reversals(t, next, DirectionAfter(last, change), lens[1..])
  }

  function Distance(a: int, b: int): nat { if a <= b then b - a else a - b }

  /** Summed change of the buffer length along the run, starting from `cur`. */
  function Movement(cur: nat, lens: seq<nat>): nat
    decreases |lens|
  {
    if lens == [] then 0 else Distance(cur, lens[0]) + Movement(lens[0], lens[1..])
  }

  /** The length at or above which level l-1 escalates to l. */
  function UpAt(t: ShedThresholds, l: nat): nat
    requires 1 <= l <= 4
  {
    if l == 1 then t.t50 else if l == 2 then t.t75 else if l == 3 then t.t90 else t.t95
  }

  /** The length below which level l falls back to l-1. */
  function DownAt(t: ShedThresholds, l: nat): nat
    requires 1 <= l <= 4
  {
    if l == 1 then t.t45 else if l == 2 then t.t70 else if l == 3 then t.t85 else t.t90
  }

  /** One update moves at most one level, and only across the threshold for that move. */
  lemma StepCrosses(t: ShedThresholds, s: ShedStage, len: nat)
    ensures
      var d := ChangeOf(s, NextStage(t, s, len));
      && (d == Some(Up) ==> Level(NextStage(t, s, len)) == Level(s) + 1 && len >= UpAt(t, Level(s) + 1))
      && (d == Some(Down) ==> Level(s) >= 1 && Level(NextStage(t, s, len)) == Level(s) - 1 && len < DownAt(t, Level(s)))
      && (d == None ==> NextStage(t, s, len) == s)
  {
  }

  /** A stage reached by a change in that direction exists: nothing is above the top or below the bottom. */
  predicate Reached(s: ShedStage, last: Option<Direction>) {
    && (last == Some(Up) ==> Level(s) >= 1)
    && (last == Some(Down) ==> Level(s) <= 3)
  }

  /** How far `cur` already lies from the last change's threshold, on the way to a reversal. */
  function Credit(t: ShedThresholds, s: ShedStage, last: Option<Direction>, cur: nat): nat
    requires Reached(s, last)
  {
    match last
    case None => 0
    case Some(Up) => SatSub(UpAt(t, Level(s)), cur)
    case Some(Down) => SatSub(cur + 1, DownAt(t, Level(s) + 1))
  }

  /** Every pair of thresholds is at least `band` apart. */
  predicate Banded(t: ShedThresholds, band: nat) {
    t.t50 >= t.t45 + band && t.t75 >= t.t70 + band && t.t90 >= t.t85 + band && t.t95 >= t.t90 + band
  }

  /** Hysteresis: each pair of thresholds is at least a twentieth of the capacity apart. */
  lemma BandWidth(capacity: nat)
    ensures Banded(ThresholdsFor(capacity), capacity / 20)
  {
  }

  /** One update: the movement pays for the credit it uses up, and a reversal pays a whole band on top. */
  lemma CreditStep(t: ShedThresholds, band: nat, s: ShedStage, last: Option<Direction>, cur: nat, len: nat)
    requires Reached(s, last) && Banded(t, band)
    ensures
      var next := NextStage(t, s, len);
      var change := ChangeOf(s, next);
      && Reached(next, DirectionAfter(last, change))
      && Distance(cur, len) + Credit(t, s, last, cur) >=
         Credit(t, next, DirectionAfter(last, change), len) + (if Reverses(last, change) then band + 1 else 0)
  {
    StepCrosses(t, s, len);
  }

  lemma {:induction false} MovementBound(capacity: nat, s: ShedStage, last: Option<Direction>, cur: nat, lens: seq<nat>)
    requires Reached(s, last)
    ensures Movement(cur, lens) + Credit(ThresholdsFor(capacity), s, last, cur) >=
            Reversals(ThresholdsFor(capacity), s, last, lens) * (capacity / 20 + 1)
    decreases |lens|
  {
    hide NextStage;
    hide ThresholdsFor;
    hide Distance;
    hide Credit;
    hide Reached;
    hide ChangeOf;
    if lens != [] {
      var t := ThresholdsFor(capacity);
      var band := capacity / 20 + 1;
      var next := NextStage(t, s, lens[0]);
      var change := ChangeOf(s, next);
      var after := DirectionAfter(last, change);
      BandWidth(capacity);
      CreditStep(t, capacity / 20, s, last, cur, lens[0]);
      MovementBound(capacity, next, after, lens[0], lens[1..]);
      var r := Reversals(t, next, after, lens[1..]);
      assert (r + 1) * band == r * band + band;
    }
  }

  /**
   * Shedding cannot flap cheaply: r reversals cost at least r times a twentieth of the capacity (plus one) of buffer
   * movement.
   */
  lemma FlappingCosts(capacity: nat, s: ShedStage, lens: seq<nat>)
    requires lens != []
    ensures Movement(lens[0], lens) >= Reversals(ThresholdsFor(capacity), s, None, lens) * (capacity / 20 + 1)
  {
    MovementBound(capacity, s, None, lens[0], lens);
  }

  /** The cost is attained: alternating between the two edges of the lowest band reverses at every step. */
  function Alternation(capacity: nat, r: nat): (lens: seq<nat>)
    requires capacity % 20 == 0 && capacity > 0
    ensures |lens| == r + 1
  {
    if r == 0 then [capacity / 2]
    else Alternation(capacity, r - 1) + [if r % 2 == 1 then capacity / 20 * 9 - 1 else capacity / 2]
  }

  lemma {:induction false} RunSplit(t: ShedThresholds, s: ShedStage, cur: nat, lens: seq<nat>, len: nat)
    ensures RunStage(t, s, lens + [len]) == NextStage(t, RunStage(t, s, lens), len)
    ensures Movement(cur, lens + [len]) ==
            Movement(cur, lens) + Distance(if lens == [] then cur else lens[|lens| - 1], len)
    decreases |lens|
  {
    if lens == [] {
      assert lens + [len] == [len];
      assert [len][1..] == [];
    } else {
      assert (lens + [len])[1..] == lens[1..] + [len];
      RunSplit(t, NextStage(t, s, lens[0]), lens[0], lens[1..], len);
    }
  }

  /** The direction of the last stage change of a run. */
  function LastChange(t: ShedThresholds, s: ShedStage, last: Option<Direction>, lens: seq<nat>): Option<Direction>
    decreases |lens|
  {
    if lens == [] then last
    else
      var next := NextStage(t, s, lens[0]);
      LastChange(t, next, DirectionAfter(last, ChangeOf(s, next)), lens[1..])
  }

  lemma {:induction false} ReversalsSplit(t: ShedThresholds, s: ShedStage, last: Option<Direction>, lens: seq<nat>,
      len: nat)
    ensures
      var before := RunStage(t, s, lens);
      var d := ChangeOf(before, NextStage(t, before, len));
      var l := LastChange(t, s, last, lens);
      && Reversals(t, s, last, lens + [len]) ==
         Reversals(t, s, last, lens) + (if Reverses(l, d) then 1 else 0)
      && LastChange(t, s, last, lens + [len]) == DirectionAfter(l, d)
    decreases |lens|
  {
    if lens == [] {
      assert lens + [len] == [len];
      assert [len][1..] == [];
    } else {
      assert (lens + [len])[1..] == lens[1..] + [len];
      var next := NextStage(t, s, lens[0]);
      ReversalsSplit(t, next, DirectionAfter(last, ChangeOf(s, next)), lens[1..], len);
    }
  }

  lemma LowestBand(capacity: nat)
    requires capacity % 20 == 0 && capacity > 0
    ensures NextStage(ThresholdsFor(capacity), Full, capacity / 2) == PayloadsOff
    ensures NextStage(ThresholdsFor(capacity), PayloadsOff, capacity / 20 * 9 - 1) == Full
    ensures Distance(capacity / 2, capacity / 20 * 9 - 1) == Distance(capacity / 20 * 9 - 1, capacity / 2) ==
            capacity / 20 + 1
  {
  }

  /** The stage and the last change after the alternation, and the length it ends on. */
  predicate EndsOn(capacity: nat, r: nat)
    requires capacity % 20 == 0 && capacity > 0
  {
    var t, lens := ThresholdsFor(capacity), Alternation(capacity, r);
    && RunStage(t, Full, lens) == (if r % 2 == 0 then PayloadsOff else Full)
    && LastChange(t, Full, None, lens) == Some(if r % 2 == 0 then Up else Down)
    && lens[r] == (if r % 2 == 0 then capacity / 2 else capacity / 20 * 9 - 1)
    && lens[0] == capacity / 2
  }

  lemma {:induction false} FlappingCostIsAttained(capacity: nat, r: nat)
    requires capacity % 20 == 0 && capacity > 0
    ensures
      var t := ThresholdsFor(capacity);
      var lens := Alternation(capacity, r);
      && EndsOn(capacity, r)
      && Reversals(t, Full, None, lens) == r
      && Movement(lens[0], lens) == r * (capacity / 20 + 1)
  {
    hide RunStage;
    hide LastChange;
    hide Reversals;
    hide Movement;
    hide ThresholdsFor;
    hide EndsOn;
    if r == 0 {
      AlternationStarts(capacity);
    } else {
      FlappingCostIsAttained(capacity, r - 1);
      AlternationGoesOn(capacity, r);
      assert r * (capacity / 20 + 1) == (r - 1) * (capacity / 20 + 1) + (capacity / 20 + 1);
    }
  }

  lemma AlternationStarts(capacity: nat)
    requires capacity % 20 == 0 && capacity > 0
    ensures
      var t, lens := ThresholdsFor(capacity), Alternation(capacity, 0);
      EndsOn(capacity, 0) && Reversals(t, Full, None, lens) == 0 && Movement(lens[0], lens) == 0
  {
    hide NextStage;
    hide ThresholdsFor;
    hide Distance;
    var t := ThresholdsFor(capacity);
    LowestBand(capacity);
    assert [] + [capacity / 2] == Alternation(capacity, 0);
    RunSplit(t, Full, capacity / 2, [], capacity / 2);
    ReversalsSplit(t, Full, None, [], capacity / 2);
    NoDistance(capacity / 2);
  }

  /** One more swing: one more reversal, one more band of movement. */
  lemma AlternationGoesOn(capacity: nat, r: nat)
    requires capacity % 20 == 0 && capacity > 0 && r > 0 && EndsOn(capacity, r - 1)
    ensures
      var t, front, lens := ThresholdsFor(capacity), Alternation(capacity, r - 1), Alternation(capacity, r);
      && EndsOn(capacity, r)
      && Reversals(t, Full, None, lens) == Reversals(t, Full, None, front) + 1
      && Movement(lens[0], lens) == Movement(front[0], front) + (capacity / 20 + 1)
  {
    hide NextStage;
    hide ThresholdsFor;
    hide Distance;
    hide RunStage;
    hide LastChange;
    hide Reversals;
    hide Movement;
    LowestBand(capacity);
    var t, front := ThresholdsFor(capacity), Alternation(capacity, r - 1);
    var len := if r % 2 == 1 then capacity / 20 * 9 - 1 else capacity / 2;
    RunSplit(t, Full, front[0], front, len);
    ReversalsSplit(t, Full, None, front, len);
  }

  lemma NoDistance(a: nat)
    ensures Distance(a, a) == 0
  {
  }

  /** With a constant length the stage moves one way only, and four updates settle it for good. */
  lemma ConstantLengthSettles(t: ShedThresholds, s: ShedStage, len: nat)
    requires t.t45 <= t.t50 <= t.t70 <= t.t75 <= t.t85 <= t.t90 <= t.t95
    ensures
      var a := NextStage(t, s, len);
      var b := NextStage(t, a, len);
      var c := NextStage(t, b, len);
      var d := NextStage(t, c, len);
      && (Level(s) <= Level(a) <= Level(b) <= Level(c) <= Level(d) ||
         Level(s) >= Level(a) >= Level(b) >= Level(c) >= Level(d))
      && NextStage(t, d, len) == d
  {
  }

  /** Every capacity gives ordered thresholds. */
  lemma ThresholdsOrdered(capacity: nat)
    ensures var t := ThresholdsFor(capacity); t.t45 <= t.t50 <= t.t70 <= t.t75 <= t.t85 <= t.t90 <= t.t95
  {
  }

  /** How many of the next `n` packets are kept when the counter stands at `counter`. */
  function KeptOf(counter: nat, n: nat): nat {
    if n == 0 then 0 else KeptOf(counter, n - 1) + (if (counter + n) % 2 == 0 then 1 else 0)
  }

  /** One in two, whatever the counter and however the packets fall into batches. */
  lemma {:induction false} SamplingIsHalf(counter: nat, n: nat)
    ensures KeptOf(counter, n) == (counter + n) / 2 - counter / 2
  {
    if n > 0 {
      SamplingIsHalf(counter, n - 1);
    }
  }

  // ---------------------------------------------------------------- every update, level by level

  /**
   * When each update moves, in percentages of the capacity: up from the first level at 50, from the second at 75, the
   * third at 90 and the fourth at 95, down below 45, 70, 85 and 90.
   */
  lemma UpdateExactly(capacity: u64, len: nat)
    requires capacity * 95 < TWO_64
    ensures
      var t := ComputedThresholds(capacity);
      && NextStage(t, Full, len) == (if len >= capacity * 50 / 100 then PayloadsOff else Full)
      && NextStage(t, PayloadsOff, len) ==
         (if len >= capacity * 75 / 100 then SampleDissection
          else if len < capacity * 45 / 100 then Full else PayloadsOff)
      && NextStage(t, SampleDissection, len) ==
         (if len >= capacity * 90 / 100 then CoarsenMetrics
          else if len < capacity * 70 / 100 then PayloadsOff else SampleDissection)
      && NextStage(t, CoarsenMetrics, len) ==
         (if len >= capacity * 95 / 100 then DropPackets
          else if len < capacity * 85 / 100 then SampleDissection else CoarsenMetrics)
      && NextStage(t, DropPackets, len) == (if len < capacity * 90 / 100 then CoarsenMetrics else DropPackets)
  {
    ThresholdsComputed(capacity);
    hide ComputedThresholds;
  }

  /** Whatever the thresholds, a level is left upwards exactly at its threshold, and downwards exactly below its own. */
  lemma MovesExactly(t: ShedThresholds, s: ShedStage, len: nat)
    ensures Level(NextStage(t, s, len)) > Level(s) <==>
            (s == Full && len >= t.t50) || (s == PayloadsOff && len >= t.t75) ||
            (s == SampleDissection && len >= t.t90) || (s == CoarsenMetrics && len >= t.t95)
    ensures Level(NextStage(t, s, len)) < Level(s) <==>
            (s == PayloadsOff && len < t.t75 && len < t.t45) || (s == SampleDissection && len < t.t90 && len < t.t70) ||
            (s == CoarsenMetrics && len < t.t95 && len < t.t85) || (s == DropPackets && len < t.t90)
  {
  }
}
