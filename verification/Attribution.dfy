/** Attribution of flows to processes: a time-windowed, size-bounded cache of socket owners. */
module Attribution {
  import opened Wrappers
  import opened Bytes

  datatype IpAddr = V4(v4: u32) | V6(v6: nat)

  datatype L4Proto = Tcp | Udp | Other(num: byte)

  datatype FiveTuple = FiveTuple(srcIp: IpAddr, srcPort: u16, dstIp: IpAddr, dstPort: u16, l4: L4Proto)

  datatype SocketOwner = SocketOwner(tuple: FiveTuple, pid: u64, startMonoNanos: u64)

  datatype CachedMapping = CachedMapping(pid: u64, startMonoNanos: u64, observedAt: u64)

  datatype Confidence = High | Low | Unknown

  datatype Outcome = Outcome(pid: Option<u64>, startMonoNanos: u64, confidence: Confidence)

  const UNKNOWN_OWNER := Outcome(None, 0, Unknown)

  const MAPPING_VALIDITY_NANOS: u64 := 2_000_000_000
  const RETRO_MATCH_NANOS: u64 := 1_000_000_000
  const MAX_CACHED_MAPPINGS: nat := 100_000

  type Cache = map<FiveTuple, CachedMapping>

  // ---------------------------------------------------------------- candidates

  datatype Rank = WildcardUdp | SpecificUdp | ReversedExact | DirectExact

  function Specificity(r: Rank): nat {
    match r
    case WildcardUdp => 1
    case SpecificUdp => 2
    case ReversedExact => 3
    case DirectExact => 4
  }

  datatype Candidate = Candidate(tuple: FiveTuple, rank: Rank)

  function Reversed(t: FiveTuple): FiveTuple { FiveTuple(t.dstIp, t.dstPort, t.srcIp, t.srcPort, t.l4) }

  /** The unspecified address of the same family. */
  function Wildcard(ip: IpAddr): IpAddr {
    match ip
    case V4(_) => V4(0)
    case V6(_) => V6(0)
  }

  function Listener(ip: IpAddr, port: u16): FiveTuple { FiveTuple(ip, port, ip, 0, Udp) }

  /** The cache keys a flow may match, in the order they are tried. */
  function Candidates(t: FiveTuple): seq<Candidate> {
    [Candidate(t, DirectExact), Candidate(Reversed(t), ReversedExact)] +
    if t.l4 != Udp then []
    else
      [Candidate(Listener(t.srcIp, t.srcPort), SpecificUdp),
       Candidate(Listener(Wildcard(t.srcIp), t.srcPort), WildcardUdp),
       Candidate(Listener(t.dstIp, t.dstPort), SpecificUdp),
       Candidate(Listener(Wildcard(t.dstIp), t.dstPort), WildcardUdp)]
  }

  /** The end of a mapping's validity window; the sum wraps (release build). */
  function WindowEnd(observedAt: u64): u64 { (observedAt + MAPPING_VALIDITY_NANOS) % TWO_64 }

  /** The mapping's validity window, with its retroactive part, contains the flow start. */
  predicate InWindow(m: CachedMapping, flowStart: u64) {
    SatSub(m.observedAt, RETRO_MATCH_NANOS) <= flowStart < WindowEnd(m.observedAt)
  }

  predicate Live(cache: Cache, c: Candidate, flowStart: u64) {
    c.tuple in cache && InWindow(cache[c.tuple], flowStart)
  }

  function ConfidenceOf(rank: Rank, m: CachedMapping, flowStart: u64): Confidence {
    if rank == WildcardUdp then Low
    else if flowStart >= m.observedAt then High
    else Low
  }

  datatype Match = Match(rank: Rank, pid: u64, startMonoNanos: u64, confidence: Confidence)

  function MatchOf(cache: Cache, c: Candidate, flowStart: u64): Match
    requires c.tuple in cache
  {
    var m := cache[c.tuple];
    Match(c.rank, m.pid, m.startMonoNanos, ConfidenceOf(c.rank, m, flowStart))
  }

  /** The live candidates, in order. */
  function Matches(cache: Cache, cs: seq<Candidate>, flowStart: u64): seq<Match> {
    if cs == [] then []
    else
      var c := cs[|cs| - 1];
      Matches(cache, cs[..|cs| - 1], flowStart) +
        (if Live(cache, c, flowStart) then [MatchOf(cache, c, flowStart)] else [])
  }

  /** The highest specificity among the matches, or 0. */
  function Highest(ms: seq<Match>): nat {
    if ms == [] then 0 else Max(Highest(ms[..|ms| - 1]), Specificity(ms[|ms| - 1].rank))
  }

  function AtRank(ms: seq<Match>, level: nat): seq<Match> {
    if ms == [] then []
    else
      var m := ms[|ms| - 1];
      AtRank(ms[..|ms| - 1], level) + (if Specificity(m.rank) == level then [m] else [])
  }

  predicate AllAgree(ms: seq<Match>) {
    forall i :: 0 <= i < |ms| ==> ms[i].pid == ms[0].pid && ms[i].startMonoNanos == ms[0].startMonoNanos
  }

  /** Among the matches only the highest rank counts, and only if it agrees with itself. */
  function Judge(ms: seq<Match>): Outcome {
    var top := AtRank(ms, Highest(ms));
    if ms == [] || top == [] || !AllAgree(top) then UNKNOWN_OWNER
    else Outcome(Some(top[0].pid), top[0].startMonoNanos, top[0].confidence)
  }

  function Answer(cache: Cache, t: FiveTuple, flowStart: u64): Outcome {
    Judge(Matches(cache, Candidates(t), flowStart))
  }

  // ---------------------------------------------------------------- cache updates

  function Observed(o: SocketOwner, at: u64): CachedMapping { CachedMapping(o.pid, o.startMonoNanos, at) }

  /** Every owner inserted in turn; a later entry for the same tuple wins. */
  function Inserted(cache: Cache, at: u64, owners: seq<SocketOwner>): Cache {
    if owners == [] then cache
    else
      var o := owners[|owners| - 1];
      Inserted(cache, at, owners[..|owners| - 1])[o.tuple := Observed(o, at)]
  }

  predicate Unexpired(m: CachedMapping, now: u64) { WindowEnd(m.observedAt) > now }

  function Evicted(cache: Cache, now: u64): (kept: Cache)
    ensures kept.Keys <= cache.Keys
  {
    map t | t in cache && Unexpired(cache[t], now) :: cache[t]
  }

  predicate SubCache(part: Cache, whole: Cache) {
    forall t :: t in part ==> t in whole && part[t] == whole[t]
  }

  /** What the ceiling may leave of `full`: which of equally old mappings go is the hash map's choice. */
  predicate Ceiled(full: Cache, at: u64, after: Cache) {
    if |full| <= MAX_CACHED_MAPPINGS then after == full
    else
      var kept := Evicted(full, at);
      if |kept| <= MAX_CACHED_MAPPINGS then after == kept
      else
        && SubCache(after, kept)
        && |after| == MAX_CACHED_MAPPINGS
        && forall gone, left :: gone in kept && gone !in after && left in after ==>
             kept[gone].observedAt <= after[left].observedAt
  }

  predicate IngestStep(before: Cache, at: u64, owners: seq<SocketOwner>, after: Cache) {
    Ceiled(Inserted(before, at, owners), at, after)
  }

  // ---------------------------------------------------------------- sorting by age

  datatype Aged = Aged(observedAt: u64, tuple: FiveTuple)

  function InsertByAge(x: Aged, s: seq<Aged>): seq<Aged> {
    if s == [] || x.observedAt < s[0].observedAt then [x] + s else [s[0]] + InsertByAge(x, s[1..])
  }

  /** The stable sort by observation time. */
  function SortByAge(s: seq<Aged>): seq<Aged> {
    if s == [] then [] else InsertByAge(s[|s| - 1], SortByAge(s[..|s| - 1]))
  }

  predicate Oldest(s: seq<Aged>) {
    forall i, j :: 0 <= i < j < |s| ==> s[i].observedAt <= s[j].observedAt
  }

  predicate Distinct(s: seq<Aged>) {
    forall i, j :: 0 <= i < j < |s| ==> s[i].tuple != s[j].tuple
  }

  lemma {:induction false} InsertByAgeMembers(x: Aged, s: seq<Aged>)
    ensures |InsertByAge(x, s)| == |s| + 1
    ensures forall y :: y in InsertByAge(x, s) <==> y == x || y in s
  {
    if s != [] && x.observedAt >= s[0].observedAt {
      InsertByAgeMembers(x, s[1..]);
      assert s == [s[0]] + s[1..];
    }
  }

  lemma HeadOldest(x: Aged, s: seq<Aged>)
    requires Oldest(s) && Distinct(s)
    requires forall y :: y in s ==> x.observedAt <= y.observedAt && x.tuple != y.tuple
    ensures Oldest([x] + s) && Distinct([x] + s)
  {
    var t := [x] + s;
    assert forall i :: 0 < i < |t| ==> t[i] == s[i - 1] && t[i] in s;
  }

  lemma {:induction false} InsertByAgeSorts(x: Aged, s: seq<Aged>)
    requires Oldest(s) && Distinct(s) && forall y :: y in s ==> y.tuple != x.tuple
    ensures Oldest(InsertByAge(x, s)) && Distinct(InsertByAge(x, s))
  {
    if s == [] {
    } else if x.observedAt < s[0].observedAt {
      forall y | y in s
        ensures x.observedAt <= y.observedAt
      {
        var i :| 0 <= i < |s| && s[i] == y;
        assert s[0].observedAt <= s[i].observedAt;
      }
      HeadOldest(x, s);
    } else {
      var tail := s[1..];
      assert forall i :: 0 <= i < |tail| ==> tail[i] == s[i + 1];
      InsertByAgeSorts(x, tail);
      InsertByAgeMembers(x, tail);
      HeadOldest(s[0], InsertByAge(x, tail));
    }
  }

  lemma {:induction false} SortByAgeMembers(s: seq<Aged>)
    ensures |SortByAge(s)| == |s|
    ensures forall y :: y in SortByAge(s) <==> y in s
  {
    if s != [] {
      var front := s[..|s| - 1];
      SortByAgeMembers(front);
      InsertByAgeMembers(s[|s| - 1], SortByAge(front));
      assert s == front + [s[|s| - 1]];
    }
  }

  lemma {:induction false} SortByAgeSorts(s: seq<Aged>)
    requires Distinct(s)
    ensures Oldest(SortByAge(s)) && Distinct(SortByAge(s))
  {
    if s == [] {
      assert SortByAge(s) == [];
    } else {
      var front := s[..|s| - 1];
      SortByAgeSorts(front);
      SortByAgeMembers(front);
      InsertByAgeSorts(s[|s| - 1], SortByAge(front));
    }
  }

  /** A list naming each cached tuple once, with its observation time. */
  predicate Lists(s: seq<Aged>, cache: Cache) {
    && |s| == |cache|
    && (forall y :: y in s ==> y.tuple in cache && y.observedAt == cache[y.tuple].observedAt)
    && Distinct(s)
  }

  lemma SortedStillLists(s: seq<Aged>, cache: Cache)
    requires Lists(s, cache)
    ensures Lists(SortByAge(s), cache) && Oldest(SortByAge(s))
  {
    SortByAgeSorts(s);
    SortByAgeMembers(s);
  }

  // ---------------------------------------------------------------- the correlator

  class Correlator {
    var cache: Cache
    var latestSnapshotAt: u64

    constructor ()
      ensures cache == map[] && latestSnapshotAt == 0
    {
      cache := map[];
      latestSnapshotAt := 0;
    }

    method IngestSnapshot(at: u64, owners: seq<SocketOwner>)
      modifies this
      ensures latestSnapshotAt == Max(old(latestSnapshotAt), at)
      ensures IngestStep(old(cache), at, owners, cache)
    {
      latestSnapshotAt := Max(latestSnapshotAt, at);
      for i := 0 to |owners|
        invariant cache == Inserted(old(cache), at, owners[..i])
        invariant latestSnapshotAt == Max(old(latestSnapshotAt), at)
      {
        var o := owners[i];
        assert owners[..i + 1][..i] == owners[..i];
        cache := cache[o.tuple := CachedMapping(o.pid, o.startMonoNanos, at)];
      }
      assert owners[..|owners|] == owners;
      if |cache| > MAX_CACHED_MAPPINGS {
        var pruned := EvictExpired(at);
        if |cache| > MAX_CACHED_MAPPINGS {
          DropOldest();
        }
      }
    }

    /** Drop the mappings whose window ended by `now`, and say how many. */
    method EvictExpired(now: u64) returns (pruned: nat)
      modifies this`cache
      ensures cache == Evicted(old(cache), now) && pruned == |old(cache)| - |cache|
    {
      var before := |cache|;
      EvictedSmaller(cache, now);
      cache := map t | t in cache && (cache[t].observedAt + MAPPING_VALIDITY_NANOS) % TWO_64 > now :: cache[t];
      assert cache == Evicted(old(cache), now);
      pruned := before - |cache|;
    }

    /** Remove the oldest observations until the ceiling is met. */
    method DropOldest()
      requires |cache| > MAX_CACHED_MAPPINGS
      modifies this`cache
      ensures SubCache(cache, old(cache)) && |cache| == MAX_CACHED_MAPPINGS
      ensures forall gone, left :: gone in old(cache) && gone !in cache && left in cache ==>
                old(cache)[gone].observedAt <= cache[left].observedAt
    {
      hide Oldest;
      hide SortByAge;
      hide Lists;
      var byAge := ListByAge();
      SortedStillLists(byAge, cache);
      byAge := SortByAge(byAge);
      var excess := |cache| - MAX_CACHED_MAPPINGS;
      ghost var full := cache;
      DropStart(byAge, cache);
      hide SubCache;
      hide Dropped;
      for i := 0 to excess
        invariant Dropped(byAge, full, cache, i)
      {
        DropStep(byAge, full, cache, i);
        cache := cache - {byAge[i].tuple};
      }
      OldestGone(byAge, full, cache, excess);
    }

    /** The cache's entries in whatever order the hash map yields them. */
    method ListByAge() returns (byAge: seq<Aged>)
      ensures Lists(byAge, cache)
    {
      byAge := [];
      var rest := cache.Keys;
      while rest != {}
        invariant rest <= cache.Keys && |byAge| + |rest| == |cache.Keys|
        invariant forall y :: y in byAge ==>
                    y.tuple in cache && y.tuple !in rest && y.observedAt == cache[y.tuple].observedAt
        invariant Distinct(byAge)
        decreases rest
      {
        var t :| t in rest;
        byAge := byAge + [Aged(cache[t].observedAt, t)];
        rest := rest - {t};
      }
    }

    method Attribute(tuple: FiveTuple, flowStart: u64) returns (r: Outcome)
      ensures r == Answer(cache, tuple, flowStart)
    {
      var candidates := [Candidate(tuple, DirectExact)];
      candidates := candidates + [Candidate(Reversed(tuple), ReversedExact)];
      if tuple.l4 == Udp {
        candidates := candidates + [Candidate(Listener(tuple.srcIp, tuple.srcPort), SpecificUdp)];
        candidates := candidates + [Candidate(Listener(Wildcard(tuple.srcIp), tuple.srcPort), WildcardUdp)];
        candidates := candidates + [Candidate(Listener(tuple.dstIp, tuple.dstPort), SpecificUdp)];
        candidates := candidates + [Candidate(Listener(Wildcard(tuple.dstIp), tuple.dstPort), WildcardUdp)];
      }
      assert candidates == Candidates(tuple);
      var validMatches := CollectMatches(candidates, flowStart);
      r := PickTop(validMatches);
    }

    /** The temporal filter over the candidate keys. */
    method CollectMatches(candidates: seq<Candidate>, flowStart: u64) returns (validMatches: seq<Match>)
      ensures validMatches == Matches(cache, candidates, flowStart)
    {
      validMatches := [];
      for i := 0 to |candidates|
        invariant validMatches == Matches(cache, candidates[..i], flowStart)
      {
        var cand := candidates[i];
        assert candidates[..i + 1][..i] == candidates[..i];
        if cand.tuple !in cache {
          continue;
        }
        var m := cache[cand.tuple];
        var validFrom := SatSub(m.observedAt, RETRO_MATCH_NANOS);
        var validTo := (m.observedAt + MAPPING_VALIDITY_NANOS) % TWO_64;
        if flowStart >= validFrom && flowStart < validTo {
          var isDirectWindow := flowStart >= m.observedAt;
          var confidence := if cand.rank != WildcardUdp && isDirectWindow then High else Low;
          validMatches := validMatches + [Match(cand.rank, m.pid, m.startMonoNanos, confidence)];
        }
      }
      assert candidates[..|candidates|] == candidates;
    }
  }

  /** Ranking and the ambiguity guard over the live matches. */
  method PickTop(validMatches: seq<Match>) returns (r: Outcome)
    ensures r == Judge(validMatches)
  {
    if validMatches == [] {
      return UNKNOWN_OWNER;
    }
    var maxRank := 0;
    for i := 0 to |validMatches|
      invariant maxRank == Highest(validMatches[..i])
    {
      assert validMatches[..i + 1][..i] == validMatches[..i];
      maxRank := Max(maxRank, Specificity(validMatches[i].rank));
    }
    assert validMatches[..|validMatches|] == validMatches;
    var top: seq<Match> := [];
    for i := 0 to |validMatches|
      invariant top == AtRank(validMatches[..i], maxRank)
    {
      assert validMatches[..i + 1][..i] == validMatches[..i];
      if Specificity(validMatches[i].rank) == maxRank {
        top := top + [validMatches[i]];
      }
    }
    HighestAttained(validMatches);
    var first := top[0];
    for i := 0 to |top|
      invariant forall j :: 0 <= j < i ==> top[j].pid == first.pid && top[j].startMonoNanos == first.startMonoNanos
    {
      if top[i].pid != first.pid || top[i].startMonoNanos != first.startMonoNanos {
        return UNKNOWN_OWNER;
      }
    }
    return Outcome(Some(first.pid), first.startMonoNanos, first.confidence);
  }

  /** The first `i` of the list are gone and nothing else is. */
  predicate Dropped(s: seq<Aged>, full: Cache, left: Cache, i: nat) {
    && SubCache(left, full) && |left| == |full| - i
    && forall j :: 0 <= j < |s| ==> (s[j].tuple in left <==> j >= i)
  }

  lemma DropStart(s: seq<Aged>, full: Cache)
    requires Lists(s, full)
    ensures Dropped(s, full, full, 0) && |s| == |full|
  {
    assert forall j :: 0 <= j < |s| ==> s[j] in s;
  }

  lemma DropStep(s: seq<Aged>, full: Cache, left: Cache, i: nat)
    requires Lists(s, full) && Dropped(s, full, left, i) && i < |s|
    ensures Dropped(s, full, left - {s[i].tuple}, i + 1)
  {
    RemoveOne(left, s[i].tuple);
    assert forall j :: 0 <= j < |s| && j != i ==> s[j].tuple != s[i].tuple;
  }

  lemma RemoveOne(cache: Cache, t: FiveTuple)
    requires t in cache
    ensures |cache - {t}| == |cache| - 1
  {
    var smaller := cache - {t};
    assert smaller.Keys == cache.Keys - {t};
    assert |smaller.Keys| == |cache.Keys| - 1;
  }

  /** Eviction keeps a mapping exactly while less than two seconds have passed since it was observed. */
  lemma EvictedExactly(cache: Cache, now: u64, t: FiveTuple)
    ensures t in Evicted(cache, now) <==>
            t in cache && (cache[t].observedAt + 2_000_000_000) % 0x1_0000_0000_0000_0000 > now
    ensures t in Evicted(cache, now) ==> Evicted(cache, now)[t] == cache[t]
  {
  }

  /** What is gone is no newer than what is left. */
  lemma OldestGone(s: seq<Aged>, full: Cache, left: Cache, excess: nat)
    requires Lists(s, full) && Oldest(s) && Dropped(s, full, left, excess)
    ensures SubCache(left, full) && |left| == |full| - excess
    ensures forall t, u :: t in full && t !in left && u in left ==> full[t].observedAt <= left[u].observedAt
  {
    ListsAll(s, full);
    forall t, u | t in full && t !in left && u in left
      ensures full[t].observedAt <= left[u].observedAt
    {
      var i :| 0 <= i < |s| && s[i].tuple == t;
      var j :| 0 <= j < |s| && s[j].tuple == u;
      assert s[i] in s && s[j] in s;
      assert s[i].observedAt <= s[j].observedAt;
    }
  }

  lemma EvictedSmaller(cache: Cache, now: u64)
    ensures |Evicted(cache, now)| <= |cache|
  {
    FewerKeys(Evicted(cache, now).Keys, cache.Keys);
  }

  lemma FewerKeys(a: set<FiveTuple>, b: set<FiveTuple>)
    requires a <= b
    ensures |a| <= |b|
  {
    assert |b| == |b - a| + |a| by {
      assert b == (b - a) + a && (b - a) * a == {};
    }
  }

  /** A list of all cached tuples misses none. */
  lemma ListsAll(s: seq<Aged>, cache: Cache)
    requires Lists(s, cache)
    ensures forall t :: t in cache ==> exists i :: 0 <= i < |s| && s[i].tuple == t
  {
    var named := Named(s);
    NamedSize(s);
    forall t | t in cache
      ensures t in named
    {
      if t !in named {
        assert forall u :: u in named ==> u in cache by {
          assert forall i :: 0 <= i < |s| ==> s[i] in s;
        }
        FewerKeys(named + {t}, cache.Keys);
      }
    }
  }

  function Named(s: seq<Aged>): (ts: set<FiveTuple>)
    ensures forall t :: t in ts <==> exists i :: 0 <= i < |s| && s[i].tuple == t
  {
    if s == [] then {}
    else
      var ts := Named(s[..|s| - 1]) + {s[|s| - 1].tuple};
      assert forall i :: 0 <= i < |s| - 1 ==> s[i] == s[..|s| - 1][i];
      ts
  }

  lemma {:induction false} NamedSize(s: seq<Aged>)
    requires Distinct(s)
    ensures |Named(s)| == |s|
  {
    if s != [] {
      NamedSize(s[..|s| - 1]);
      assert s[|s| - 1].tuple !in Named(s[..|s| - 1]);
    }
  }

  lemma {:induction false} HighestAttained(ms: seq<Match>)
    ensures forall i :: 0 <= i < |ms| ==> Specificity(ms[i].rank) <= Highest(ms)
    ensures ms != [] ==> AtRank(ms, Highest(ms)) != []
  {
    if ms != [] {
      var front := ms[..|ms| - 1];
      HighestAttained(front);
      assert forall i :: 0 <= i < |front| ==> front[i] == ms[i];
      if front == [] {
        assert Highest(front) == 0;
      }
    }
  }

  // ---------------------------------------------------------------- never a guess

  /** A live candidate that nothing live outranks and that every live candidate of its rank agrees with. */
  predicate Decisive(cache: Cache, cs: seq<Candidate>, flowStart: u64, i: nat) {
    && i < |cs| && Live(cache, cs[i], flowStart)
    && forall j :: 0 <= j < |cs| && Live(cache, cs[j], flowStart) ==>
         && Specificity(cs[j].rank) <= Specificity(cs[i].rank)
         && (cs[j].rank == cs[i].rank ==>
               cache[cs[j].tuple].pid == cache[cs[i].tuple].pid &&
               cache[cs[j].tuple].startMonoNanos == cache[cs[i].tuple].startMonoNanos)
  }

  /** The first live candidate of its rank. */
  predicate Leads(cache: Cache, cs: seq<Candidate>, flowStart: u64, i: nat) {
    && i < |cs| && Live(cache, cs[i], flowStart)
    && forall j :: 0 <= j < i && Live(cache, cs[j], flowStart) ==> cs[j].rank != cs[i].rank
  }

  lemma {:induction false} MatchesAre(cache: Cache, cs: seq<Candidate>, flowStart: u64)
    ensures forall m :: m in Matches(cache, cs, flowStart) <==>
              exists i :: 0 <= i < |cs| && Live(cache, cs[i], flowStart) && m == MatchOf(cache, cs[i], flowStart)
  {
    if cs != [] {
      var front, last := cs[..|cs| - 1], cs[|cs| - 1];
      MatchesAre(cache, front, flowStart);
      assert cs == front + [last];
      forall m
        ensures m in Matches(cache, cs, flowStart) <==>
                exists i :: 0 <= i < |cs| && Live(cache, cs[i], flowStart) && m == MatchOf(cache, cs[i], flowStart)
      {
        if m in Matches(cache, front, flowStart) {
          var i :| 0 <= i < |front| && Live(cache, front[i], flowStart) && m == MatchOf(cache, front[i], flowStart);
          assert cs[i] == front[i];
        }
        if i :| 0 <= i < |cs| && Live(cache, cs[i], flowStart) && m == MatchOf(cache, cs[i], flowStart) {
          if i < |front| {
            assert front[i] == cs[i];
          }
        }
      }
    }
  }

  lemma {:induction false} AtRankIs(ms: seq<Match>, level: nat)
    ensures forall m :: m in AtRank(ms, level) <==> m in ms && Specificity(m.rank) == level
  {
    if ms != [] {
      AtRankIs(ms[..|ms| - 1], level);
      assert ms == ms[..|ms| - 1] + [ms[|ms| - 1]];
    }
  }

  lemma AtRankSnoc(ms: seq<Match>, m: Match, level: nat)
    ensures AtRank(ms + [m], level) == AtRank(ms, level) + (if Specificity(m.rank) == level then [m] else [])
  {
    assert (ms + [m])[..|ms|] == ms;
  }

  function LiveMatch(cache: Cache, c: Candidate, flowStart: u64): (m: Match)
    requires Live(cache, c, flowStart)
    ensures m == MatchOf(cache, c, flowStart) && m.rank == c.rank
  {
    MatchOf(cache, c, flowStart)
  }

  /** One more candidate, and what it adds at a rank. */
  lemma AtRankOneMore(cache: Cache, cs: seq<Candidate>, flowStart: u64, level: nat)
    requires cs != []
    ensures
      var front, last := cs[..|cs| - 1], cs[|cs| - 1];
      AtRank(Matches(cache, cs, flowStart), level) ==
      AtRank(Matches(cache, front, flowStart), level) +
      (if Live(cache, last, flowStart) && Specificity(last.rank) == level
       then [LiveMatch(cache, last, flowStart)] else [])
  {
    hide Live;
    hide AtRank;
    var front, last := cs[..|cs| - 1], cs[|cs| - 1];
    var before := Matches(cache, front, flowStart);
    if Live(cache, last, flowStart) {
      var m := LiveMatch(cache, last, flowStart);
      assert Matches(cache, cs, flowStart) == before + [m];
      AtRankSnoc(before, m, level);
    } else {
      assert Matches(cache, cs, flowStart) == before + [] == before;
    }
  }

  lemma {:induction false} NoneAtRank(cache: Cache, cs: seq<Candidate>, flowStart: u64, rank: Rank)
    requires forall j :: 0 <= j < |cs| && Live(cache, cs[j], flowStart) ==> cs[j].rank != rank
    ensures AtRank(Matches(cache, cs, flowStart), Specificity(rank)) == []
  {
    hide Live;
    if cs != [] {
      var front := cs[..|cs| - 1];
      assert forall j :: 0 <= j < |front| ==> front[j] == cs[j];
      NoneAtRank(cache, front, flowStart, rank);
      AtRankOneMore(cache, cs, flowStart, Specificity(rank));
    }
  }

  /** The top list starts with the match of the first live candidate of that rank. */
  lemma {:induction false} LeaderIsFirst(cache: Cache, cs: seq<Candidate>, flowStart: u64, i: nat)
    requires Leads(cache, cs, flowStart, i)
    ensures
      var top := AtRank(Matches(cache, cs, flowStart), Specificity(cs[i].rank));
      top != [] && top[0] == LiveMatch(cache, cs[i], flowStart)
  {
    hide Live;
    hide AtRank;
    var front := cs[..|cs| - 1];
    assert forall j :: 0 <= j < |front| ==> front[j] == cs[j];
    AtRankOneMore(cache, cs, flowStart, Specificity(cs[i].rank));
    if i < |front| {
      LeaderIsFirst(cache, front, flowStart, i);
    } else {
      NoneAtRank(cache, front, flowStart, cs[i].rank);
    }
  }

  lemma DecisiveIsTop(cache: Cache, cs: seq<Candidate>, flowStart: u64, i: nat)
    requires Decisive(cache, cs, flowStart, i)
    ensures
      var ms := Matches(cache, cs, flowStart);
      && ms != [] && Highest(ms) == Specificity(cs[i].rank)
      && AllAgree(AtRank(ms, Highest(ms)))
      && forall m :: m in AtRank(ms, Highest(ms)) ==>
           m.pid == cache[cs[i].tuple].pid && m.startMonoNanos == cache[cs[i].tuple].startMonoNanos
  {
    var ms := Matches(cache, cs, flowStart);
    MatchesAre(cache, cs, flowStart);
    HighestAttained(ms);
    AtRankIs(ms, Highest(ms));
    assert MatchOf(cache, cs[i], flowStart) in ms;
    var top := AtRank(ms, Highest(ms));
    assert top[0] in top;
    forall m | m in ms
      ensures Specificity(m.rank) <= Specificity(cs[i].rank)
      ensures Specificity(m.rank) == Specificity(cs[i].rank) ==>
                m.pid == cache[cs[i].tuple].pid && m.startMonoNanos == cache[cs[i].tuple].startMonoNanos
    {
      var j :| 0 <= j < |cs| && Live(cache, cs[j], flowStart) && m == MatchOf(cache, cs[j], flowStart);
    }
    forall k | 0 <= k < |top|
      ensures top[k] in top
    {
    }
  }

  /**
   * Never a guess: a process is named exactly when some live candidate is decisive, and then it is that
   * candidate's process; in every other case the owner is unknown.
   */
  lemma NeverGuesses(cache: Cache, t: FiveTuple, flowStart: u64)
    ensures Answer(cache, t, flowStart).pid.Some? <==> exists i: nat :: Decisive(cache, Candidates(t), flowStart, i)
    ensures forall i: nat :: Decisive(cache, Candidates(t), flowStart, i) ==>
              Answer(cache, t, flowStart).pid == Some(cache[Candidates(t)[i].tuple].pid) &&
              Answer(cache, t, flowStart).startMonoNanos == cache[Candidates(t)[i].tuple].startMonoNanos
    ensures forall i: nat ::
              Decisive(cache, Candidates(t), flowStart, i) && Leads(cache, Candidates(t), flowStart, i) ==>
              Answer(cache, t, flowStart).confidence ==
              ConfidenceOf(Candidates(t)[i].rank, cache[Candidates(t)[i].tuple], flowStart)
    ensures Answer(cache, t, flowStart).pid.None? ==> Answer(cache, t, flowStart) == UNKNOWN_OWNER
  {
    var cs := Candidates(t);
    hide Candidates;
    hide Matches;
    hide AtRank;
    var ms := Matches(cache, cs, flowStart);
    var top := AtRank(ms, Highest(ms));
    HighestAttained(ms);
    forall i: nat | Decisive(cache, cs, flowStart, i)
      ensures Answer(cache, t, flowStart).pid == Some(cache[cs[i].tuple].pid)
      ensures Answer(cache, t, flowStart).startMonoNanos == cache[cs[i].tuple].startMonoNanos
      ensures Leads(cache, cs, flowStart, i) ==>
                Answer(cache, t, flowStart).confidence == ConfidenceOf(cs[i].rank, cache[cs[i].tuple], flowStart)
    {
      DecisiveIsTop(cache, cs, flowStart, i);
      assert top[0] in top;
      if Leads(cache, cs, flowStart, i) {
        LeaderIsFirst(cache, cs, flowStart, i);
      }
    }
    if Answer(cache, t, flowStart).pid.Some? {
      var i := TopIsDecisive(cache, cs, flowStart);
    }
  }

  lemma TopIsDecisive(cache: Cache, cs: seq<Candidate>, flowStart: u64) returns (i: nat)
    requires
      var ms := Matches(cache, cs, flowStart);
      ms != [] && AllAgree(AtRank(ms, Highest(ms)))
    ensures Decisive(cache, cs, flowStart, i)
  {
    var ms := Matches(cache, cs, flowStart);
    var top := AtRank(ms, Highest(ms));
    HighestAttained(ms);
    MatchesAre(cache, cs, flowStart);
    AtRankIs(ms, Highest(ms));
    assert top[0] in top;
    i :| 0 <= i < |cs| && Live(cache, cs[i], flowStart) && top[0] == MatchOf(cache, cs[i], flowStart);
    forall j | 0 <= j < |cs| && Live(cache, cs[j], flowStart)
      ensures Specificity(cs[j].rank) <= Specificity(cs[i].rank)
      ensures cs[j].rank == cs[i].rank ==>
                cache[cs[j].tuple].pid == cache[cs[i].tuple].pid &&
                cache[cs[j].tuple].startMonoNanos == cache[cs[i].tuple].startMonoNanos
    {
      var m := MatchOf(cache, cs[j], flowStart);
      assert m in ms;
      var n :| 0 <= n < |ms| && ms[n] == m;
      if cs[j].rank == cs[i].rank {
        assert m in top;
        var k :| 0 <= k < |top| && top[k] == m;
      }
    }
  }

  // ---------------------------------------------------------------- the answer, case by case

  /** Observed at most a second after the flow started and, its window's end not wrapping, less than two before. */
  predicate Open(cache: Cache, key: FiveTuple, flowStart: u64) {
    && key in cache && cache[key].observedAt <= flowStart + 1_000_000_000
    && flowStart < (cache[key].observedAt + 2_000_000_000) % 0x1_0000_0000_0000_0000
  }

  /** The process at a key: sure of it if the flow started at or after the observation. */
  function Surely(m: CachedMapping, flowStart: u64): Outcome {
    Outcome(Some(m.pid), m.startMonoNanos, if flowStart >= m.observedAt then High else Low)
  }

  function Hardly(m: CachedMapping): Outcome { Outcome(Some(m.pid), m.startMonoNanos, Low) }

  predicate SameProcess(a: CachedMapping, b: CachedMapping) {
    a.pid == b.pid && a.startMonoNanos == b.startMonoNanos
  }

  /** The mappings of the two ends contradict each other. */
  predicate Clash(cache: Cache, a: FiveTuple, b: FiveTuple, flowStart: u64) {
    Open(cache, a, flowStart) && Open(cache, b, flowStart) && !SameProcess(cache[a], cache[b])
  }

  function Unspecified(ip: IpAddr): IpAddr { if ip.V4? then V4(0) else V6(0) }

  /**
   * A flow's owner, the keys written out: its own key, then that of the other direction; for a UDP flow then the
   * listeners at either end, those at the end's address before those at any address. Two of one kind that name
   * different processes, or none at all, leave the owner unknown.
   */
  function Plainly(cache: Cache, t: FiveTuple, flowStart: u64): Outcome {
    var back := FiveTuple(t.dstIp, t.dstPort, t.srcIp, t.srcPort, t.l4);
    var here := FiveTuple(t.srcIp, t.srcPort, t.srcIp, 0, Udp);
    var there := FiveTuple(t.dstIp, t.dstPort, t.dstIp, 0, Udp);
    var anyHere := FiveTuple(Unspecified(t.srcIp), t.srcPort, Unspecified(t.srcIp), 0, Udp);
    var anyThere := FiveTuple(Unspecified(t.dstIp), t.dstPort, Unspecified(t.dstIp), 0, Udp);
    if Open(cache, t, flowStart) then Surely(cache[t], flowStart)
    else if Open(cache, back, flowStart) then Surely(cache[back], flowStart)
    else if t.l4 != Udp then Outcome(None, 0, Unknown)
    else if Clash(cache, here, there, flowStart) then Outcome(None, 0, Unknown)
    else if Open(cache, here, flowStart) then Surely(cache[here], flowStart)
    else if Open(cache, there, flowStart) then Surely(cache[there], flowStart)
    else if Clash(cache, anyHere, anyThere, flowStart) then Outcome(None, 0, Unknown)
    else if Open(cache, anyHere, flowStart) then Hardly(cache[anyHere])
    else if Open(cache, anyThere, flowStart) then Hardly(cache[anyThere])
    else Outcome(None, 0, Unknown)
  }

  lemma LiveIsOpen(cache: Cache, c: Candidate, flowStart: u64)
    ensures Live(cache, c, flowStart) <==> Open(cache, c.tuple, flowStart)
  {
  }

  /** Ranking the candidates comes to the plain case distinction, for every cache, flow and start. */
  lemma AnswerIsPlain(cache: Cache, t: FiveTuple, flowStart: u64)
    ensures Answer(cache, t, flowStart) == Plainly(cache, t, flowStart)
  {
    hide Answer;
    hide Live;
    hide Open;
    hide Candidates;
    hide Clash;
    var cs := Candidates(t);
    CandidatesAre(t);
    forall i | 0 <= i < |cs|
      ensures Live(cache, cs[i], flowStart) <==> Open(cache, cs[i].tuple, flowStart)
    {
      LiveIsOpen(cache, cs[i], flowStart);
    }
    if Live(cache, cs[0], flowStart) {
      RankDecides(cache, t, flowStart, 0, 0);
    } else if Live(cache, cs[1], flowStart) {
      RankDecides(cache, t, flowStart, 1, 1);
    } else if t.l4 != Udp {
      NoneLiveUnknown(cache, t, flowStart);
    } else if Live(cache, cs[2], flowStart) {
      RankDecides(cache, t, flowStart, 2, 4);
    } else if Live(cache, cs[4], flowStart) {
      RankDecides(cache, t, flowStart, 4, 2);
    } else if Live(cache, cs[3], flowStart) {
      RankDecides(cache, t, flowStart, 3, 5);
    } else if Live(cache, cs[5], flowStart) {
      RankDecides(cache, t, flowStart, 5, 3);
    } else {
      NoneLiveUnknown(cache, t, flowStart);
    }
    ClashIsDisagreement(cache, cs, flowStart);
  }

  predicate Disagrees(cache: Cache, a: Candidate, b: Candidate, flowStart: u64) {
    && Live(cache, a, flowStart) && Live(cache, b, flowStart)
    && !SameProcess(cache[a.tuple], cache[b.tuple])
  }

  lemma ClashIsDisagreement(cache: Cache, cs: seq<Candidate>, flowStart: u64)
    ensures forall i, j :: 0 <= i < |cs| && 0 <= j < |cs| ==>
              (Clash(cache, cs[i].tuple, cs[j].tuple, flowStart) <==> Disagrees(cache, cs[i], cs[j], flowStart))
  {
    forall i | 0 <= i < |cs|
      ensures Live(cache, cs[i], flowStart) <==> Open(cache, cs[i].tuple, flowStart)
    {
      LiveIsOpen(cache, cs[i], flowStart);
    }
    hide Live;
    hide Open;
  }

  /** Candidate `i` is the first live one of the highest live rank, and only candidate `j` may share that rank. */
  lemma RankDecides(cache: Cache, t: FiveTuple, flowStart: u64, i: nat, j: nat)
    requires i < |Candidates(t)| && j < |Candidates(t)|
    requires
      var cs := Candidates(t);
      && Live(cache, cs[i], flowStart) && cs[j].rank == cs[i].rank
      && (j < i ==> !Live(cache, cs[j], flowStart))
      && forall k :: 0 <= k < |cs| && k != i && k != j && Live(cache, cs[k], flowStart) ==>
           Specificity(cs[k].rank) < Specificity(cs[i].rank)
    ensures
      var a, b := Candidates(t)[i], Candidates(t)[j];
      Answer(cache, t, flowStart) ==
      if Disagrees(cache, a, b, flowStart) then Outcome(None, 0, Unknown)
      else if a.rank == WildcardUdp then Hardly(cache[a.tuple])
      else Surely(cache[a.tuple], flowStart)
  {
    hide Answer;
    hide Candidates;
    hide InWindow;
    var cs := Candidates(t);
    NeverGuesses(cache, t, flowStart);
    if Disagrees(cache, cs[i], cs[j], flowStart) {
      forall d: nat
        ensures !Decisive(cache, cs, flowStart, d)
      {
        assert d < |cs| && d != i && d != j && Live(cache, cs[d], flowStart) ==>
            Specificity(cs[d].rank) < Specificity(cs[i].rank);
      }
    } else {
      assert Decisive(cache, cs, flowStart, i) && Leads(cache, cs, flowStart, i);
    }
  }

  lemma NoneLiveUnknown(cache: Cache, t: FiveTuple, flowStart: u64)
    requires forall i :: 0 <= i < |Candidates(t)| ==> !Live(cache, Candidates(t)[i], flowStart)
    ensures Answer(cache, t, flowStart) == Outcome(None, 0, Unknown)
  {
    hide Answer;
    hide Candidates;
    hide Live;
    NeverGuesses(cache, t, flowStart);
  }

  lemma CandidatesAre(t: FiveTuple)
    ensures
      var cs := Candidates(t);
      && |cs| == (if t.l4 == Udp then 6 else 2)
      && cs[0] == Candidate(t, DirectExact)
      && cs[1] == Candidate(FiveTuple(t.dstIp, t.dstPort, t.srcIp, t.srcPort, t.l4), ReversedExact)
      && (t.l4 == Udp ==>
            && cs[2] == Candidate(FiveTuple(t.srcIp, t.srcPort, t.srcIp, 0, Udp), SpecificUdp)
            && cs[3] == Candidate(FiveTuple(Unspecified(t.srcIp), t.srcPort, Unspecified(t.srcIp), 0, Udp), WildcardUdp)
            && cs[4] == Candidate(FiveTuple(t.dstIp, t.dstPort, t.dstIp, 0, Udp), SpecificUdp)
            && cs[5] == Candidate(FiveTuple(Unspecified(t.dstIp), t.dstPort, Unspecified(t.dstIp), 0, Udp),
                                  WildcardUdp))
  {
  }

  // ---------------------------------------------------------------- direction of the flow

  /** Which process, started when. */
  function Owner(o: Outcome): (Option<u64>, u64) { (o.pid, o.startMonoNanos) }

  function OwnerAt(cache: Cache, t: FiveTuple): (Option<u64>, u64)
    requires t in cache
  {
    (Some(cache[t].pid), cache[t].startMonoNanos)
  }

  predicate LiveKey(cache: Cache, t: FiveTuple, flowStart: u64) { t in cache && InWindow(cache[t], flowStart) }

  /** A live exact key decides: the flow's own before the reversed one. */
  lemma ExactDecides(cache: Cache, t: FiveTuple, flowStart: u64)
    ensures LiveKey(cache, t, flowStart) ==> Owner(Answer(cache, t, flowStart)) == OwnerAt(cache, t)
    ensures !LiveKey(cache, t, flowStart) && LiveKey(cache, Reversed(t), flowStart) ==>
              Owner(Answer(cache, t, flowStart)) == OwnerAt(cache, Reversed(t))
  {
    hide Answer;
    hide InWindow;
    var cs := Candidates(t);
    assert cs[0] == Candidate(t, DirectExact) && cs[1] == Candidate(Reversed(t), ReversedExact);
    NeverGuesses(cache, t, flowStart);
    if LiveKey(cache, t, flowStart) {
      assert Decisive(cache, cs, flowStart, 0);
    } else if LiveKey(cache, Reversed(t), flowStart) {
      assert Decisive(cache, cs, flowStart, 1);
    }
  }

  /** The listener keys are the same for both directions, in another order. */
  lemma ListenersShared(t: FiveTuple)
    ensures
      var cs, rs := Candidates(t), Candidates(Reversed(t));
      && |cs| == |rs| == (if t.l4 == Udp then 6 else 2)
      && cs[0].tuple == rs[1].tuple == t && cs[1].tuple == rs[0].tuple == Reversed(t)
      && (t.l4 == Udp ==> cs[2] == rs[4] && cs[3] == rs[5] && cs[4] == rs[2] && cs[5] == rs[3])
  {
  }

  lemma DecisiveBothWays(cache: Cache, t: FiveTuple, flowStart: u64, i: nat)
    requires !LiveKey(cache, t, flowStart) && !LiveKey(cache, Reversed(t), flowStart)
    requires Decisive(cache, Candidates(t), flowStart, i)
    ensures 2 <= i < 6 && |Candidates(Reversed(t))| == 6
    ensures
      var j := if i < 4 then i + 2 else i - 2;
      Decisive(cache, Candidates(Reversed(t)), flowStart, j) && Candidates(Reversed(t))[j] == Candidates(t)[i]
  {
    var cs, rs := Candidates(t), Candidates(Reversed(t));
    hide Candidates;
    hide InWindow;
    ListenersShared(t);
    forall k | 0 <= k < |rs| && Live(cache, rs[k], flowStart)
      ensures 2 <= k && Live(cache, cs[if k < 4 then k + 2 else k - 2], flowStart)
    {
      assert rs[k] == cs[if k < 4 then k + 2 else k - 2];
    }
  }

  /**
   * Which end a flow is seen from matters to its owner exactly when both exact keys are live and name different
   * processes.
   */
  lemma DirectionMatters(cache: Cache, t: FiveTuple, flowStart: u64)
    ensures Owner(Answer(cache, t, flowStart)) != Owner(Answer(cache, Reversed(t), flowStart)) <==>
            LiveKey(cache, t, flowStart) && LiveKey(cache, Reversed(t), flowStart) &&
            OwnerAt(cache, t) != OwnerAt(cache, Reversed(t))
  {
    hide Answer;
    hide Decisive;
    hide Candidates;
    hide InWindow;
    var u := Reversed(t);
    assert Reversed(u) == t;
    ExactDecides(cache, t, flowStart);
    ExactDecides(cache, u, flowStart);
    if !LiveKey(cache, t, flowStart) && !LiveKey(cache, u, flowStart) {
      NeverGuesses(cache, t, flowStart);
      NeverGuesses(cache, u, flowStart);
      if i: nat :| Decisive(cache, Candidates(t), flowStart, i) {
        DecisiveBothWays(cache, t, flowStart, i);
      } else if i: nat :| Decisive(cache, Candidates(u), flowStart, i) {
        DecisiveBothWays(cache, u, flowStart, i);
      }
    }
  }

  // ---------------------------------------------------------------- the pruned cache refines the unpruned one

  datatype Event = Ingest(at: u64, owners: seq<SocketOwner>) | Evict(now: u64)

  function TimeOf(e: Event): u64 {
    match e
    case Ingest(at, _) => at
    case Evict(now) => now
  }

  predicate CacheStep(before: Cache, e: Event, after: Cache) {
    match e
    case Ingest(at, owners) => IngestStep(before, at, owners, after)
    case Evict(now) => after == Evicted(before, now)
  }

  /** The cache that never evicts. */
  function Unpruned(events: seq<Event>): Cache {
    if events == [] then map[]
    else
      var before := Unpruned(events[..|events| - 1]);
      match events[|events| - 1]
      case Ingest(at, owners) => Inserted(before, at, owners)
      case Evict(_) => before
  }

  /** The caches a correlator goes through from empty, whatever the order of the times. */
  predicate Steps(events: seq<Event>, caches: seq<Cache>) {
    && |caches| == |events| + 1 && caches[0] == map[]
    && forall i :: 0 <= i < |events| ==> CacheStep(caches[i], events[i], caches[i + 1])
  }

  /** A run of a correlator from empty, with nondecreasing times. */
  predicate Run(events: seq<Event>, caches: seq<Cache>) {
    && Steps(events, caches)
    && (forall i, j :: 0 <= i < j < |events| ==> TimeOf(events[i]) <= TimeOf(events[j]))
  }

  /** At every snapshot the tuples whose windows are still open fit under the ceiling. */
  predicate Roomy(events: seq<Event>) { forall i :: 0 <= i < |events| ==> RoomAt(events, i) }

  predicate RoomAt(events: seq<Event>, i: nat)
    requires i < |events|
  {
    events[i].Ingest? ==> |Evicted(Unpruned(events[..i + 1]), events[i].at)| <= MAX_CACHED_MAPPINGS
  }

  /** The pruned cache has lost nothing but mappings whose window ended by `now`. */
  predicate Agrees(pruned: Cache, full: Cache, now: u64) {
    SubCache(pruned, full) && forall t :: t in full && t !in pruned ==> !Unexpired(full[t], now)
  }

  /** What inserting leaves at a tuple does not depend on the cache if a listed owner has that tuple. */
  lemma {:induction false} InsertedAt(a: Cache, b: Cache, at: u64, owners: seq<SocketOwner>, t: FiveTuple)
    ensures (exists i :: 0 <= i < |owners| && owners[i].tuple == t) ==>
              t in Inserted(a, at, owners) && t in Inserted(b, at, owners) &&
                Inserted(a, at, owners)[t] == Inserted(b, at, owners)[t]
    ensures !(exists i :: 0 <= i < |owners| && owners[i].tuple == t) ==>
              (t in Inserted(a, at, owners) <==> t in a) && (t in a ==> Inserted(a, at, owners)[t] == a[t]) &&
              (t in Inserted(b, at, owners) <==> t in b) && (t in b ==> Inserted(b, at, owners)[t] == b[t])
  {
    if owners != [] {
      var front := owners[..|owners| - 1];
      InsertedAt(a, b, at, front, t);
      assert forall i :: 0 <= i < |front| ==> front[i] == owners[i];
      if i :| 0 <= i < |owners| && owners[i].tuple == t {
        if owners[|owners| - 1].tuple != t {
          assert front[i].tuple == t;
        }
      }
    }
  }

  lemma InsertKeepsAgreement(pruned: Cache, full: Cache, now: u64, at: u64, owners: seq<SocketOwner>)
    requires Agrees(pruned, full, now) && now <= at
    ensures Agrees(Inserted(pruned, at, owners), Inserted(full, at, owners), at)
  {
    forall t
      ensures t in Inserted(pruned, at, owners) ==>
                t in Inserted(full, at, owners) && Inserted(pruned, at, owners)[t] == Inserted(full, at, owners)[t]
      ensures t in Inserted(full, at, owners) && t !in Inserted(pruned, at, owners) ==>
                !Unexpired(Inserted(full, at, owners)[t], at)
    {
      InsertedAt(pruned, full, at, owners, t);
    }
  }

  lemma EvictKeepsAgreement(pruned: Cache, full: Cache, now: u64)
    requires Agrees(pruned, full, now)
    ensures Agrees(Evicted(pruned, now), full, now)
    ensures |Evicted(pruned, now)| <= |Evicted(full, now)|
  {
    FewerKeys(Evicted(pruned, now).Keys, Evicted(full, now).Keys);
  }

  lemma AgreementAges(pruned: Cache, full: Cache, now: u64, later: u64)
    requires Agrees(pruned, full, now) && now <= later
    ensures Agrees(pruned, full, later)
  {
  }

  function FullStep(full: Cache, e: Event): Cache {
    match e
    case Ingest(at, owners) => Inserted(full, at, owners)
    case Evict(_) => full
  }

  lemma StepAgrees(pruned: Cache, full: Cache, now: u64, e: Event, after: Cache)
    requires Agrees(pruned, full, now) && now <= TimeOf(e) && CacheStep(pruned, e, after)
    requires e.Ingest? ==> |Evicted(FullStep(full, e), e.at)| <= MAX_CACHED_MAPPINGS
    ensures Agrees(after, FullStep(full, e), TimeOf(e))
  {
    hide Agrees;
    match e
    case Ingest(at, owners) =>
      InsertKeepsAgreement(pruned, full, now, at, owners);
      EvictKeepsAgreement(Inserted(pruned, at, owners), Inserted(full, at, owners), at);
    case Evict(later) =>
      AgreementAges(pruned, full, now, later);
      EvictKeepsAgreement(pruned, full, later);
  }

  /** The time of the last event, or 0 before any. */
  function Now(events: seq<Event>): u64 { if events == [] then 0 else TimeOf(events[|events| - 1]) }

  lemma RunFront(events: seq<Event>, caches: seq<Cache>)
    requires Run(events, caches) && Roomy(events) && events != []
    ensures
      var n := |events| - 1;
      && Run(events[..n], caches[..n + 1]) && Roomy(events[..n]) && Now(events[..n]) <= TimeOf(events[n])
      && CacheStep(caches[n], events[n], caches[n + 1])
      && (events[n].Ingest? ==> |Evicted(Unpruned(events), events[n].at)| <= MAX_CACHED_MAPPINGS)
  {
    hide CacheStep;
    hide Roomy;
    RoomyFront(events);
    var n := |events| - 1;
    var front := events[..n];
    assert forall i :: 0 <= i < n ==> front[i] == events[i];
  }

  lemma RoomyFront(events: seq<Event>)
    requires Roomy(events) && events != []
    ensures
      var n := |events| - 1;
      && Roomy(events[..n])
      && (events[n].Ingest? ==> |Evicted(Unpruned(events), events[n].at)| <= MAX_CACHED_MAPPINGS)
  {
    hide Evicted;
    hide Unpruned;
    var n := |events| - 1;
    assert events[..n + 1] == events && RoomAt(events, n);
    forall i | 0 <= i < n
      ensures RoomAt(events[..n], i)
    {
      assert RoomAt(events, i);
      assert events[..n][..i + 1] == events[..i + 1];
    }
  }

  lemma {:induction false} RunAgrees(events: seq<Event>, caches: seq<Cache>)
    requires Run(events, caches) && Roomy(events)
    ensures Agrees(caches[|events|], Unpruned(events), Now(events))
  {
    if events != [] {
      hide Run;
      hide Roomy;
      hide Agrees;
      hide CacheStep;
      var n := |events| - 1;
      RunFront(events, caches);
      RunLength(events, caches);
      RunAgrees(events[..n], caches[..n + 1]);
      StepAgrees(caches[n], Unpruned(events[..n]), Now(events[..n]), events[n], caches[n + 1]);
    }
  }

  lemma RunLength(events: seq<Event>, caches: seq<Cache>)
    requires Run(events, caches)
    ensures |caches| == |events| + 1
  {
  }

  lemma SameLiveSameMatches(pruned: Cache, full: Cache, now: u64, cs: seq<Candidate>, flowStart: u64)
    requires Agrees(pruned, full, now) && flowStart >= now
    ensures Matches(pruned, cs, flowStart) == Matches(full, cs, flowStart)
  {
    if cs != [] {
      SameLiveSameMatches(pruned, full, now, cs[..|cs| - 1], flowStart);
    }
  }

  /**
   * Refinement: over any run with nondecreasing times whose open windows fit under the ceiling, every flow starting
   * at or after the latest event is attributed as if nothing had ever been evicted.
   */
  lemma PrunedRefinesUnpruned(events: seq<Event>, caches: seq<Cache>, t: FiveTuple, flowStart: u64)
    requires Run(events, caches) && Roomy(events)
    requires flowStart >= Now(events)
    ensures Answer(caches[|events|], t, flowStart) == Answer(Unpruned(events), t, flowStart)
  {
    RunAgrees(events, caches);
    SameLiveSameMatches(caches[|events|], Unpruned(events), Now(events), Candidates(t), flowStart);
  }

  /** Whatever the run up to `now`, flows starting at `flowStart` are attributed as if nothing had ever been evicted. */
  ghost predicate NothingForgotten(now: u64, flowStart: u64) {
    forall events, caches :: Run(events, caches) && Roomy(events) && Now(events) == now ==>
      SameAnswers(caches[|events|], Unpruned(events), flowStart)
  }

  ghost predicate SameAnswers(a: Cache, b: Cache, flowStart: u64) {
    forall t :: Answer(a, t, flowStart) == Answer(b, t, flowStart)
  }

  /**
   * Exactly when pruning is invisible: for flows starting at or after the latest event, or as long as no window can
   * have ended yet.
   */
  lemma ForgettingIsExact(now: u64, flowStart: u64)
    ensures NothingForgotten(now, flowStart) <==> flowStart >= now || now < 2_000_000_000
  {
    if flowStart >= now || now < MAPPING_VALIDITY_NANOS {
      forall events, caches | Run(events, caches) && Roomy(events) && Now(events) == now
        ensures SameAnswers(caches[|events|], Unpruned(events), flowStart)
      {
        if flowStart >= now {
          forall t
            ensures Answer(caches[|events|], t, flowStart) == Answer(Unpruned(events), t, flowStart)
          {
            PrunedRefinesUnpruned(events, caches, t, flowStart);
          }
        } else {
          NothingEndedYet(events, caches);
        }
      }
    } else {
      var t := FiveTuple(V4(0), 0, V4(0), 0, Tcp);
      var events, caches := EvictionForgetsEarlierFlows(t, now, flowStart);
      assert !SameAnswers(caches[|events|], Unpruned(events), flowStart);
    }
  }

  /** Every mapping was observed at or before the latest event. */
  lemma {:induction false} ObservedByNow(events: seq<Event>, t: FiveTuple)
    requires forall i, j :: 0 <= i < j < |events| ==> TimeOf(events[i]) <= TimeOf(events[j])
    requires t in Unpruned(events)
    ensures Unpruned(events)[t].observedAt <= Now(events)
  {
    var n := |events| - 1;
    var front := events[..n];
    assert forall i :: 0 <= i < n ==> front[i] == events[i];
    if t in Unpruned(front) {
      ObservedByNow(front, t);
      assert n > 0 ==> TimeOf(events[n - 1]) <= TimeOf(events[n]);
    }
    match events[n]
    case Ingest(at, owners) => InsertedWhen(Unpruned(front), at, owners, t);
    case Evict(_) =>
  }

  lemma {:induction false} InsertedWhen(cache: Cache, at: u64, owners: seq<SocketOwner>, t: FiveTuple)
    requires t in Inserted(cache, at, owners)
    ensures Inserted(cache, at, owners)[t].observedAt == at ||
            (t in cache && Inserted(cache, at, owners)[t] == cache[t])
  {
    if owners != [] && owners[|owners| - 1].tuple != t {
      InsertedWhen(cache, at, owners[..|owners| - 1], t);
    }
  }

  /** In the first two seconds nothing is lost. */
  lemma NothingEndedYet(events: seq<Event>, caches: seq<Cache>)
    requires Run(events, caches) && Roomy(events) && Now(events) < MAPPING_VALIDITY_NANOS
    ensures caches[|events|] == Unpruned(events)
  {
    hide Roomy;
    RunAgrees(events, caches);
    var pruned, full := caches[|events|], Unpruned(events);
    forall t | t in full
      ensures t in pruned
    {
      ObservedByNow(events, t);
    }
  }

  /**
   * For every other pair of times some run forgets: a socket seen just before the flow, or two seconds before the
   * eviction, then an eviction after which the flow is no longer attributed.
   */
  lemma EvictionForgetsEarlierFlows(t: FiveTuple, now: u64, flowStart: u64)
    returns (events: seq<Event>, caches: seq<Cache>)
    requires flowStart < now && now >= MAPPING_VALIDITY_NANOS
    ensures Run(events, caches) && Roomy(events) && Now(events) == now
    ensures Answer(Unpruned(events), t, flowStart).pid.Some?
    ensures Answer(caches[|events|], t, flowStart) == UNKNOWN_OWNER
  {
    hide Answer;
    hide Evicted;
    hide Inserted;
    var at: u64 := Min(flowStart, now - MAPPING_VALIDITY_NANOS);
    var owner := SocketOwner(t, 7, 0);
    var full: Cache := map[t := Observed(owner, at)];
    InsertsOne(owner, at);
    events := [Ingest(at, [owner]), Evict(now)];
    caches := [map[], full, map[]];
    FirstSeen(owner, at, now);
    OneIsRoomy(full, at);
    LoneMapping(t, at, now, flowStart);
  }

  /** What one snapshot of one socket leaves unpruned. */
  lemma FirstSeen(o: SocketOwner, at: u64, now: u64)
    ensures
      var events := [Ingest(at, [o]), Evict(now)];
      && Unpruned(events[..1]) == Inserted(map[], at, [o])
      && Unpruned(events) == Inserted(map[], at, [o])
  {
    var events := [Ingest(at, [o]), Evict(now)];
    assert events[..1] == [Ingest(at, [o])] && events[..0] == [] && events[..1][..0] == [];
    assert Unpruned(events[..0]) == map[];
  }

  lemma OneIsRoomy(full: Cache, at: u64)
    requires |full| == 1
    ensures |full| <= MAX_CACHED_MAPPINGS && |Evicted(full, at)| <= MAX_CACHED_MAPPINGS
  {
    EvictedSmaller(full, at);
  }

  /** One mapping that contains the flow start and has ended by `now`. */
  lemma LoneMapping(t: FiveTuple, at: u64, now: u64, flowStart: u64)
    requires at == Min(flowStart, now - MAPPING_VALIDITY_NANOS) && flowStart < now
    ensures
      var full: Cache := map[t := CachedMapping(7, 0, at)];
      && Evicted(full, now) == map[]
      && Answer(full, t, flowStart).pid.Some? && Answer(map[], t, flowStart) == UNKNOWN_OWNER
  {
    var full: Cache := map[t := CachedMapping(7, 0, at)];
    hide Answer;
    ExactDecides(full, t, flowStart);
    NeverGuesses(map[], t, flowStart);
    hide Candidates;
    assert LiveKey(full, t, flowStart);
  }

  lemma InsertsOne(o: SocketOwner, at: u64)
    ensures Inserted(map[], at, [o]) == map[o.tuple := Observed(o, at)]
  {
    assert [o][..0] == [];
    assert Inserted(map[], at, [o][..0]) == map[];
  }

  /**
   * After every ingest the cache is under the ceiling, and what was removed is no newer than what was kept; only a
   * mapping whose own window end wraps could be.
   */
  lemma IngestBounded(before: Cache, at: u64, owners: seq<SocketOwner>, after: Cache)
    requires IngestStep(before, at, owners, after)
    ensures |after| <= 100_000
    ensures SubCache(after, Inserted(before, at, owners))
    ensures |Inserted(before, at, owners)| <= 100_000 ==> after == Inserted(before, at, owners)
    ensures |Inserted(before, at, owners)| > 100_000 ==>
              after == Evicted(Inserted(before, at, owners), at) || |after| == 100_000
    ensures
      var full := Inserted(before, at, owners);
      forall gone, left :: gone in full && gone !in after && left in after &&
                           full[gone].observedAt + MAPPING_VALIDITY_NANOS < TWO_64 ==>
        full[gone].observedAt <= after[left].observedAt
  {
    hide Inserted;
    var full := Inserted(before, at, owners);
    forall gone, left | gone in full && gone !in after && left in after &&
                        full[gone].observedAt + MAPPING_VALIDITY_NANOS < TWO_64
      ensures full[gone].observedAt <= after[left].observedAt
    {
      EndedIsOlder(full[gone], after[left], at);
    }
  }

  lemma EndedIsOlder(gone: CachedMapping, left: CachedMapping, at: u64)
    requires gone.observedAt + MAPPING_VALIDITY_NANOS < TWO_64
    ensures !Unexpired(gone, at) && Unexpired(left, at) ==> gone.observedAt <= left.observedAt
  {
  }

  // ---------------------------------------------------------------- where a named process comes from

  predicate ListsTuple(owners: seq<SocketOwner>, t: FiveTuple) { exists k :: 0 <= k < |owners| && owners[k].tuple == t }

  /** Owner `k` of snapshot `i` is the last entry of the whole run for the tuple. */
  predicate LatestListing(events: seq<Event>, t: FiveTuple, i: nat, k: nat) {
    && i < |events| && events[i].Ingest? && k < |events[i].owners| && events[i].owners[k].tuple == t
    && (forall l :: k < l < |events[i].owners| ==> events[i].owners[l].tuple != t)
    && (forall j :: i < j < |events| && events[j].Ingest? ==> !ListsTuple(events[j].owners, t))
  }

  /** The last entry for the tuple, if there is one. */
  function LastEntry(owners: seq<SocketOwner>, t: FiveTuple): (o: Option<nat>)
    ensures o.Some? ==> o.value < |owners| && owners[o.value].tuple == t
    ensures forall l :: (if o.Some? then o.value + 1 else 0) <= l < |owners| ==> owners[l].tuple != t
  {
    if owners == [] then None
    else if owners[|owners| - 1].tuple == t then Some(|owners| - 1)
    else LastEntry(owners[..|owners| - 1], t)
  }

  /** What a snapshot leaves at a tuple is its last entry for it, or what was there before. */
  lemma {:induction false} InsertedLast(cache: Cache, at: u64, owners: seq<SocketOwner>, t: FiveTuple)
    ensures
      var after := Inserted(cache, at, owners);
      match LastEntry(owners, t)
      case Some(k) => t in after && after[t] == Observed(owners[k], at)
      case None => t in after ==> t in cache && after[t] == cache[t]
  {
    if owners != [] && owners[|owners| - 1].tuple != t {
      InsertedLast(cache, at, owners[..|owners| - 1], t);
    }
  }

  /** The cache that never evicts holds, for each tuple, its latest listing. */
  lemma {:induction false} UnprunedIsLatest(events: seq<Event>, t: FiveTuple) returns (i: nat, k: nat)
    requires t in Unpruned(events)
    ensures LatestListing(events, t, i, k)
    ensures Unpruned(events)[t] == Observed(events[i].owners[k], events[i].at)
  {
    hide Inserted;
    var n := |events| - 1;
    var front := events[..n];
    assert forall j :: 0 <= j < n ==> front[j] == events[j];
    if events[n].Ingest? {
      InsertedLast(Unpruned(front), events[n].at, events[n].owners, t);
    }
    if events[n].Ingest? && LastEntry(events[n].owners, t).Some? {
      i, k := n, LastEntry(events[n].owners, t).value;
    } else {
      i, k := UnprunedIsLatest(front, t);
    }
  }

  lemma StepKeepsOnly(cache: Cache, full: Cache, e: Event, after: Cache)
    requires SubCache(cache, full) && CacheStep(cache, e, after)
    ensures SubCache(after, FullStep(full, e))
  {
    match e
    case Ingest(at, owners) =>
      IngestBounded(cache, at, owners, after);
      forall t | t in after
        ensures t in Inserted(full, at, owners) && Inserted(full, at, owners)[t] == after[t]
      {
        InsertedAt(cache, full, at, owners, t);
      }
    case Evict(now) =>
  }

  /** However full the cache and whatever the order of the times, eviction only forgets. */
  lemma {:induction false} OnlyForgets(events: seq<Event>, caches: seq<Cache>)
    requires Steps(events, caches)
    ensures SubCache(caches[|events|], Unpruned(events))
  {
    hide SubCache;
    hide CacheStep;
    var n := |events| - 1;
    if events == [] {
      NothingIsPart(Unpruned(events));
    } else {
      OnlyForgets(events[..n], caches[..n + 1]);
      StepKeepsOnly(caches[n], Unpruned(events[..n]), events[n], caches[n + 1]);
    }
  }

  lemma NothingIsPart(full: Cache)
    ensures SubCache(map[], full)
  {
  }

  /** Candidate `c` of the flow, listed last by owner `k` of snapshot `i`, is that process at that time. */
  predicate Witnesses(events: seq<Event>, t: FiveTuple, flowStart: u64, r: Outcome, c: nat, i: nat, k: nat) {
    && c < |Candidates(t)| && LatestListing(events, Candidates(t)[c].tuple, i, k)
    && r.pid == Some(events[i].owners[k].pid) && r.startMonoNanos == events[i].owners[k].startMonoNanos
    && events[i].at <= flowStart + 1_000_000_000 && flowStart < events[i].at + 2_000_000_000
  }

  /**
   * Over any run, a process is named only on the word of a snapshot: the last snapshot to list one of the flow's keys
   * gave that process and start time for it, at most a second after the flow started and less than two seconds before.
   */
  lemma NamedFromSnapshot(events: seq<Event>, caches: seq<Cache>, t: FiveTuple, flowStart: u64)
    requires Steps(events, caches)
    ensures
      var r := Answer(caches[|events|], t, flowStart);
      r.pid.Some? ==> exists c: nat, i: nat, k: nat :: Witnesses(events, t, flowStart, r, c, i, k)
  {
    hide Answer;
    hide Candidates;
    hide Steps;
    hide LatestListing;
    hide Unpruned;
    OnlyForgets(events, caches);
    StepsLength(events, caches);
    var cache := caches[|events|];
    if Answer(cache, t, flowStart).pid.Some? {
      var c := NamedIsCached(cache, t, flowStart);
      var key := Candidates(t)[c].tuple;
      var i, k := UnprunedIsLatest(events, key);
      LatestIsIngest(events, key, i, k);
      assert cache[key] == Observed(events[i].owners[k], events[i].at);
      assert Witnesses(events, t, flowStart, Answer(cache, t, flowStart), c, i, k);
    }
  }

  lemma NamedIsCached(cache: Cache, t: FiveTuple, flowStart: u64) returns (c: nat)
    requires Answer(cache, t, flowStart).pid.Some?
    ensures c < |Candidates(t)| && Candidates(t)[c].tuple in cache
    ensures
      var m := cache[Candidates(t)[c].tuple];
      && Answer(cache, t, flowStart).pid == Some(m.pid)
      && Answer(cache, t, flowStart).startMonoNanos == m.startMonoNanos
      && m.observedAt <= flowStart + RETRO_MATCH_NANOS && flowStart < m.observedAt + MAPPING_VALIDITY_NANOS
  {
    hide Answer;
    hide Candidates;
    hide Decisive;
    hide Live;
    hide InWindow;
    NeverGuesses(cache, t, flowStart);
    c :| Decisive(cache, Candidates(t), flowStart, c);
    DecisiveIsLive(cache, Candidates(t), flowStart, c);
  }

  lemma DecisiveIsLive(cache: Cache, cs: seq<Candidate>, flowStart: u64, c: nat)
    requires Decisive(cache, cs, flowStart, c)
    ensures
      && c < |cs| && cs[c].tuple in cache
      && cache[cs[c].tuple].observedAt <= flowStart + RETRO_MATCH_NANOS
      && flowStart < cache[cs[c].tuple].observedAt + MAPPING_VALIDITY_NANOS
  {
  }

  lemma LatestIsIngest(events: seq<Event>, t: FiveTuple, i: nat, k: nat)
    requires LatestListing(events, t, i, k)
    ensures i < |events| && events[i].Ingest? && k < |events[i].owners|
  {
  }

  lemma StepsLength(events: seq<Event>, caches: seq<Cache>)
    requires Steps(events, caches)
    ensures |caches| == |events| + 1
  {
  }
}
