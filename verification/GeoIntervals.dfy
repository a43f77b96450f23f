/** The interval tables of the GeoIP compiler: merging adjacent equal intervals, and the checks C1 to C6 and C13. */
module GeoIntervals {
  import opened Wrappers
  import opened Bytes

  datatype Interval<T> = Interval(start: int, end: int, record: T)

  const SAFE_INTEGER_MAX: int := 0x1F_FFFF_FFFF_FFFF

  /** `(end + 1) >>> 0` */
  function NextAddress(end: int): u32 { (end + 1) % TWO_32 }

  function Last<T>(s: seq<T>): T
    requires s != []
  {
    s[|s| - 1]
  }

  function Front<T>(s: seq<T>): seq<T>
    requires s != []
  {
    s[..|s| - 1]
  }

  // ---------------------------------------------------------------- merging by the whole record

  predicate Joins<T(==)>(last: Interval<T>, cur: Interval<T>) {
    NextAddress(last.end) == cur.start && last.record == cur.record
  }

  /** `merged` after one more interval. */
  function Extend<T(==)>(merged: seq<Interval<T>>, cur: Interval<T>): seq<Interval<T>> {
    if merged != [] && Joins(Last(merged), cur) then Front(merged) + [Last(merged).(end := cur.end)]
    else merged + [cur]
  }

  function Merged<T(==)>(s: seq<Interval<T>>): seq<Interval<T>> {
    if s == [] then [] else Extend(Merged(Front(s)), Last(s))
  }

  method MergeIntervals<T(==)>(intervals: seq<Interval<T>>) returns (merged: seq<Interval<T>>)
    ensures merged == Merged(intervals)
  {
    if |intervals| == 0 {
      return [];
    }
    merged := [intervals[0]];
    assert intervals[..1][..0] == [];
    for i := 1 to |intervals|
      invariant merged != [] && merged == Merged(intervals[..i])
    {
      var cur := intervals[i];
      var last := merged[|merged| - 1];
      assert intervals[..i + 1][..i] == intervals[..i];
      if (last.end + 1) % TWO_32 == cur.start && last.record == cur.record {
        merged := merged[|merged| - 1 := last.(end := cur.end)];
        assert merged == Extend(Merged(intervals[..i]), cur);
      } else {
        merged := merged + [cur];
      }
    }
    assert intervals[..|intervals|] == intervals;
  }

  // ---------------------------------------------------------------- tables

  predicate InRange<T>(x: Interval<T>) { 0 <= x.start <= x.end <= ADDRESS_MAX }

  /** Sorted, disjoint and in range. */
  predicate Table<T>(s: seq<Interval<T>>) {
    && (forall i :: 0 <= i < |s| ==> InRange(s[i]))
    && (forall i, j :: 0 <= i < j < |s| ==> s[i].end < s[j].start)
  }

  /** A table in which no two neighbours could be one interval. */
  predicate Compact<T(==)>(s: seq<Interval<T>>) {
    Table(s) && forall i :: 0 <= i < |s| - 1 ==> !(s[i].end + 1 == s[i + 1].start && s[i].record == s[i + 1].record)
  }

  /** The record of an address. */
  function Lookup<T>(s: seq<Interval<T>>, a: int): Option<T> {
    if s == [] then None
    else if Last(s).start <= a <= Last(s).end then Some(Last(s).record)
    else Lookup(Front(s), a)
  }

  /** Every address has the same record in both. */
  ghost predicate SameLookups<T(!new)>(s: seq<Interval<T>>, t: seq<Interval<T>>) {
    forall a :: Lookup(s, a) == Lookup(t, a)
  }

  lemma SameLookupsVia<T(!new)>(s: seq<Interval<T>>, t: seq<Interval<T>>, s': seq<Interval<T>>, t': seq<Interval<T>>)
    requires SameLookups(s', s) && SameLookups(t', t)
    ensures SameLookups(s, t) <==> SameLookups(s', t')
  {
    if SameLookups(s, t) {
      forall a
        ensures Lookup(s', a) == Lookup(t', a)
      {
        assert Lookup(s', a) == Lookup(s, a) && Lookup(t', a) == Lookup(t, a) && Lookup(s, a) == Lookup(t, a);
      }
    }
    if SameLookups(s', t') {
      forall a
        ensures Lookup(s, a) == Lookup(t, a)
      {
        assert Lookup(s', a) == Lookup(s, a) && Lookup(t', a) == Lookup(t, a) && Lookup(s', a) == Lookup(t', a);
      }
    }
  }

  /** In a table, an address has the record of the one interval that contains it. */
  lemma {:induction false} LookupFinds<T>(s: seq<Interval<T>>, a: int)
    requires Table(s)
    ensures forall i :: 0 <= i < |s| && s[i].start <= a <= s[i].end ==> Lookup(s, a) == Some(s[i].record)
    ensures Lookup(s, a).Some? ==> exists i :: 0 <= i < |s| && s[i].start <= a <= s[i].end
  {
    if s != [] {
      LookupFinds(Front(s), a);
      if Lookup(s, a).Some? && !(Last(s).start <= a <= Last(s).end) {
        var i :| 0 <= i < |Front(s)| && Front(s)[i].start <= a <= Front(s)[i].end;
        assert s[i].start <= a <= s[i].end;
      }
    }
  }

  /** Past its last interval a table has nothing. */
  lemma LookupPast<T>(s: seq<Interval<T>>, a: int)
    requires Table(s)
    ensures s == [] || a > Last(s).end ==> Lookup(s, a) == None
  {
    LookupFinds(s, a);
  }

  // ---------------------------------------------------------------- what merging does

  /** The last merged interval ends where the last input does, with its record. */
  lemma {:induction false} MergedLast<T>(s: seq<Interval<T>>)
    requires s != []
    ensures Merged(s) != [] && Last(Merged(s)).end == Last(s).end && Last(Merged(s)).record == Last(s).record
  {
  }

  lemma ExtendLookup<T>(m: seq<Interval<T>>, cur: Interval<T>, a: int)
    requires Table(m) && InRange(cur) && (m == [] || Last(m).end < cur.start)
    ensures Lookup(Extend(m, cur), a) == if cur.start <= a <= cur.end then Some(cur.record) else Lookup(m, a)
  {
    var e := Extend(m, cur);
    if m != [] && Joins(Last(m), cur) {
      assert Front(e) == Front(m);
    } else {
      assert Front(e) == m;
    }
  }

  lemma ExtendCompact<T>(m: seq<Interval<T>>, cur: Interval<T>)
    requires Compact(m) && InRange(cur) && (m == [] || Last(m).end < cur.start)
    ensures Compact(Extend(m, cur))
  {
    var e := Extend(m, cur);
    if m != [] && Joins(Last(m), cur) {
      assert forall i :: 0 <= i < |m| - 1 ==> e[i] == m[i];
    } else {
      assert forall i :: 0 <= i < |m| ==> e[i] == m[i];
    }
  }

  /** Merging a table gives a compact one in which every address has the record it had. */
  lemma {:induction false} MergePreserves<T(!new)>(s: seq<Interval<T>>)
    requires Table(s)
    ensures Compact(Merged(s))
    ensures SameLookups(Merged(s), s)
  {
    if s != [] {
      hide Extend;
      MergePreserves(Front(s));
      if Front(s) != [] {
        MergedLast(Front(s));
      }
      ExtendCompact(Merged(Front(s)), Last(s));
      forall a
        ensures Lookup(Merged(s), a) == Lookup(s, a)
      {
        ExtendLookup(Merged(Front(s)), Last(s), a);
      }
    }
  }

  lemma FrontCompact<T>(s: seq<Interval<T>>)
    requires Compact(s) && s != []
    ensures Compact(Front(s))
    ensures Front(s) != [] ==> !Joins(Last(Front(s)), Last(s))
  {
    assert forall i :: 0 <= i < |s| - 1 ==> Front(s)[i] == s[i];
    if |s| > 1 {
      assert Last(Front(s)) == s[|s| - 2];
      assert s[|s| - 2].end < s[|s| - 1].start;
    }
  }

  /** Merging again changes nothing. */
  lemma {:induction false} CompactIsFixed<T>(s: seq<Interval<T>>)
    requires Compact(s)
    ensures Merged(s) == s
  {
    if s != [] {
      hide Compact;
      hide Joins;
      FrontCompact(s);
      CompactIsFixed(Front(s));
      assert s == Front(s) + [Last(s)];
    }
  }

  /** Just before its last interval a compact table has something else. */
  lemma BeforeLast<T>(t: seq<Interval<T>>)
    requires Compact(t) && t != []
    ensures Lookup(t, Last(t).start - 1) != Some(Last(t).record)
  {
    var a := Last(t).start - 1;
    LookupFinds(Front(t), a);
    if Lookup(Front(t), a).Some? {
      var i :| 0 <= i < |Front(t)| && Front(t)[i].start <= a <= Front(t)[i].end;
      assert t[i].end < t[i + 1].start <= t[i + 1].end;
      assert t[i + 1].start <= Last(t).start;
      assert i + 1 == |t| - 1;
    }
  }

  /** Compact tables with the same lookups: the second reaches at least as far, and then at least as far back. */
  lemma CompactLast<T(!new)>(s: seq<Interval<T>>, t: seq<Interval<T>>)
    requires Compact(s) && Compact(t) && s != []
    requires SameLookups(s, t)
    ensures t != [] && Last(t).end >= Last(s).end
    ensures Last(t).end == Last(s).end ==> Last(t).record == Last(s).record && Last(t).start <= Last(s).start
  {
    var x := Last(s);
    assert Lookup(s, x.end) == Lookup(t, x.end);
    LookupPast(t, x.end);
    BeforeLast(t);
    assert Lookup(s, Last(t).start - 1) == Lookup(t, Last(t).start - 1);
  }

  /** A compact table is determined by its lookups. */
  lemma {:induction false} CompactUnique<T(!new)>(s: seq<Interval<T>>, t: seq<Interval<T>>)
    requires Compact(s) && Compact(t)
    requires SameLookups(s, t)
    ensures s == t
    decreases |s|
  {
    if s == [] {
      if t != [] {
        CompactLast(t, s);
      }
    } else {
      CompactLast(s, t);
      CompactLast(t, s);
      assert Last(s) == Last(t);
      forall a
        ensures Lookup(Front(s), a) == Lookup(Front(t), a)
      {
        if a >= Last(s).start {
          LookupPast(Front(s), a);
          LookupPast(Front(t), a);
        } else {
          assert Lookup(s, a) == Lookup(Front(s), a) && Lookup(t, a) == Lookup(Front(t), a);
        }
      }
      CompactUnique(Front(s), Front(t));
      assert s == Front(s) + [Last(s)] && t == Front(t) + [Last(t)];
    }
  }

  /** Canonical: two tables merge to the same table exactly when they have the same lookups. */
  lemma MergeCanonical<T(!new)>(s: seq<Interval<T>>, t: seq<Interval<T>>)
    requires Table(s) && Table(t)
    ensures SameLookups(s, t) <==> Merged(s) == Merged(t)
  {
    hide SameLookups;
    hide Merged;
    MergePreserves(s);
    MergePreserves(t);
    SameLookupsVia(s, t, Merged(s), Merged(t));
    if SameLookups(s, t) {
      CompactUnique(Merged(s), Merged(t));
    }
    SameLookupsRefl(Merged(s));
  }

  lemma SameLookupsRefl<T(!new)>(s: seq<Interval<T>>)
    ensures SameLookups(s, s)
  {
  }

  // ---------------------------------------------------------------- validation

  datatype Violation =
    | NotSafeInteger(i: nat)
    | OutOfRange(i: nat)
    | StartAfterEnd(i: nat)
    | Overlap(i: nat)
    | NotSorted(i: nat)
    | Duplicate(i: nat)
    | NotMerged(i: nat)

  predicate SafeInteger(n: int) { -SAFE_INTEGER_MAX <= n <= SAFE_INTEGER_MAX }

  /** The checks of one interval against its predecessor, in the order they are made. */
  function CheckAt<T(==)>(s: seq<Interval<T>>, i: nat): Option<Violation>
    requires i < |s|
  {
    if !SafeInteger(s[i].start) || !SafeInteger(s[i].end) then Some(NotSafeInteger(i))
    else if s[i].start < 0 || s[i].end > ADDRESS_MAX then Some(OutOfRange(i))
    else if s[i].start > s[i].end then Some(StartAfterEnd(i))
    else if i == 0 then None
    else if s[i - 1].end >= s[i].start then Some(Overlap(i))
    else if s[i - 1].start > s[i].start then Some(NotSorted(i))
    else if s[i - 1].start == s[i].start && s[i - 1].end == s[i].end then Some(Duplicate(i))
    else if Joins(s[i - 1], s[i]) then Some(NotMerged(i))
    else None
  }

  /** The first violation from position `i` on. */
  function FirstViolation<T(==)>(s: seq<Interval<T>>, i: nat): Option<Violation>
    requires i <= |s|
    decreases |s| - i
  {
    if i == |s| then None
    else if CheckAt(s, i).Some? then CheckAt(s, i)
    else FirstViolation(s, i + 1)
  }

  method ValidateIntervals<T(==)>(s: seq<Interval<T>>) returns (r: Option<Violation>)
    ensures r == FirstViolation(s, 0)
  {
    for i := 0 to |s|
      invariant FirstViolation(s, i) == FirstViolation(s, 0)
    {
      var at: nat := i;
      var start, end := s[i].start, s[i].end;
      if !SafeInteger(start) || !SafeInteger(end) {
        return Some(NotSafeInteger(at));
      }
      if start < 0 || end > ADDRESS_MAX {
        return Some(OutOfRange(at));
      }
      if start > end {
        return Some(StartAfterEnd(at));
      }
      if i > 0 {
        var prev := s[i - 1];
        if prev.end >= start {
          return Some(Overlap(at));
        }
        if prev.start > start {
          return Some(NotSorted(at));
        }
        if prev.start == start && prev.end == end {
          return Some(Duplicate(at));
        }
        if (prev.end + 1) % TWO_32 == start && prev.record == s[i].record {
          return Some(NotMerged(at));
        }
      }
    }
    return None;
  }

  lemma {:induction false} NoViolation<T>(s: seq<Interval<T>>, i: nat)
    requires i <= |s|
    ensures FirstViolation(s, i) == None <==> forall j :: i <= j < |s| ==> CheckAt(s, j) == None
    decreases |s| - i
  {
    if i < |s| {
      NoViolation(s, i + 1);
    }
  }

  /** Neighbours in order put every pair in order. */
  lemma {:induction false} NeighboursSuffice<T>(s: seq<Interval<T>>)
    requires forall i :: 0 <= i < |s| ==> InRange(s[i])
    requires forall i :: 0 < i < |s| ==> s[i - 1].end < s[i].start
    ensures Table(s)
  {
    if s != [] {
      NeighboursSuffice(Front(s));
      assert forall i, j :: 0 <= i < j < |s| - 1 ==> Front(s)[i].end < Front(s)[j].start;
      if |s| > 1 {
        assert s[|s| - 2].end < Last(s).start;
      }
    }
  }

  lemma AcceptedIsCompact<T>(s: seq<Interval<T>>)
    requires forall j :: 0 <= j < |s| ==> CheckAt(s, j) == None
    ensures Compact(s)
  {
    forall i | 0 <= i < |s|
      ensures InRange(s[i])
      ensures i > 0 ==> s[i - 1].end < s[i].start && !Joins(s[i - 1], s[i])
    {
      assert CheckAt(s, i) == None;
    }
    NeighboursSuffice(s);
    forall i | 0 <= i < |s| - 1
      ensures !(s[i].end + 1 == s[i + 1].start && s[i].record == s[i + 1].record)
    {
      assert i + 1 > 0 && !Joins(s[i + 1 - 1], s[i + 1]);
    }
  }

  lemma CompactIsAccepted<T>(s: seq<Interval<T>>, j: nat)
    requires Compact(s) && j < |s|
    ensures CheckAt(s, j) == None
  {
    if j > 0 {
      assert s[j - 1].end < s[j].start;
      assert !(s[j - 1].end + 1 == s[j - 1 + 1].start && s[j - 1].record == s[j - 1 + 1].record);
    }
  }

  /** The validator accepts exactly the compact tables, though it only compares neighbours. */
  lemma ValidatorIsExact<T>(s: seq<Interval<T>>)
    ensures FirstViolation(s, 0) == None <==> Compact(s)
  {
    hide Compact;
    hide CheckAt;
    NoViolation(s, 0);
    if forall j :: 0 <= j < |s| ==> CheckAt(s, j) == None {
      AcceptedIsCompact(s);
    }
    if Compact(s) {
      forall j | 0 <= j < |s|
        ensures CheckAt(s, j) == None
      {
        CompactIsAccepted(s, j);
      }
    }
  }

  // ---------------------------------------------------------------- parse, sort, merge, validate

  /** The order the parsers sort into: by start, then by end. */
  predicate Ordered<T>(s: seq<Interval<T>>) {
    forall i :: 0 < i < |s| ==>
      s[i - 1].start < s[i].start || (s[i - 1].start == s[i].start && s[i - 1].end <= s[i].end)
  }

  predicate Everything<T>(x: Interval<T>) { x.start == 0 && x.end == ADDRESS_MAX }

  /** Neighbours that get past merging and validation: disjoint, or the whole address space stated twice alike. */
  predicate Acceptable<T(==)>(x: Interval<T>, y: Interval<T>) {
    x.end < y.start || (Everything(x) && x == y)
  }

  /** In an ordered list the last merged interval starts no later than the last input. */
  lemma {:induction false} MergedStart<T>(s: seq<Interval<T>>)
    requires s != [] && Ordered(s) && forall i :: 0 <= i < |s| ==> InRange(s[i])
    ensures InRange(Last(Merged(s))) && Last(Merged(s)).start <= Last(s).start
  {
    hide Ordered;
    hide Joins;
    if |s| > 1 {
      var front := Front(s);
      OrderedFront(s);
      MergedStart(front);
      MergedLast(front);
      assert Merged(s) == Extend(Merged(front), Last(s));
      hide Merged;
      ExtendStart(Merged(front), Last(s));
    } else {
      assert Merged(Front(s)) == [];
    }
  }

  lemma ExtendStart<T>(m: seq<Interval<T>>, cur: Interval<T>)
    requires m != []
    ensures Last(Extend(m, cur)).end == cur.end
    ensures Last(Extend(m, cur)).start in {Last(m).start, cur.start}
  {
  }

  lemma ExtendAccepts<T>(m: seq<Interval<T>>, prev: Interval<T>, cur: Interval<T>)
    requires m != [] && InRange(cur) && InRange(prev) && InRange(Last(m))
    requires Last(m).end == prev.end && Last(m).record == prev.record
    requires prev.start < cur.start || (prev.start == cur.start && prev.end <= cur.end)
    ensures Compact(Extend(m, cur)) <==> Compact(m) && Acceptable(prev, cur)
  {
    var e := Extend(m, cur);
    if Joins(Last(m), cur) {
      assert e == Front(m) + [Last(m).(end := cur.end)];
      assert Front(e) == Front(m);
      assert Acceptable(prev, cur);
      if Compact(e) {
        LastEndIsFree(e, m);
      }
      if Compact(m) {
        LastEndIsFree(m, e);
      }
    } else if Compact(e) {
      assert forall i :: 0 <= i < |m| ==> m[i] == e[i];
      assert e[|m| - 1].end < e[|m|].start;
    } else if Compact(m) && Acceptable(prev, cur) {
      ExtendCompact(m, cur);
    }
  }

  /** The end of the last interval does not matter to compactness. */
  lemma LastEndIsFree<T>(s: seq<Interval<T>>, t: seq<Interval<T>>)
    requires Compact(s) && |s| == |t| && s != []
    requires Front(s) == Front(t) && Last(t) == Last(s).(end := Last(t).end)
    requires Last(t).start <= Last(t).end <= ADDRESS_MAX
    ensures Compact(t)
  {
    assert forall i :: 0 <= i < |s| - 1 ==> t[i] == Front(t)[i] == s[i];
  }

  lemma AcceptableStep<T>(s: seq<Interval<T>>)
    requires |s| >= 2
    ensures AllAcceptable(s) <==> AllAcceptable(Front(s)) && Acceptable(Last(Front(s)), Last(s))
  {
    assert forall i :: 0 <= i < |s| - 1 ==> Front(s)[i] == s[i];
  }

  /**
   * The compiler's merge and validate accept a sorted, in-range list exactly when each interval is disjoint from
   * the next, save for one way past the overlap check: the whole address space listed more than once with one
   * record, where the wrapped comparison sees address 0 as adjacent to the last address.
   */
  lemma CompilerAccepts<T>(s: seq<Interval<T>>)
    requires Ordered(s) && forall i :: 0 <= i < |s| ==> InRange(s[i])
    ensures FirstViolation(Merged(s), 0) == None <==> AllAcceptable(s)
  {
    ValidatorIsExact(Merged(s));
    MergedCompact(s);
  }

  predicate AllAcceptable<T(==)>(s: seq<Interval<T>>) {
    forall i :: 0 < i < |s| ==> Acceptable(s[i - 1], s[i])
  }

  lemma {:induction false} MergedCompact<T>(s: seq<Interval<T>>)
    requires Ordered(s) && forall i :: 0 <= i < |s| ==> InRange(s[i])
    ensures Compact(Merged(s)) <==> AllAcceptable(s)
  {
    hide Ordered;
    if |s| >= 2 {
      hide Compact;
      hide Acceptable;
      hide AllAcceptable;
      hide Extend;
      var front := Front(s);
      OrderedFront(s);
      MergedCompact(front);
      MergedLast(front);
      MergedStart(front);
      ExtendAccepts(Merged(front), Last(front), Last(s));
      AcceptableStep(s);
    } else if |s| == 1 {
      assert Merged(Front(s)) == [];
      assert Merged(s) == [] + [s[0]] == s;
    }
  }

  lemma OrderedFront<T>(s: seq<Interval<T>>)
    requires |s| >= 2 && Ordered(s)
    ensures Ordered(Front(s)) && Last(Front(s)) == s[|s| - 2]
    ensures s[|s| - 2].start < Last(s).start || (s[|s| - 2].start == Last(s).start && s[|s| - 2].end <= Last(s).end)
  {
    assert forall i :: 0 <= i < |s| - 1 ==> Front(s)[i] == s[i];
  }

  /** The checks for order and for duplicates never speak: what they look for is found before as an overlap. */
  lemma {:induction false} SubsumedChecks<T>(s: seq<Interval<T>>, i: nat)
    requires i <= |s| && (i > 0 ==> i <= |s| && CheckAt(s, i - 1) == None)
    ensures var v := FirstViolation(s, i); v.Some? ==> !v.value.NotSorted? && !v.value.Duplicate?
    decreases |s| - i
  {
    if i < |s| && CheckAt(s, i).None? {
      SubsumedChecks(s, i + 1);
    }
  }

  // ---------------------------------------------------------------- merging by part of the record

  datatype AsnRecord = AsnRecord(asn: nat, asOrg: string, asName: Option<string>)

  /** What the AS merge compares. */
  datatype AsnKey = AsnKey(asn: nat, asOrg: string)

  function KeyOf(r: AsnRecord): AsnKey { AsnKey(r.asn, r.asOrg) }

  predicate JoinsAsn(last: Interval<AsnRecord>, cur: Interval<AsnRecord>) {
    NextAddress(last.end) == cur.start && KeyOf(last.record) == KeyOf(cur.record)
  }

  function ExtendAsn(merged: seq<Interval<AsnRecord>>, cur: Interval<AsnRecord>): seq<Interval<AsnRecord>> {
    if merged != [] && JoinsAsn(Last(merged), cur) then Front(merged) + [Last(merged).(end := cur.end)]
    else merged + [cur]
  }

  function MergedAsn(s: seq<Interval<AsnRecord>>): seq<Interval<AsnRecord>> {
    if s == [] then [] else ExtendAsn(MergedAsn(Front(s)), Last(s))
  }

  method MergeAsnIntervals(intervals: seq<Interval<AsnRecord>>) returns (merged: seq<Interval<AsnRecord>>)
    ensures merged == MergedAsn(intervals)
  {
    if |intervals| == 0 {
      return [];
    }
    merged := [intervals[0]];
    assert intervals[..1][..0] == [];
    for i := 1 to |intervals|
      invariant merged != [] && merged == MergedAsn(intervals[..i])
    {
      var cur := intervals[i];
      var last := merged[|merged| - 1];
      assert intervals[..i + 1][..i] == intervals[..i];
      if (last.end + 1) % TWO_32 == cur.start && last.record.asn == cur.record.asn &&
         last.record.asOrg == cur.record.asOrg {
        merged := merged[|merged| - 1 := last.(end := cur.end)];
        assert merged == ExtendAsn(MergedAsn(intervals[..i]), cur);
      } else {
        merged := merged + [cur];
      }
    }
    assert intervals[..|intervals|] == intervals;
  }

  function Keyed(s: seq<Interval<AsnRecord>>): (k: seq<Interval<AsnKey>>)
    ensures |k| == |s|
    ensures forall i :: 0 <= i < |s| ==> k[i] == Interval(s[i].start, s[i].end, KeyOf(s[i].record))
  {
    seq(|s|, i requires 0 <= i < |s| => Interval(s[i].start, s[i].end, KeyOf(s[i].record)))
  }

  lemma ExtendKeyed(m: seq<Interval<AsnRecord>>, cur: Interval<AsnRecord>)
    ensures Keyed(ExtendAsn(m, cur)) == Extend(Keyed(m), Interval(cur.start, cur.end, KeyOf(cur.record)))
  {
    if m != [] {
      assert Front(Keyed(m)) == Keyed(Front(m));
      assert Last(Keyed(m)).end == Last(m).end && Last(Keyed(m)).record == KeyOf(Last(m).record);
    }
  }

  /** On what it compares, the AS merge is the record merge. */
  lemma {:induction false} AsnMergeIsKeyed(s: seq<Interval<AsnRecord>>)
    ensures Keyed(MergedAsn(s)) == Merged(Keyed(s))
  {
    if s != [] {
      hide ExtendAsn;
      hide Extend;
      AsnMergeIsKeyed(Front(s));
      assert Front(Keyed(s)) == Keyed(Front(s));
      ExtendKeyed(MergedAsn(Front(s)), Last(s));
    }
  }

  /** Touching neighbours that agree on what is compared agree on the whole record. */
  predicate Uniform(s: seq<Interval<AsnRecord>>) {
    forall i :: 0 < i < |s| && JoinsAsn(s[i - 1], s[i]) ==> s[i - 1].record == s[i].record
  }

  lemma {:induction false} MergedAsnTable(s: seq<Interval<AsnRecord>>)
    requires Table(s)
    ensures Table(MergedAsn(s))
    ensures s != [] ==> MergedAsn(s) != [] && Last(MergedAsn(s)).end == Last(s).end
  {
    AsnMergeIsKeyed(s);
    assert Table(Keyed(s));
    MergePreserves(Keyed(s));
    var m, k := MergedAsn(s), Keyed(MergedAsn(s));
    assert forall i :: 0 <= i < |m| ==> m[i].start == k[i].start && m[i].end == k[i].end;
    if s != [] {
      MergedLast(Keyed(s));
    }
  }

  lemma ExtendAsnLookup(m: seq<Interval<AsnRecord>>, cur: Interval<AsnRecord>, a: int)
    requires Table(m) && m != [] && InRange(cur) && Last(m).end < cur.start
    ensures Lookup(ExtendAsn(m, cur), a) ==
            if cur.start <= a <= cur.end then Some(if JoinsAsn(Last(m), cur) then Last(m).record else cur.record)
            else Lookup(m, a)
  {
    var e := ExtendAsn(m, cur);
    if JoinsAsn(Last(m), cur) {
      assert Front(e) == Front(m);
    } else {
      assert Front(e) == m;
    }
  }

  lemma AsnUniformStep(s: seq<Interval<AsnRecord>>)
    requires |s| >= 2
    ensures Uniform(s) <==>
            Uniform(Front(s)) && (JoinsAsn(Last(Front(s)), Last(s)) ==> Last(Front(s)).record == Last(s).record)
  {
    assert forall i :: 0 <= i < |s| - 1 ==> Front(s)[i] == s[i];
  }

  /**
   * One more interval after a merged table: nothing changes before it, and in it the merged neighbour's record rules.
   */
  lemma AsnLookupStep(s: seq<Interval<AsnRecord>>)
    requires Table(s) && |s| >= 2
    ensures
      var front, cur := Front(s), Last(s);
      var m := MergedAsn(front);
      && m != []
      && (SameLookups(MergedAsn(s), s) <==>
          SameLookups(m, front) && (JoinsAsn(Last(m), cur) ==> Last(m).record == cur.record))
  {
    hide Lookup;
    var front, cur := Front(s), Last(s);
    var m := MergedAsn(front);
    MergedAsnTable(front);
    forall a
      ensures Lookup(MergedAsn(s), a) ==
              if cur.start <= a <= cur.end then Some(if JoinsAsn(Last(m), cur) then Last(m).record else cur.record)
              else Lookup(m, a)
      ensures Lookup(s, a) == if cur.start <= a <= cur.end then Some(cur.record) else Lookup(front, a)
      ensures cur.start <= a ==> Lookup(m, a) == Lookup(front, a)
    {
      ExtendAsnLookup(m, cur, a);
      LookupStep(s, a);
      LookupPast(m, a);
      LookupPast(front, a);
    }
    if SameLookups(MergedAsn(s), s) {
      assert Lookup(MergedAsn(s), cur.start) == Lookup(s, cur.start);
      forall a
        ensures Lookup(m, a) == Lookup(front, a)
      {
        assert Lookup(MergedAsn(s), a) == Lookup(s, a);
      }
    }
    if SameLookups(m, front) && (JoinsAsn(Last(m), cur) ==> Last(m).record == cur.record) {
      forall a
        ensures Lookup(MergedAsn(s), a) == Lookup(s, a)
      {
        assert Lookup(m, a) == Lookup(front, a);
      }
    }
  }

  lemma LookupStep<T>(s: seq<Interval<T>>, a: int)
    requires s != []
    ensures Lookup(s, a) == if Last(s).start <= a <= Last(s).end then Some(Last(s).record) else Lookup(Front(s), a)
  {
  }

  /** Every address keeps its whole record exactly when no touching equal-keyed neighbours differ in the AS name. */
  lemma {:induction false} AsnMergePreserves(s: seq<Interval<AsnRecord>>)
    requires Table(s)
    ensures SameLookups(MergedAsn(s), s) <==> Uniform(s)
  {
    if |s| == 1 {
      assert Front(s) == [] && MergedAsn(Front(s)) == [];
      assert MergedAsn(s) == [] + [s[0]] == s;
    } else if |s| >= 2 {
      hide Lookup;
      hide Uniform;
      var front, m := Front(s), MergedAsn(Front(s));
      AsnMergePreserves(front);
      AsnUniformStep(s);
      AsnLookupStep(s);
      MergedAsnTable(front);
      if SameLookups(m, front) {
        LookupStep(front, Last(front).end);
        LookupStep(m, Last(front).end);
        assert Lookup(m, Last(front).end) == Lookup(front, Last(front).end);
      }
    }
  }

  lemma KeyedTable(s: seq<Interval<AsnRecord>>)
    requires Table(s)
    ensures Table(Keyed(s))
  {
  }

  /** The AS merge is canonical in what it compares. */
  lemma AsnMergeCanonical(s: seq<Interval<AsnRecord>>, t: seq<Interval<AsnRecord>>)
    requires Table(s) && Table(t)
    ensures SameLookups(Keyed(s), Keyed(t)) <==> Keyed(MergedAsn(s)) == Keyed(MergedAsn(t))
    ensures SameLookups(Keyed(MergedAsn(s)), Keyed(s)) && Compact(Keyed(MergedAsn(s)))
  {
    hide Merged;
    hide MergedAsn;
    hide SameLookups;
    AsnMergeIsKeyed(s);
    AsnMergeIsKeyed(t);
    KeyedTable(s);
    KeyedTable(t);
    MergePreserves(Keyed(s));
    MergeCanonical(Keyed(s), Keyed(t));
  }

  /** A merged AS table passes validation, which compares whole records. */
  lemma AsnMergedIsAccepted(s: seq<Interval<AsnRecord>>)
    requires Table(s)
    ensures FirstViolation(MergedAsn(s), 0) == None
  {
    hide MergedAsn;
    AsnMergeCanonical(s, s);
    MergedAsnTable(s);
    var m := MergedAsn(s);
    forall i | 0 <= i < |m| - 1
      ensures !(m[i].end + 1 == m[i + 1].start && m[i].record == m[i + 1].record)
    {
      assert Keyed(m)[i].record == KeyOf(m[i].record) && Keyed(m)[i + 1].record == KeyOf(m[i + 1].record);
    }
    ValidatorIsExact(m);
  }

  // ---------------------------------------------------------------- what the AS merge keeps, field by field

  predicate SameNumber(a: Option<AsnRecord>, b: Option<AsnRecord>) {
    match a
    case None => b == None
    case Some(r) => b.Some? && b.value.asn == r.asn && b.value.asOrg == r.asOrg
  }

  lemma {:induction false} KeyedLookup(s: seq<Interval<AsnRecord>>, a: int)
    ensures Lookup(Keyed(s), a) ==
            match Lookup(s, a) case None => None case Some(r) => Some(AsnKey(r.asn, r.asOrg))
  {
    if s != [] {
      KeyedLookup(Front(s), a);
      assert Front(Keyed(s)) == Keyed(Front(s));
    }
  }

  /** Merging leaves every address its AS number and its organisation, or none. */
  lemma AsnMergeKeepsNumbers(s: seq<Interval<AsnRecord>>, a: int)
    requires Table(s)
    ensures SameNumber(Lookup(MergedAsn(s), a), Lookup(s, a))
  {
    hide Lookup;
    hide MergedAsn;
    AsnMergeCanonical(s, s);
    KeyedLookup(s, a);
    KeyedLookup(MergedAsn(s), a);
    assert Lookup(Keyed(MergedAsn(s)), a) == Lookup(Keyed(s), a);
  }

  /** Neighbours that still touch after the merge are of different AS numbers or organisations. */
  lemma AsnNeighboursDiffer(s: seq<Interval<AsnRecord>>, i: nat)
    requires Table(s) && i + 1 < |MergedAsn(s)|
    ensures
      var m := MergedAsn(s);
      m[i].end + 1 == m[i + 1].start ==>
        m[i].record.asn != m[i + 1].record.asn || m[i].record.asOrg != m[i + 1].record.asOrg
  {
    hide MergedAsn;
    AsnMergeCanonical(s, s);
    var m := MergedAsn(s);
    assert Keyed(m)[i].record == AsnKey(m[i].record.asn, m[i].record.asOrg);
    assert Keyed(m)[i + 1].record == AsnKey(m[i + 1].record.asn, m[i + 1].record.asOrg);
  }

  // ---------------------------------------------------------------- what a violation says

  /** The violation reported is the first, and true of its interval; 2^53 - 1 is the largest safe integer. */
  lemma {:induction false} ViolationIsTrue<T>(s: seq<Interval<T>>, from: nat)
    requires from <= |s| && FirstViolation(s, from).Some?
    ensures
      var v := FirstViolation(s, from).value;
      && from <= v.i < |s| && (forall j :: from <= j < v.i ==> CheckAt(s, j) == None)
      && var x := s[v.i];
         match v
         case NotSafeInteger(i) => Abs(x.start) >= 0x20_0000_0000_0000 || Abs(x.end) >= 0x20_0000_0000_0000
         case OutOfRange(i) => x.start < 0 || x.end > 0xFFFF_FFFF
         case StartAfterEnd(i) => x.start > x.end
         case Overlap(i) => i > 0 && s[i - 1].end >= x.start
         case NotSorted(i) => i > 0 && s[i - 1].start > x.start
         case Duplicate(i) => i > 0 && s[i - 1].start == x.start && s[i - 1].end == x.end
         case NotMerged(i) => i > 0 && (s[i - 1].end + 1) % 0x1_0000_0000 == x.start && s[i - 1].record == x.record
    decreases |s| - from
  {
    if CheckAt(s, from).None? {
      ViolationIsTrue(s, from + 1);
    }
  }

  function Abs(n: int): nat { if n >= 0 then n else -n }
}
