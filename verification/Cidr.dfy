/** CIDR arithmetic and the anycast prefix compiler. */
module Cidr {
  import opened Wrappers
  import opened Arith
  import opened Bytes

  // ---------------------------------------------------------------- 32-bit operators

  /** Bitwise and. */
  function And(x: nat, y: nat): (z: nat)
    ensures z <= x && z <= y
    decreases x
  {
    if x == 0 || y == 0 then 0
    else (if x % 2 == 1 && y % 2 == 1 then 1 else 0) + 2 * And(x / 2, y / 2)
  }

  /** Bitwise or. */
  function Or(x: nat, y: nat): (z: nat)
    decreases x + y
  {
    if x == 0 then y
    else if y == 0 then x
    else (if x % 2 == 1 || y % 2 == 1 then 1 else 0) + 2 * Or(x / 2, y / 2)
  }

  /** `~x >>> 0` */
  function Not32(x: u32): u32 { ADDRESS_MAX - x }

  /** `(x << k) >>> 0` for a shift count below 32. */
  function Shl32(x: u32, k: nat): u32
    requires k < 32
  {
    assert x * Pow2(k) >= 0;
    x * Pow2(k) % TWO_32
  }

  lemma AndStep(x: nat, y: nat)
    ensures And(x, y) == (if x % 2 == 1 && y % 2 == 1 then 1 else 0) + 2 * And(x / 2, y / 2)
  {
  }

  lemma OrStep(x: nat, y: nat)
    ensures Or(x, y) == (if x % 2 == 1 || y % 2 == 1 then 1 else 0) + 2 * Or(x / 2, y / 2)
  {
  }

  lemma {:induction false} AndOnes(x: nat, w: nat)
    requires x < Pow2(w)
    ensures And(x, Pow2(w) - 1) == x
    decreases w
  {
    hide And;
    hide Pow2;
    Pow2Double(w);
    AndStep(x, Pow2(w) - 1);
    if w == 0 {
      AndNothing(x, 0);
    } else {
      AndOnes(x / 2, w - 1);
      assert (Pow2(w) - 1) / 2 == Pow2(w - 1) - 1;
    }
  }

  /** Masking off the low k bits of a w-bit number. */
  lemma {:induction false} AndMask(x: nat, k: nat, w: nat)
    requires k <= w && x < Pow2(w)
    ensures Pow2(k) <= Pow2(w)
    ensures And(x, Pow2(w) - Pow2(k)) == x - x % Pow2(k)
    decreases w
  {
    hide And;
    hide Pow2;
    Pow2Grows(k, w);
    Pow2Double(w);
    Pow2Double(k);
    if k == 0 {
      AndOnes(x, w);
    } else {
      AndMask(x / 2, k - 1, w - 1);
      AndMaskStep(x, Pow2(w - 1), Pow2(k - 1));
    }
  }

  lemma AndMaskStep(x: nat, big: nat, p: nat)
    requires 1 <= p <= big && And(x / 2, big - p) == x / 2 - x / 2 % p
    ensures And(x, 2 * big - 2 * p) == x - x % (2 * p)
  {
    hide And;
    var y := 2 * (big - p);
    AndStep(x, y);
    HalfMod(x, p);
    assert y % 2 == 0 && y / 2 == big - p;
    var m := x / 2 % p;
    assert x % (2 * p) == 2 * m + x % 2;
  }

  lemma AndNothing(x: nat, y: nat)
    requires x == 0
    ensures And(x, y) == 0
  {
  }

  /** Filling in the low k bits of an aligned number. */
  lemma {:induction false} OrLowBits(x: nat, k: nat)
    requires x % Pow2(k) == 0
    ensures Or(x, Pow2(k) - 1) == x + Pow2(k) - 1
    decreases k
  {
    if k > 0 {
      OrStep(x, Pow2(k) - 1);
      HalfMod(x, Pow2(k - 1));
      OrLowBits(x / 2, k - 1);
      assert (Pow2(k) - 1) / 2 == Pow2(k - 1) - 1;
    }
  }

  // ---------------------------------------------------------------- one CIDR

  datatype Range = Range(start: u32, end: u32)

  function Mask(prefix: nat): u32
    requires prefix <= 32
  {
    if prefix == 0 then 0 else Shl32(ADDRESS_MAX, 32 - prefix)
  }

  /** The address range of a base address (absent when it did not parse) and a prefix length. */
  function CidrToRange(base: Option<u32>, prefix: int): Option<Range> {
    if base.None? || prefix < 0 || prefix > 32 then None
    else
      var mask := Mask(prefix);
      var start := And(base.value, mask);
      var end := Or(start, Not32(mask));
      CidrArithmetic(base.value, prefix);
      Some(Range(start, end))
  }

  lemma MaskIs(prefix: nat)
    requires prefix <= 32
    ensures Pow2(32 - prefix) <= TWO_32
    ensures Mask(prefix) == TWO_32 - Pow2(32 - prefix)
  {
    Pow2Of32();
    var k := 32 - prefix;
    Pow2Grows(k, 32);
    if prefix > 0 {
      var p := Pow2(k);
      assert ADDRESS_MAX * p == (p - 1) * TWO_32 + (TWO_32 - p);
      RemainderIs(ADDRESS_MAX * p, TWO_32, p - 1, TWO_32 - p);
    }
  }

  lemma CidrArithmetic(base: u32, prefix: nat)
    requires prefix <= 32
    ensures
      var size := Pow2(32 - prefix);
      var start := And(base, Mask(prefix));
      && start == base - base % size
      && start % size == 0
      && Or(start, Not32(Mask(prefix))) == start + size - 1 <= ADDRESS_MAX
  {
    hide And;
    hide Or;
    hide Mask;
    hide Pow2;
    var size := Pow2(32 - prefix);
    Pow2Of32();
    MaskIs(prefix);
    AndMask(base, 32 - prefix, 32);
    var start := And(base, Mask(prefix));
    assert base / size * size + 0 == start;
    RemainderIs(start, size, base / size, 0);
    OrLowBits(start, 32 - prefix);
    var c := PowersDivide(32 - prefix, 32);
    BlockFits(base / size, size, c);
  }

  /** An aligned block that starts below an aligned limit ends below it. */
  lemma BlockFits(i: nat, size: nat, c: nat)
    requires i * size < c * size
    ensures i * size + size <= c * size
  {
    TimesMonotone(c, i, size);
    TimesMonotone(i + 1, c, size);
    TimesMonotone(i, i, size);
  }

  /** An accepted prefix is an aligned block of 2^(32-p) addresses that contains its base. */
  lemma CidrBlock(base: Option<u32>, prefix: int)
    ensures CidrToRange(base, prefix).Some? <==> base.Some? && 0 <= prefix <= 32
    ensures CidrToRange(base, prefix).Some? ==>
      var r := CidrToRange(base, prefix).value;
      && r.end - r.start + 1 == Pow2(32 - prefix)
      && r.start % Pow2(32 - prefix) == 0
      && r.start <= base.value <= r.end
  {
    if CidrToRange(base, prefix).Some? {
      CidrArithmetic(base.value, prefix);
    }
  }

  // ---------------------------------------------------------------- laminarity

  /** A range that some CIDR denotes. */
  predicate Block(r: Range, k: nat) {
    k <= 32 && r.end - r.start + 1 == Pow2(k) && r.start % Pow2(k) == 0
  }

  ghost predicate IsBlock(r: Range) { exists k :: Block(r, k) }

  predicate Disjoint(a: Range, b: Range) { a.end < b.start || b.end < a.start }

  predicate Contains(outer: Range, inner: Range) { outer.start <= inner.start && inner.end <= outer.end }

  lemma SmallerInLarger(a: Range, j: nat, b: Range, k: nat)
    requires Block(a, j) && Block(b, k) && j <= k
    ensures Disjoint(a, b) || Contains(b, a)
  {
    hide Pow2;
    var p := Pow2(j);
    var c := PowersDivide(j, k);
    var i, m := a.start / p, b.start / Pow2(k);
    assert a.start == i * p && b.start == m * Pow2(k);
    MulAssoc(m, c, p);
    UnitsNest(i, m * c, c, p);
  }

  /** In units of p: a block of one unit against a block of c units. */
  lemma UnitsNest(i: nat, lo: nat, c: nat, p: nat)
    requires p >= 1
    ensures i * p + p <= lo * p || lo * p + c * p <= i * p || (lo * p <= i * p && i * p + p <= lo * p + c * p)
  {
    assert (lo + c) * p == lo * p + c * p;
    TimesMonotone(i, i, p);
    TimesMonotone(i + 1, lo, p);
    TimesMonotone(lo + c, i, p);
    TimesMonotone(lo, i, p);
    TimesMonotone(i + 1, lo + c, p);
  }

  /** Any two CIDR blocks are nested or disjoint. */
  lemma Laminar(a: Range, b: Range)
    requires IsBlock(a) && IsBlock(b)
    ensures Disjoint(a, b) <==> !Contains(a, b) && !Contains(b, a)
  {
    var j :| Block(a, j);
    var k :| Block(b, k);
    if j <= k {
      SmallerInLarger(a, j, b, k);
    } else {
      SmallerInLarger(b, k, a, j);
    }
  }

  // ---------------------------------------------------------------- the anycast compiler

  /** One source record: which of its checks pass, the parsed base address and the prefix length. */
  datatype AnycastSource = AnycastSource(
    urlOk: bool, dateOk: bool, base: Option<u32>, prefix: int,
    provider: string, service: Option<string>, source: string, cidr: string)

  datatype AnycastPrefix = AnycastPrefix(
    range: Range, provider: string, service: Option<string>, source: string, cidr: string)

  datatype CompileError = InvalidSourceUrl | InvalidVerifiedAt | EmptyProvider | EmptySource

  datatype PrefixViolation =
    | BlankProvider(i: nat)
    | BlankSource(i: nat)
    | StartAfterEnd(i: nat)
    | Overlap(i: nat)
    | NotSorted(i: nat)

  /** `trim()` leaves nothing: only blanks (space, tab and line ends are what these records can hold). */
  predicate Blank(s: string) { forall i :: 0 <= i < |s| ==> s[i] in {' ', '\t', '\n', '\r'} }

  /**
   * The complaint that stops the compiler at a record; a CIDR that does not parse is skipped before its texts are
   * read.
   */
  function Complaint(rec: AnycastSource): Option<CompileError> {
    if !rec.urlOk then Some(InvalidSourceUrl)
    else if !rec.dateOk then Some(InvalidVerifiedAt)
    else if CidrToRange(rec.base, rec.prefix).None? then None
    else if Blank(rec.provider) then Some(EmptyProvider)
    else if Blank(rec.source) then Some(EmptySource)
    else None
  }

  /** What each complaint says of the record; a record whose CIDR does not parse is not looked at any further. */
  lemma ComplaintIs(rec: AnycastSource)
    ensures Complaint(rec) == Some(InvalidSourceUrl) <==> !rec.urlOk
    ensures Complaint(rec) == Some(InvalidVerifiedAt) <==> rec.urlOk && !rec.dateOk
    ensures
      var parses := rec.urlOk && rec.dateOk && rec.base.Some? && 0 <= rec.prefix <= 32;
      && (Complaint(rec) == Some(EmptyProvider) <==> parses && Blank(rec.provider))
      && (Complaint(rec) == Some(EmptySource) <==> parses && !Blank(rec.provider) && Blank(rec.source))
  {
    CidrBlock(rec.base, rec.prefix);
    hide CidrToRange;
  }

  /** The prefixes listed by the first records, in their order. */
  function Listed(recs: seq<AnycastSource>): seq<AnycastPrefix> {
    if recs == [] then []
    else
      var rec := recs[|recs| - 1];
      var before := Listed(recs[..|recs| - 1]);
      match CidrToRange(rec.base, rec.prefix)
      case None => before
      case Some(range) => before + [AnycastPrefix(range, rec.provider, rec.service, rec.source, rec.cidr)]
  }

  function Insert(x: AnycastPrefix, s: seq<AnycastPrefix>): (r: seq<AnycastPrefix>)
    ensures |r| == |s| + 1
  {
    if s == [] || x.range.start < s[0].range.start then [x] + s else [s[0]] + Insert(x, s[1..])
  }

  /** The stable sort by start. */
  function Sorted(s: seq<AnycastPrefix>): (r: seq<AnycastPrefix>)
    ensures |r| == |s|
  {
    if s == [] then [] else Insert(s[|s| - 1], Sorted(s[..|s| - 1]))
  }

  predicate ByStart(s: seq<AnycastPrefix>) {
    forall i, j :: 0 <= i < j < |s| ==> s[i].range.start <= s[j].range.start
  }

  lemma {:induction false} InsertElements(x: AnycastPrefix, s: seq<AnycastPrefix>)
    ensures forall y :: y in Insert(x, s) <==> y == x || y in s
  {
    if s != [] && x.range.start >= s[0].range.start {
      InsertElements(x, s[1..]);
      assert s == [s[0]] + s[1..];
    }
  }

  lemma {:induction false} InsertPermutes(x: AnycastPrefix, s: seq<AnycastPrefix>)
    ensures multiset(Insert(x, s)) == multiset(s) + multiset{x}
  {
    if s != [] && x.range.start >= s[0].range.start {
      InsertPermutes(x, s[1..]);
      assert s == [s[0]] + s[1..];
    }
  }

  lemma {:induction false} InsertSorts(x: AnycastPrefix, s: seq<AnycastPrefix>)
    requires ByStart(s)
    ensures ByStart(Insert(x, s))
  {
    if s != [] && x.range.start >= s[0].range.start {
      var r := Insert(x, s[1..]);
      InsertSorts(x, s[1..]);
      InsertElements(x, s[1..]);
      HeadFirst(s[0], r);
    }
  }

  lemma HeadFirst(x: AnycastPrefix, s: seq<AnycastPrefix>)
    requires ByStart(s) && forall y :: y in s ==> x.range.start <= y.range.start
    ensures ByStart([x] + s)
  {
    var t := [x] + s;
    assert forall i :: 0 < i < |t| ==> t[i] == s[i - 1] && t[i] in s;
  }

  /** The sort keeps the prefixes, each as often as it was listed. */
  lemma {:induction false} SortPermutes(s: seq<AnycastPrefix>)
    ensures multiset(Sorted(s)) == multiset(s)
  {
    if s != [] {
      hide Insert;
      SortPermutes(s[..|s| - 1]);
      InsertPermutes(s[|s| - 1], Sorted(s[..|s| - 1]));
      assert s == s[..|s| - 1] + [s[|s| - 1]];
    }
  }

  /** The sort orders the prefixes by start. */
  lemma {:induction false} SortSorts(s: seq<AnycastPrefix>)
    ensures ByStart(Sorted(s))
  {
    if s != [] {
      hide Insert;
      hide ByStart;
      SortSorts(s[..|s| - 1]);
      InsertSorts(s[|s| - 1], Sorted(s[..|s| - 1]));
    } else {
      assert Sorted(s) == [];
    }
  }

  lemma SortElements(s: seq<AnycastPrefix>, y: AnycastPrefix)
    ensures y in Sorted(s) <==> y in s
  {
    SortPermutes(s);
    assert y in multiset(Sorted(s)) <==> y in multiset(s);
  }

  /** The record gives this prefix: its own range and its own texts. */
  predicate Gives(rec: AnycastSource, p: AnycastPrefix) {
    && CidrToRange(rec.base, rec.prefix) == Some(p.range)
    && p.provider == rec.provider && p.service == rec.service && p.source == rec.source && p.cidr == rec.cidr
  }

  lemma LastGives(recs: seq<AnycastSource>)
    requires recs != []
    ensures
      var n := |recs| - 1;
      var before, all := Listed(recs[..n]), Listed(recs);
      if CidrToRange(recs[n].base, recs[n].prefix).Some?
      then |all| == |before| + 1 && all[..|before|] == before && Gives(recs[n], all[|before|])
      else all == before
  {
    hide CidrToRange;
  }

  /** Each listed prefix comes from the record at its position. */
  predicate ComesFrom(recs: seq<AnycastSource>, at: seq<nat>, ps: seq<AnycastPrefix>) {
    && |at| == |ps|
    && (forall i, j :: 0 <= i < j < |at| ==> at[i] < at[j])
    && (forall k :: 0 <= k < |at| ==> at[k] < |recs| && Gives(recs[at[k]], ps[k]))
  }

  lemma ComesFromMore(recs: seq<AnycastSource>, at: seq<nat>, ps: seq<AnycastPrefix>, all: seq<AnycastPrefix>)
    requires recs != [] && ComesFrom(recs[..|recs| - 1], at, ps)
    ensures ComesFrom(recs, at, ps)
    ensures |all| == |ps| + 1 && all[..|ps|] == ps && Gives(recs[|recs| - 1], all[|ps|]) ==>
              ComesFrom(recs, at + [|recs| - 1], all)
  {
    hide Gives;
    var n := |recs| - 1;
    forall k | 0 <= k < |at|
      ensures at[k] < n && Gives(recs[at[k]], ps[k])
    {
      assert recs[..n][at[k]] == recs[at[k]];
    }
    if |all| == |ps| + 1 && all[..|ps|] == ps {
      assert forall k :: 0 <= k < |ps| ==> all[k] == all[..|ps|][k];
    }
  }

  /**
   * What is listed: one prefix for every record whose CIDR parses, in the order of the records; `at` says which record
   * each comes from.
   */
  lemma {:induction false} ListedExactly(recs: seq<AnycastSource>) returns (at: seq<nat>)
    ensures ComesFrom(recs, at, Listed(recs))
    ensures forall i: nat :: i in at <==> i < |recs| && recs[i].base.Some? && 0 <= recs[i].prefix <= 32
  {
    hide ComesFrom;
    hide Gives;
    if recs == [] {
      at := [];
      NoneListed();
    } else {
      var n := |recs| - 1;
      var before := ListedExactly(recs[..n]);
      CidrBlock(recs[n].base, recs[n].prefix);
      LastGives(recs);
      ComesFromMore(recs, before, Listed(recs[..n]), Listed(recs));
      hide CidrToRange;
      hide Listed;
      at := if CidrToRange(recs[n].base, recs[n].prefix).Some? then before + [n] else before;
      assert forall i: nat :: i < n ==> recs[..n][i] == recs[i];
    }
  }

  lemma NoneListed()
    ensures ComesFrom([], [], Listed([]))
  {
  }

  method CompileAnycast(recs: seq<AnycastSource>) returns (r: Result<seq<AnycastPrefix>, CompileError>)
    ensures r.Ok? <==> forall i :: 0 <= i < |recs| ==> Complaint(recs[i]) == None
    ensures r.Ok? ==> r.value == Sorted(Listed(recs)) && multiset(r.value) == multiset(Listed(recs))
    ensures r.Err? ==> exists i :: 0 <= i < |recs| && Complaint(recs[i]) == Some(r.error) &&
                                   forall j :: 0 <= j < i ==> Complaint(recs[j]) == None
  {
    var prefixes: seq<AnycastPrefix> := [];
    for i := 0 to |recs|
      invariant prefixes == Listed(recs[..i])
      invariant forall j :: 0 <= j < i ==> Complaint(recs[j]) == None
    {
      var rec := recs[i];
      assert recs[..i + 1][..i] == recs[..i];
      if !rec.urlOk {
        return Err(InvalidSourceUrl);
      }
      if !rec.dateOk {
        return Err(InvalidVerifiedAt);
      }
      var range := CidrToRange(rec.base, rec.prefix);
      if range.None? {
        continue;
      }
      if Blank(rec.provider) {
        return Err(EmptyProvider);
      }
      if Blank(rec.source) {
        return Err(EmptySource);
      }
      prefixes := prefixes + [AnycastPrefix(range.value, rec.provider, rec.service, rec.source, rec.cidr)];
    }
    assert recs[..|recs|] == recs;
    SortPermutes(prefixes);
    return Ok(Sorted(prefixes));
  }

  function CheckPrefix(s: seq<AnycastPrefix>, i: nat): Option<PrefixViolation>
    requires i < |s|
  {
    if Blank(s[i].provider) then Some(BlankProvider(i))
    else if Blank(s[i].source) then Some(BlankSource(i))
    else if s[i].range.start > s[i].range.end then Some(StartAfterEnd(i))
    else if i == 0 then None
    else if s[i - 1].range.end >= s[i].range.start then Some(Overlap(i))
    else if s[i - 1].range.start > s[i].range.start then Some(NotSorted(i))
    else None
  }

  /** The validator: the first violation in order, or none. */
  method ValidateAnycast(s: seq<AnycastPrefix>) returns (r: Option<PrefixViolation>)
    ensures r == None <==> forall i :: 0 <= i < |s| ==> CheckPrefix(s, i) == None
    ensures r.Some? ==> exists i :: 0 <= i < |s| && CheckPrefix(s, i) == r &&
                                    forall j :: 0 <= j < i ==> CheckPrefix(s, j) == None
  {
    for i := 0 to |s|
      invariant forall j :: 0 <= j < i ==> CheckPrefix(s, j) == None
    {
      var violation := CheckPrefix(s, i);
      if violation.Some? {
        return violation;
      }
    }
    return None;
  }

  /** A violation is true of its prefix. */
  lemma ViolationIsTrue(s: seq<AnycastPrefix>, i: nat)
    requires i < |s| && CheckPrefix(s, i).Some?
    ensures
      match CheckPrefix(s, i).value
      case BlankProvider(k) => k == i && Blank(s[i].provider)
      case BlankSource(k) => k == i && Blank(s[i].source)
      case StartAfterEnd(k) => k == i && s[i].range.start > s[i].range.end
      case Overlap(k) => k == i > 0 && s[i - 1].range.end >= s[i].range.start
      case NotSorted(k) => k == i > 0 && s[i - 1].range.start > s[i].range.start
  {
  }

  // ---------------------------------------------------------------- when a source list compiles

  /** No listed CIDR contains another, at whatever positions they are listed. */
  predicate NoneNested(s: seq<AnycastPrefix>) {
    forall i, j :: 0 <= i < j < |s| ==> !Contains(s[i].range, s[j].range) && !Contains(s[j].range, s[i].range)
  }

  predicate PairwiseDisjoint(s: seq<AnycastPrefix>) {
    forall i, j :: 0 <= i < j < |s| ==> Disjoint(s[i].range, s[j].range)
  }

  ghost predicate AllBlocks(s: seq<AnycastPrefix>) { forall i :: 0 <= i < |s| ==> IsBlock(s[i].range) }

  predicate AllNamed(s: seq<AnycastPrefix>) {
    forall i :: 0 <= i < |s| ==> !Blank(s[i].provider) && !Blank(s[i].source)
  }

  lemma {:induction false} ListedAreBlocks(recs: seq<AnycastSource>)
    requires forall i :: 0 <= i < |recs| ==> Complaint(recs[i]) == None
    ensures AllBlocks(Listed(recs)) && AllNamed(Listed(recs))
  {
    if recs != [] {
      var rec := recs[|recs| - 1];
      ListedAreBlocks(recs[..|recs| - 1]);
      CidrBlock(rec.base, rec.prefix);
      var range := CidrToRange(rec.base, rec.prefix);
      if range.Some? {
        assert Block(range.value, 32 - rec.prefix);
      }
    }
  }

  lemma NestedOrDisjoint(s: seq<AnycastPrefix>)
    requires AllBlocks(s)
    ensures NoneNested(s) <==> PairwiseDisjoint(s)
  {
    forall i, j | 0 <= i < j < |s|
      ensures Disjoint(s[i].range, s[j].range) <==>
              !Contains(s[i].range, s[j].range) && !Contains(s[j].range, s[i].range)
    {
      Laminar(s[i].range, s[j].range);
    }
  }

  predicate ApartFrom(x: AnycastPrefix, s: seq<AnycastPrefix>) {
    forall y :: y in s ==> Disjoint(x.range, y.range)
  }

  lemma {:induction false} InsertDisjoint(x: AnycastPrefix, s: seq<AnycastPrefix>)
    ensures PairwiseDisjoint(Insert(x, s)) <==> PairwiseDisjoint(s) && ApartFrom(x, s)
  {
    if s == [] || x.range.start < s[0].range.start {
      JoinDisjoint([x], s);
      assert ApartFrom(x, s) <==> forall y, z :: y in [x] && z in s ==> Disjoint(y.range, z.range);
    } else {
      hide PairwiseDisjoint;
      var r := Insert(x, s[1..]);
      assert s == [s[0]] + s[1..];
      InsertDisjoint(x, s[1..]);
      InsertElements(x, s[1..]);
      OneDisjoint(s[0], r);
      OneDisjoint(s[0], s[1..]);
      assert ApartFrom(x, s) <==> Disjoint(x.range, s[0].range) && ApartFrom(x, s[1..]);
      assert ApartFrom(s[0], r) <==> Disjoint(s[0].range, x.range) && ApartFrom(s[0], s[1..]);
    }
  }

  lemma OneDisjoint(x: AnycastPrefix, s: seq<AnycastPrefix>)
    ensures PairwiseDisjoint([x] + s) <==> PairwiseDisjoint(s) && ApartFrom(x, s)
  {
    JoinDisjoint([x], s);
    assert ApartFrom(x, s) <==> forall y, z :: y in [x] && z in s ==> Disjoint(y.range, z.range);
  }

  /** A concatenation is pairwise disjoint when both parts are and they are apart. */
  lemma JoinDisjoint(a: seq<AnycastPrefix>, b: seq<AnycastPrefix>)
    ensures PairwiseDisjoint(a + b) <==>
            PairwiseDisjoint(a) && PairwiseDisjoint(b) && forall y, z :: y in a && z in b ==> Disjoint(y.range, z.range)
  {
    var t := a + b;
    if PairwiseDisjoint(t) {
      forall i, j | 0 <= i < j < |a|
        ensures Disjoint(a[i].range, a[j].range)
      {
        assert Disjoint(t[i].range, t[j].range);
      }
      forall i, j | 0 <= i < j < |b|
        ensures Disjoint(b[i].range, b[j].range)
      {
        assert Disjoint(t[|a| + i].range, t[|a| + j].range);
      }
      forall y, z | y in a && z in b
        ensures Disjoint(y.range, z.range)
      {
        var i :| 0 <= i < |a| && a[i] == y;
        var j :| 0 <= j < |b| && b[j] == z;
        assert Disjoint(t[i].range, t[|a| + j].range);
      }
    }
    if PairwiseDisjoint(a) && PairwiseDisjoint(b) && forall y, z :: y in a && z in b ==> Disjoint(y.range, z.range) {
      forall i, j | 0 <= i < j < |t|
        ensures Disjoint(t[i].range, t[j].range)
      {
        if i < |a| <= j {
          assert t[i] in a && t[j] in b;
        }
      }
    }
  }

  lemma LastDisjoint(s: seq<AnycastPrefix>, x: AnycastPrefix)
    ensures PairwiseDisjoint(s + [x]) <==> PairwiseDisjoint(s) && ApartFrom(x, s)
  {
    JoinDisjoint(s, [x]);
    assert ApartFrom(x, s) <==> forall y, z :: y in s && z in [x] ==> Disjoint(y.range, z.range);
  }

  lemma {:induction false} SortKeepsDisjoint(s: seq<AnycastPrefix>)
    ensures PairwiseDisjoint(Sorted(s)) <==> PairwiseDisjoint(s)
  {
    if s != [] {
      hide PairwiseDisjoint;
      hide Insert;
      var front, x := s[..|s| - 1], s[|s| - 1];
      assert s == front + [x];
      SortKeepsDisjoint(front);
      InsertDisjoint(x, Sorted(front));
      LastDisjoint(front, x);
      forall y
        ensures y in Sorted(front) <==> y in front
      {
        SortElements(front, y);
      }
    }
  }

  /** On a list sorted by start, comparing neighbours is as good as comparing all pairs. */
  lemma NeighboursDecide(s: seq<AnycastPrefix>)
    requires ByStart(s) && AllNamed(s) && forall i :: 0 <= i < |s| ==> s[i].range.start <= s[i].range.end
    ensures (forall i :: 0 <= i < |s| ==> CheckPrefix(s, i) == None) <==> PairwiseDisjoint(s)
  {
    if forall i :: 0 <= i < |s| ==> CheckPrefix(s, i) == None {
      forall i, j | 0 <= i < j < |s|
        ensures Disjoint(s[i].range, s[j].range)
      {
        assert CheckPrefix(s, i + 1) == None;
        assert s[i + 1].range.start <= s[j].range.start;
      }
    }
    if PairwiseDisjoint(s) {
      forall i | 0 <= i < |s|
        ensures CheckPrefix(s, i) == None
      {
        if i > 0 {
          assert Disjoint(s[i - 1].range, s[i].range);
        }
      }
    }
  }

  /**
   * The neighbour-only overlap check on the sorted output is exact: a source list that compiles passes it precisely
   * when no CIDR it lists contains another it lists.
   */
  lemma OverlapCheckIsExact(recs: seq<AnycastSource>)
    requires forall i :: 0 <= i < |recs| ==> Complaint(recs[i]) == None
    ensures
      var out := Sorted(Listed(recs));
      (forall i :: 0 <= i < |out| ==> CheckPrefix(out, i) == None) <==> NoneNested(Listed(recs))
  {
    var listed, out := Listed(recs), Sorted(Listed(recs));
    ListedAreBlocks(recs);
    SortSorts(listed);
    NestedOrDisjoint(listed);
    SortKeepsDisjoint(listed);
    forall i | 0 <= i < |out|
      ensures out[i].range.start <= out[i].range.end && !Blank(out[i].provider) && !Blank(out[i].source)
    {
      SortElements(listed, out[i]);
      var j :| 0 <= j < |listed| && listed[j] == out[i];
      assert IsBlock(listed[j].range);
    }
    NeighboursDecide(out);
  }
}
