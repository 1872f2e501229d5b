/** Interval unions and the direct-map evidence check built on them. */
module Intervals {
  import opened Machine

  /** Addresses lo, ..., hi - 1. */
  datatype Interval = Interval(lo: int, hi: int)

  ghost predicate Covered(s: seq<Interval>, a: int) {
    exists i :: 0 <= i < |s| && s[i].lo <= a < s[i].hi
  }

  ghost predicate SameCover(s: seq<Interval>, t: seq<Interval>) {
    forall a :: Covered(s, a) <==> Covered(t, a)
  }

  predicate NonEmpty(s: seq<Interval>) {
    forall i :: 0 <= i < |s| ==> s[i].lo < s[i].hi
  }

  // ----- Sorting, as `sorted` does on pairs -----

  predicate Le(a: Interval, b: Interval) {
    a.lo < b.lo || (a.lo == b.lo && a.hi <= b.hi)
  }

  predicate Sorted(s: seq<Interval>) {
    forall i, j :: 0 <= i < j < |s| ==> Le(s[i], s[j])
  }

  function Insert(x: Interval, s: seq<Interval>): (r: seq<Interval>)
    requires Sorted(s)
    ensures Sorted(r) && multiset(r) == multiset([x]) + multiset(s)
  {
    if s == [] then [x]
    else if Le(x, s[0]) then
      assert multiset([x] + s) == multiset([x]) + multiset(s);
      [x] + s
    else
      var rest := Insert(x, s[1..]);
      assert s == [s[0]] + s[1..];
      assert forall y :: y in rest ==> Le(s[0], y) by {
        forall y | y in rest ensures Le(s[0], y) {
          assert y in multiset(rest);
          assert y == x || y in multiset(s[1..]);
          if y != x { assert y in s[1..]; }
        }
      }
      assert multiset([s[0]] + rest) == multiset([s[0]]) + multiset(rest);
      [s[0]] + rest
  }

  function Sort(s: seq<Interval>): (r: seq<Interval>)
    ensures Sorted(r) && multiset(r) == multiset(s)
  {
    if s == [] then [] else
      assert s == [s[0]] + s[1..];
      Insert(s[0], Sort(s[1..]))
  }

  lemma SameElements(s: seq<Interval>, t: seq<Interval>)
    requires multiset(s) == multiset(t)
    ensures SameCover(s, t) && (NonEmpty(s) ==> NonEmpty(t))
  {
    forall i | 0 <= i < |t| ensures t[i] in s { assert t[i] in multiset(t); }
    forall i | 0 <= i < |s| ensures s[i] in t { assert s[i] in multiset(s); }
    forall a ensures Covered(s, a) <==> Covered(t, a) {
      if i :| 0 <= i < |s| && s[i].lo <= a < s[i].hi {
        var j :| 0 <= j < |t| && t[j] == s[i];
      }
      if i :| 0 <= i < |t| && t[i].lo <= a < t[i].hi {
        var j :| 0 <= j < |s| && s[j] == t[i];
      }
    }
  }

  // ----- Merging -----

  /** Non-empty intervals in order with a gap between neighbours. */
  ghost predicate Canonical(s: seq<Interval>) {
    NonEmpty(s) && forall i, j :: 0 <= i < j < |s| ==> s[i].hi < s[j].lo
  }

  /** `merge`: extend the last interval or start a new one. */
  method Merge(intervals: seq<Interval>) returns (merged: seq<Interval>)
    requires Sorted(intervals) && NonEmpty(intervals)
    ensures Canonical(merged) && SameCover(merged, intervals)
  {
    merged := [];
    for i := 0 to |intervals|
      invariant Canonical(merged) && SameCover(merged, intervals[..i])
      invariant merged != [] ==> i > 0 && merged[|merged| - 1].lo <= intervals[i - 1].lo
    {
      var x := intervals[i];
      ghost var before := merged;
      assert i > 0 ==> Le(intervals[i - 1], x);
      if merged == [] || x.lo > merged[|merged| - 1].hi {
        merged := merged + [x];
        AddedInterval(before, x);
      } else {
        var last := merged[|merged| - 1];
        merged := merged[..|merged| - 1] + [Interval(last.lo, Max(last.hi, x.hi))];
        ExtendedInterval(before, x);
      }
      assert intervals[..i + 1] == intervals[..i] + [x];
      AddedInterval(intervals[..i], x);
    }
    assert intervals[..|intervals|] == intervals;
  }

  lemma AddedInterval(s: seq<Interval>, x: Interval)
    ensures forall a :: Covered(s + [x], a) <==> Covered(s, a) || x.lo <= a < x.hi
  {
    forall a ensures Covered(s + [x], a) <==> Covered(s, a) || x.lo <= a < x.hi {
      if i :| 0 <= i < |s| && s[i].lo <= a < s[i].hi { assert (s + [x])[i] == s[i]; }
      if x.lo <= a < x.hi { assert (s + [x])[|s|] == x; }
    }
  }

  lemma ExtendedInterval(s: seq<Interval>, x: Interval)
    requires s != [] && s[|s| - 1].lo <= x.lo <= s[|s| - 1].hi && NonEmpty(s)
    ensures var last := s[|s| - 1];
            forall a :: Covered(s[..|s| - 1] + [Interval(last.lo, Max(last.hi, x.hi))], a)
                   <==> Covered(s, a) || x.lo <= a < x.hi
  {
    var last, front := s[|s| - 1], s[..|s| - 1];
    assert s == front + [last];
    AddedInterval(front, last);
    AddedInterval(front, Interval(last.lo, Max(last.hi, x.hi)));
  }

  // ----- Canonical lists are determined by what they cover -----

  /** The first interval of a canonical list runs from the first covered address to the first gap. */
  lemma CanonicalHead(s: seq<Interval>, a: int)
    requires Canonical(s) && s != []
    ensures Covered(s, a) ==> s[0].lo <= a
    ensures !Covered(s, s[0].hi)
    ensures Covered(s[1..], a) <==> Covered(s, a) && a >= s[0].hi
    ensures s[0].lo <= a < s[0].hi ==> Covered(s, a)
  {
    if i :| 0 <= i < |s[1..]| && s[1..][i].lo <= a < s[1..][i].hi { assert s[i + 1] == s[1..][i]; }
    if i :| 0 <= i < |s| && s[i].lo <= a < s[i].hi {
      if i > 0 { assert s[1..][i - 1] == s[i]; }
    }
  }

  lemma SameHead(s: seq<Interval>, t: seq<Interval>)
    requires Canonical(s) && Canonical(t) && SameCover(s, t) && s != [] && t != []
    ensures s[0] == t[0]
  {
    CanonicalHead(s, s[0].lo);
    CanonicalHead(s, t[0].lo);
    CanonicalHead(s, t[0].hi);
    CanonicalHead(t, t[0].lo);
    CanonicalHead(t, s[0].lo);
    CanonicalHead(t, s[0].hi);
  }

  lemma {:induction false} CanonicalUnique(s: seq<Interval>, t: seq<Interval>)
    requires Canonical(s) && Canonical(t) && SameCover(s, t)
    ensures s == t
    decreases |s|
  {
    if s == [] {
      if t != [] { CanonicalHead(t, t[0].lo); }
    } else if t == [] {
      CanonicalHead(s, s[0].lo);
    } else {
      SameHead(s, t);
      forall a ensures Covered(s[1..], a) <==> Covered(t[1..], a) {
        CanonicalHead(s, a);
        CanonicalHead(t, a);
      }
      CanonicalUnique(s[1..], t[1..]);
      assert s == [s[0]] + s[1..] && t == [t[0]] + t[1..];
    }
  }

  /** `_intervals_match`: the merged lists are equal if and only if the same addresses are covered. */
  method IntervalsMatch(zones: seq<Interval>, coverage: seq<Interval>) returns (same: bool)
    requires NonEmpty(zones) && NonEmpty(coverage)
    ensures same <==> SameCover(zones, coverage)
  {
    var zs, cs := Sort(zones), Sort(coverage);
    SameElements(zones, zs);
    SameElements(coverage, cs);
    var mz := Merge(zs);
    var mc := Merge(cs);
    same := mz == mc;
    if SameCover(zones, coverage) { CanonicalUnique(mz, mc); }
  }

  // ----- Sizes -----

  function Total(s: seq<Interval>): int {
    if s == [] then 0 else s[0].hi - s[0].lo + Total(s[1..])
  }

  ghost function Addresses(lo: int, hi: int): (r: set<int>)
    ensures forall a :: a in r <==> lo <= a < hi
    decreases hi - lo
  {
    if hi <= lo then {} else Addresses(lo, hi - 1) + {hi - 1}
  }

  lemma {:induction false} AddressCount(lo: int, hi: int)
    requires lo <= hi
    ensures |Addresses(lo, hi)| == hi - lo
    decreases hi - lo
  {
    if lo < hi {
      AddressCount(lo, hi - 1);
      assert hi - 1 !in Addresses(lo, hi - 1);
    }
  }

  ghost function AllAddresses(s: seq<Interval>): set<int> {
    if s == [] then {} else Addresses(s[0].lo, s[0].hi) + AllAddresses(s[1..])
  }

  lemma {:induction false} AllAddressesCovered(s: seq<Interval>, a: int)
    ensures a in AllAddresses(s) <==> Covered(s, a)
  {
    if s != [] {
      AllAddressesCovered(s[1..], a);
      if i :| 0 <= i < |s| && s[i].lo <= a < s[i].hi {
        if i > 0 { assert s[1..][i - 1] == s[i]; }
      }
      if i :| 0 <= i < |s[1..]| && s[1..][i].lo <= a < s[1..][i].hi { assert s[i + 1] == s[1..][i]; }
    }
  }

  /** Neighbours may touch but do not overlap. */
  predicate Apart(s: seq<Interval>) {
    forall i :: 0 <= i < |s| - 1 ==> s[i].hi <= s[i + 1].lo
  }

  lemma {:induction false} ApartTail(s: seq<Interval>, a: int)
    requires Apart(s) && NonEmpty(s) && s != [] && a in AllAddresses(s[1..])
    ensures s[0].hi <= a
    decreases |s|
  {
    var t := s[1..];
    if t[0].lo <= a < t[0].hi {
      assert s[0].hi <= s[0 + 1].lo;
    } else {
      assert Apart(t) by {
        forall i | 0 <= i < |t| - 1 ensures t[i].hi <= t[i + 1].lo { assert s[i + 1].hi <= s[i + 1 + 1].lo; }
      }
      ApartTail(t, a);
      assert s[0].hi <= s[0 + 1].lo;
    }
  }

  /** The size of a list without overlaps is the number of addresses it covers. */
  lemma {:induction false} TotalIsCount(s: seq<Interval>)
    requires Apart(s) && NonEmpty(s)
    ensures Total(s) == |AllAddresses(s)|
    decreases |s|
  {
    if s != [] {
      var t := s[1..];
      forall i | 0 <= i < |t| - 1 ensures t[i].hi <= t[i + 1].lo { assert s[i + 1].hi <= s[i + 1 + 1].lo; }
      TotalIsCount(t);
      AddressCount(s[0].lo, s[0].hi);
      forall a | a in AllAddresses(t) ensures a !in Addresses(s[0].lo, s[0].hi) { ApartTail(s, a); }
      assert Addresses(s[0].lo, s[0].hi) !! AllAddresses(t);
    }
  }

  lemma {:induction false} TotalOfInsert(x: Interval, s: seq<Interval>)
    requires Sorted(s)
    ensures Total(Insert(x, s)) == x.hi - x.lo + Total(s)
    decreases |s|
  {
    if s != [] && !Le(x, s[0]) {
      TotalOfInsert(x, s[1..]);
      assert ([s[0]] + Insert(x, s[1..]))[1..] == Insert(x, s[1..]);
    } else {
      assert ([x] + s)[1..] == s;
    }
  }

  lemma {:induction false} TotalOfSort(s: seq<Interval>)
    ensures Total(Sort(s)) == Total(s)
    decreases |s|
  {
    if s != [] {
      TotalOfSort(s[1..]);
      TotalOfInsert(s[0], Sort(s[1..]));
    }
  }

  // ----- Overlaps -----

  /** No address lies in two of the intervals. */
  ghost predicate Disjoint(s: seq<Interval>) {
    forall i, j, a :: 0 <= i < j < |s| ==> !(Has(s[i], a) && Has(s[j], a))
  }

  ghost predicate Has(x: Interval, a: int) {
    x.lo <= a < x.hi
  }

  /** In how many of the intervals the address lies. */
  ghost function Hits(s: seq<Interval>, a: int): nat {
    if s == [] then 0 else (if Has(s[0], a) then 1 else 0) + Hits(s[1..], a)
  }

  lemma {:induction false} HitsOfInsert(x: Interval, s: seq<Interval>, a: int)
    requires Sorted(s)
    ensures Hits(Insert(x, s), a) == (if Has(x, a) then 1 else 0) + Hits(s, a)
    decreases |s|
  {
    if s != [] && !Le(x, s[0]) {
      HitsOfInsert(x, s[1..], a);
      assert ([s[0]] + Insert(x, s[1..]))[1..] == Insert(x, s[1..]);
    } else {
      assert ([x] + s)[1..] == s;
    }
  }

  lemma {:induction false} HitsOfSort(s: seq<Interval>, a: int)
    ensures Hits(Sort(s), a) == Hits(s, a)
    decreases |s|
  {
    if s != [] {
      HitsOfSort(s[1..], a);
      HitsOfInsert(s[0], Sort(s[1..]), a);
    }
  }

  lemma {:induction false} HitOnce(s: seq<Interval>, a: int, j: int)
    requires 0 <= j < |s| && Has(s[j], a)
    ensures Hits(s, a) >= 1
    decreases |s|
  {
    if j > 0 { HitOnce(s[1..], a, j - 1); }
  }

  lemma {:induction false} HitTwice(s: seq<Interval>, a: int, i: int, j: int)
    requires 0 <= i < j < |s| && Has(s[i], a) && Has(s[j], a)
    ensures Hits(s, a) >= 2
    decreases |s|
  {
    if i > 0 { HitTwice(s[1..], a, i - 1, j - 1); } else { HitOnce(s[1..], a, j - 1); }
  }

  lemma {:induction false} SomeHit(s: seq<Interval>, a: int) returns (i: int)
    requires Hits(s, a) >= 1
    ensures 0 <= i < |s| && Has(s[i], a)
    decreases |s|
  {
    if Has(s[0], a) {
      i := 0;
    } else {
      var k := SomeHit(s[1..], a);
      i := k + 1;
    }
  }

  lemma {:induction false} TwoHits(s: seq<Interval>, a: int) returns (i: int, j: int)
    requires Hits(s, a) >= 2
    ensures 0 <= i < j < |s| && Has(s[i], a) && Has(s[j], a)
    decreases |s|
  {
    if Has(s[0], a) {
      var k := SomeHit(s[1..], a);
      i, j := 0, k + 1;
    } else {
      var k, m := TwoHits(s[1..], a);
      i, j := k + 1, m + 1;
    }
  }

  /** Whether intervals overlap does not depend on their order. */
  lemma DisjointOfSort(s: seq<Interval>)
    ensures Disjoint(Sort(s)) <==> Disjoint(s)
  {
    var t := Sort(s);
    if !Disjoint(s) {
      var i, j, a :| 0 <= i < j < |s| && Has(s[i], a) && Has(s[j], a);
      HitTwice(s, a, i, j);
      HitsOfSort(s, a);
      var k, m := TwoHits(t, a);
    }
    if !Disjoint(t) {
      var i, j, a :| 0 <= i < j < |t| && Has(t[i], a) && Has(t[j], a);
      HitTwice(t, a, i, j);
      HitsOfSort(s, a);
      var k, m := TwoHits(s, a);
    }
  }

  lemma {:induction false} ApartChain(s: seq<Interval>, i: int, j: int)
    requires Apart(s) && NonEmpty(s) && 0 <= i < j < |s|
    ensures s[i].hi <= s[j].lo
    decreases j
  {
    assert s[j - 1].hi <= s[j - 1 + 1].lo;
    if i < j - 1 { ApartChain(s, i, j - 1); }
  }

  lemma ApartDisjoint(t: seq<Interval>)
    requires NonEmpty(t) && Apart(t)
    ensures Disjoint(t)
  {
    forall i, j, a | 0 <= i < j < |t| ensures !(Has(t[i], a) && Has(t[j], a)) { ApartChain(t, i, j); }
  }

  lemma OverlapFound(t: seq<Interval>)
    requires NonEmpty(t) && Sorted(t) && !Apart(t)
    ensures !Disjoint(t)
  {
    var i :| 0 <= i < |t| - 1 && t[i].hi > t[i + 1].lo;
    var j, a := i + 1, t[i + 1].lo;
    assert Le(t[i], t[j]);
    assert Has(t[i], a) && Has(t[j], a);
  }

  /** Comparing neighbours in sorted order finds every overlap, and nothing else. */
  lemma ApartExactly(s: seq<Interval>)
    requires NonEmpty(s)
    ensures Apart(Sort(s)) <==> Disjoint(s)
  {
    SameElements(s, Sort(s));
    DisjointOfSort(s);
    if Apart(Sort(s)) { ApartDisjoint(Sort(s)); } else { OverlapFound(Sort(s)); }
  }

  // ----- The evidence check -----

  const PAGE_2M: int := 2 * 1024 * 1024

  datatype Zone = Zone(id: int, start: int, end: int, frames: int)

  datatype Range = Range(id: int, start: int, end: int)

  function ZoneBounds(zones: seq<Zone>): (r: seq<Interval>)
    ensures |r| == |zones| && forall i :: 0 <= i < |zones| ==> r[i] == Interval(zones[i].start, zones[i].end)
  {
    seq(|zones|, i requires 0 <= i < |zones| => Interval(zones[i].start, zones[i].end))
  }

  function RangeBounds(ranges: seq<Range>): (r: seq<Interval>)
    ensures |r| == |ranges| && forall i :: 0 <= i < |ranges| ==> r[i] == Interval(ranges[i].start, ranges[i].end)
  {
    seq(|ranges|, i requires 0 <= i < |ranges| => Interval(ranges[i].start, ranges[i].end))
  }

  function FrameSum(zones: seq<Zone>): int {
    if zones == [] then 0 else zones[0].frames + FrameSum(zones[1..])
  }

  /** The ids, in some order, are 0 to n - 1. */
  predicate IdsOk(ids: seq<int>) {
    multiset(ids) == multiset(seq(|ids|, i => i))
  }

  function ZoneIds(zones: seq<Zone>): (r: seq<int>)
    ensures |r| == |zones| && forall i :: 0 <= i < |zones| ==> r[i] == zones[i].id
  {
    seq(|zones|, i requires 0 <= i < |zones| => zones[i].id)
  }

  function RangeIds(ranges: seq<Range>): (r: seq<int>)
    ensures |r| == |ranges| && forall i :: 0 <= i < |ranges| ==> r[i] == ranges[i].id
  {
    seq(|ranges|, i requires 0 <= i < |ranges| => ranges[i].id)
  }

  predicate ZonesOk(zones: seq<Zone>) {
    forall i :: 0 <= i < |zones| ==>
                  && zones[i].start < zones[i].end && zones[i].start % PAGE_2M == 0 && zones[i].end % PAGE_2M == 0
                  && zones[i].frames == (zones[i].end - zones[i].start) / PAGE_2M
  }

  predicate RangesOk(ranges: seq<Range>) {
    forall i :: 0 <= i < |ranges| ==>
                  && ranges[i].start < ranges[i].end
                  && ranges[i].start % PAGE_2M == 0 && ranges[i].end % PAGE_2M == 0
  }

  /** Each of 0 to n - 1 is the id of exactly one of the n records. */
  ghost predicate EachOnce(ids: seq<int>) {
    forall k :: 0 <= k < |ids| ==> multiset(ids)[k] == 1
  }

  lemma {:induction false} CountingUp(n: nat, k: int)
    ensures multiset(seq(n, i => i))[k] == if 0 <= k < n then 1 else 0
  {
    if n > 0 {
      CountingUp(n - 1, k);
      assert seq(n, i => i) == seq(n - 1, i => i) + [n - 1];
    }
  }

  lemma IdsExactly(ids: seq<int>)
    ensures IdsOk(ids) <==> EachOnce(ids)
  {
    var all := multiset(seq(|ids|, i => i));
    forall k ensures all[k] == if 0 <= k < |ids| then 1 else 0 { CountingUp(|ids|, k); }
    if EachOnce(ids) {
      assert all <= multiset(ids);
      assert multiset(ids) == all + (multiset(ids) - all);
      assert |multiset(ids) - all| == 0;
    }
  }

  /** A zone is a positive number of 2 MiB frames from an aligned address on. */
  ghost predicate Framed(z: Zone) {
    z.start % 2097152 == 0 && z.end == z.start + z.frames * 2097152 && z.frames >= 1
  }

  ghost predicate AlignedRange(r: Range) {
    r.start % 2097152 == 0 && r.end % 2097152 == 0 && r.start < r.end
  }

  lemma FramedExactly(zones: seq<Zone>, ranges: seq<Range>)
    ensures ZonesOk(zones) <==> forall i :: 0 <= i < |zones| ==> Framed(zones[i])
    ensures RangesOk(ranges) <==> forall i :: 0 <= i < |ranges| ==> AlignedRange(ranges[i])
  {
  }

  /** What the zone, coverage and walk records of an accepted log satisfy: one BSP record; ids that number the
      records; whole 2 MiB frames; no address in two zones or in two ranges; the same addresses in the zones as in
      the ranges; and in a self test one walk of as many frames as the zones have. */
  ghost predicate RecordsOk(zones: seq<Zone>, ranges: seq<Range>, bsps: nat, selftest: bool, walks: seq<Option<int>>) {
    && zones != [] && ranges != [] && bsps == 1 && EachOnce(ZoneIds(zones)) && EachOnce(RangeIds(ranges))
    && (forall i :: 0 <= i < |zones| ==> Framed(zones[i]))
    && (forall i :: 0 <= i < |ranges| ==> AlignedRange(ranges[i]))
    && Disjoint(ZoneBounds(zones)) && Disjoint(RangeBounds(ranges))
    && SameCover(ZoneBounds(zones), RangeBounds(ranges))
    && (if selftest then |walks| == 1 && walks[0] == Some(FrameSum(zones)) else walks == [])
  }

  /** The zone, coverage and walk checks of `_m1_evidence_ok`; `bsps` is the number of BSP records, and
      a walk line that does not parse is None. */
  method CheckRecords(zones: seq<Zone>, ranges: seq<Range>, bsps: nat, selftest: bool, walks: seq<Option<int>>)
    returns (ok: bool)
    ensures ok <==> RecordsOk(zones, ranges, bsps, selftest, walks)
  {
    if zones == [] || ranges == [] || bsps != 1 { return false; }
    IdsExactly(ZoneIds(zones));
    IdsExactly(RangeIds(ranges));
    if !IdsOk(ZoneIds(zones)) || !IdsOk(RangeIds(ranges)) { return false; }
    FramedExactly(zones, ranges);
    if !ZonesOk(zones) || !RangesOk(ranges) { return false; }
    ApartExactly(ZoneBounds(zones));
    ApartExactly(RangeBounds(ranges));
    if !Apart(Sort(ZoneBounds(zones))) || !Apart(Sort(RangeBounds(ranges))) { return false; }
    var same := IntervalsMatch(ZoneBounds(zones), RangeBounds(ranges));
    if !same { return false; }
    ok := CheckWalk(zones, selftest, walks);
  }

  /** The walk line: as many frames as the zones have, in a self test; none otherwise. */
  method CheckWalk(zones: seq<Zone>, selftest: bool, walks: seq<Option<int>>) returns (ok: bool)
    ensures ok <==> if selftest then |walks| == 1 && walks[0] == Some(FrameSum(zones)) else walks == []
  {
    if !selftest { return walks == []; }
    if |walks| != 1 || walks[0].None? { return false; }
    var sum := 0;
    for i := 0 to |zones|
      invariant sum + FrameSum(zones[i..]) == FrameSum(zones)
    {
      sum := sum + zones[i].frames;
      assert zones[i..][1..] == zones[i + 1..];
    }
    return walks[0].value == sum;
  }

  lemma WholeFrames(start: int, end: int)
    requires start % PAGE_2M == 0 && end % PAGE_2M == 0
    ensures (end - start) / PAGE_2M * PAGE_2M == end - start
  {
  }

  lemma {:induction false} FramesFillZones(zones: seq<Zone>)
    requires ZonesOk(zones)
    ensures FrameSum(zones) * PAGE_2M == Total(ZoneBounds(zones))
  {
    if zones != [] {
      FramesFillZones(zones[1..]);
      assert ZoneBounds(zones)[1..] == ZoneBounds(zones[1..]);
      WholeFrames(zones[0].start, zones[0].end);
    }
  }

  /** The size of non-overlapping records is the number of addresses they cover, in whatever order. */
  lemma SizeIsCount(s: seq<Interval>) returns (addresses: set<int>)
    requires NonEmpty(s) && Apart(Sort(s))
    ensures Total(s) == |addresses| && forall a :: a in addresses <==> Covered(s, a)
  {
    SameElements(s, Sort(s));
    TotalIsCount(Sort(s));
    TotalOfSort(s);
    addresses := AllAddresses(Sort(s));
    forall a ensures a in addresses <==> Covered(s, a) { AllAddressesCovered(Sort(s), a); }
  }

  /** Conservation: in every accepted self-test log the walked frames, at 2 MiB each, are exactly
      the size of the coverage ranges, and that is the number of addresses the zones cover. */
  lemma WalkedFramesAreCoverage(zones: seq<Zone>, ranges: seq<Range>, bsps: nat, walks: seq<Option<int>>)
    returns (addresses: set<int>)
    requires RecordsOk(zones, ranges, bsps, true, walks)
    ensures walks[0].value * 2097152 == Total(RangeBounds(ranges)) == |addresses|
    ensures forall a :: a in addresses <==> Covered(ZoneBounds(zones), a)
  {
    FramedExactly(zones, ranges);
    ApartExactly(ZoneBounds(zones));
    ApartExactly(RangeBounds(ranges));
    FramesFillZones(zones);
    addresses := SizeIsCount(ZoneBounds(zones));
    var covered := SizeIsCount(RangeBounds(ranges));
    SameAddresses(ZoneBounds(zones), RangeBounds(ranges), addresses, covered);
  }

  lemma SameAddresses(s: seq<Interval>, t: seq<Interval>, a: set<int>, b: set<int>)
    requires SameCover(s, t)
    requires (forall p :: p in a <==> Covered(s, p)) && (forall p :: p in b <==> Covered(t, p))
    ensures a == b
  {
    forall p ensures p in a <==> p in b {
      assert Covered(s, p) <==> Covered(t, p);
    }
  }
}
