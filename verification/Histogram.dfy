/** The latency histogram: what it records, what its percentiles promise, and merging. */
module Histograms {
  import opened CoreTypes
  import opened Decimal
  import opened Bits
  import opened Buckets

  // ----- counting samples -----

  ghost function Count(s: seq<nat>, p: nat -> bool): nat {
    if s == [] then 0 else Count(s[..|s| - 1], p) + (if p(s[|s| - 1]) then 1 else 0)
  }

  lemma {:induction false} CountConcat(s: seq<nat>, t: seq<nat>, p: nat -> bool)
    ensures Count(s + t, p) == Count(s, p) + Count(t, p)
  {
    if t == [] {
      assert s + t == s;
    } else {
      assert (s + t)[..|s| + |t| - 1] == s + t[..|t| - 1];
      CountConcat(s, t[..|t| - 1], p);
    }
  }

  lemma {:induction false} CountImplies(s: seq<nat>, p: nat -> bool, q: nat -> bool)
    requires forall v :: p(v) ==> q(v)
    ensures Count(s, p) <= Count(s, q)
  {
    if s != [] { CountImplies(s[..|s| - 1], p, q); }
  }

  lemma {:induction false} CountSplit(s: seq<nat>, p: nat -> bool, q: nat -> bool, r: nat -> bool)
    requires forall v :: r(v) <==> p(v) || q(v)
    requires forall v :: !(p(v) && q(v))
    ensures Count(s, r) == Count(s, p) + Count(s, q)
  {
    if s != [] { CountSplit(s[..|s| - 1], p, q, r); }
  }

  lemma {:induction false} CountAll(s: seq<nat>, p: nat -> bool)
    ensures (forall v :: p(v)) ==> Count(s, p) == |s|
    ensures (forall v :: !p(v)) ==> Count(s, p) == 0
  {
    if s != [] { CountAll(s[..|s| - 1], p); }
  }

  // ----- what a histogram holds -----

  /** Samples beyond the range are recorded as its top. */
  function Clamp(l: Layout, v: nat): nat { Min(v, l.highest) }

  ghost function AtSlot(l: Layout, i: nat): nat -> bool
  {
    (v: nat) => IndexFor(l, Clamp(l, v)) == i
  }

  ghost function BeforeSlot(l: Layout, i: nat): nat -> bool
  {
    (v: nat) => IndexFor(l, Clamp(l, v)) < i
  }

  ghost function Beyond(l: Layout): nat -> bool { (v: nat) => v > l.highest }
  ghost function Below(l: Layout, x: nat): nat -> bool { (v: nat) => Clamp(l, v) < x }
  ghost function UpTo(l: Layout, x: nat): nat -> bool { (v: nat) => Clamp(l, v) <= x }

  ghost function Total(l: Layout, s: seq<nat>): nat {
    if s == [] then 0 else Total(l, s[..|s| - 1]) + Clamp(l, s[|s| - 1])
  }

  ghost function Least(l: Layout, s: seq<nat>): nat {
    if s == [] then U64_MODULUS - 1 else Min(Least(l, s[..|s| - 1]), Clamp(l, s[|s| - 1]))
  }

  ghost function Greatest(l: Layout, s: seq<nat>): nat {
    if s == [] then 0 else Max(Greatest(l, s[..|s| - 1]), Clamp(l, s[|s| - 1]))
  }

  lemma {:induction false} TotalsConcat(l: Layout, s: seq<nat>, t: seq<nat>)
    ensures Total(l, s + t) == Total(l, s) + Total(l, t)
    ensures Least(l, s + t) == Min(Least(l, s), Least(l, t))
    ensures Greatest(l, s + t) == Max(Greatest(l, s), Greatest(l, t))
  {
    LeastBound(l, s);
    if t == [] {
      assert s + t == s;
    } else {
      assert (s + t)[..|s| + |t| - 1] == s + t[..|t| - 1];
      TotalsConcat(l, s, t[..|t| - 1]);
    }
  }

  lemma {:induction false} LeastBound(l: Layout, s: seq<nat>)
    ensures Least(l, s) <= U64_MODULUS - 1
  {
    if s != [] { LeastBound(l, s[..|s| - 1]); }
  }

  ghost predicate Counted(l: Layout, s: seq<nat>, counts: seq<nat>)
  {
    |counts| == Slots(l) && forall i :: 0 <= i < |counts| ==> counts[i] == Count(s, AtSlot(l, i))
  }

  ghost predicate Summarises(l: Layout, s: seq<nat>, total: nat, sum: nat, overflow: nat, least: nat, greatest: nat) {
    && total == |s| && sum == Total(l, s) % U64_MODULUS && overflow == Count(s, Beyond(l))
    && least == Least(l, s) && greatest == Greatest(l, s)
  }

  lemma CountedNothing(l: Layout, counts: seq<nat>)
    requires LayoutOk(l) && |counts| == Slots(l) && forall i :: 0 <= i < |counts| ==> counts[i] == 0
    ensures Counted(l, [], counts)
  {
  }

  /** One more sample is one more in its slot and nowhere else. */
  lemma CountedNext(l: Layout, s: seq<nat>, v: nat, counts: seq<nat>)
    requires LayoutOk(l) && Counted(l, s, counts)
    ensures IndexFor(l, Clamp(l, v)) < |counts|
    ensures var k := IndexFor(l, Clamp(l, v)); Counted(l, s + [v], counts[k := counts[k] + 1])
  {
    hide IndexFor;
    IndexIs(l, Clamp(l, v));
    var k := IndexFor(l, Clamp(l, v));
    var next := counts[k := counts[k] + 1];
    forall i | 0 <= i < |next| ensures next[i] == Count(s + [v], AtSlot(l, i)) {
      assert (s + [v])[..|s|] == s;
      assert AtSlot(l, i)(v) <==> i == k;
    }
  }

  lemma CountedConcat(l: Layout, s: seq<nat>, t: seq<nat>, a: seq<nat>, b: seq<nat>, sum: seq<nat>)
    requires LayoutOk(l) && Counted(l, s, a) && Counted(l, t, b) && |sum| == |a|
    requires forall i :: 0 <= i < |sum| ==> sum[i] == a[i] + b[i]
    ensures Counted(l, s + t, sum)
  {
    forall i | 0 <= i < |sum| ensures sum[i] == Count(s + t, AtSlot(l, i)) {
      CountConcat(s, t, AtSlot(l, i));
    }
  }

  lemma SummarisesNext(l: Layout, s: seq<nat>, v: nat)
    ensures Total(l, s + [v]) == Total(l, s) + Clamp(l, v)
    ensures Least(l, s + [v]) == Min(Least(l, s), Clamp(l, v))
    ensures Greatest(l, s + [v]) == Max(Greatest(l, s), Clamp(l, v))
    ensures Count(s + [v], Beyond(l)) == Count(s, Beyond(l)) + (if v > l.highest then 1 else 0)
  {
    assert (s + [v])[..|s|] == s;
  }

  /** The samples in slots before `i`, which a percentile's scan has added up. */
  lemma {:induction false} SlotsSeen(l: Layout, s: seq<nat>, i: nat)
    requires LayoutOk(l)
    ensures Count(s, BeforeSlot(l, i + 1)) == Count(s, BeforeSlot(l, i)) + Count(s, AtSlot(l, i))
  {
    hide IndexFor;
    CountSplit(s, BeforeSlot(l, i), AtSlot(l, i), BeforeSlot(l, i + 1));
  }

  lemma NothingBefore(l: Layout, s: seq<nat>)
    requires LayoutOk(l)
    ensures Count(s, BeforeSlot(l, 0)) == 0
  {
    hide IndexFor;
    CountAll(s, BeforeSlot(l, 0));
  }

  /** No sample lies outside the slots. */
  lemma AllInSlots(l: Layout, s: seq<nat>)
    requires LayoutOk(l)
    ensures Count(s, BeforeSlot(l, Slots(l))) == |s|
  {
    hide IndexFor, Slots;
    forall v: nat ensures BeforeSlot(l, Slots(l))(v) { IndexIs(l, Clamp(l, v)); }
    CountAll(s, BeforeSlot(l, Slots(l)));
  }

  // ----- ranks -----

  /** `x` is the t-th smallest sample, after clamping. */
  ghost predicate IsRank(l: Layout, s: seq<nat>, t: nat, x: nat) {
    Count(s, Below(l, x)) < t <= Count(s, UpTo(l, x))
  }

  lemma {:induction false} RankBelow(l: Layout, s: seq<nat>, t: nat, top: nat) returns (x: nat)
    requires 0 < t <= Count(s, UpTo(l, top))
    ensures IsRank(l, s, t, x) && x <= top
    decreases top
  {
    x := top;
    if top == 0 {
      CountAll(s, Below(l, 0));
    } else if Count(s, Below(l, top)) >= t {
      CountImplies(s, Below(l, top), UpTo(l, top - 1));
      x := RankBelow(l, s, t, top - 1);
    }
  }

  /** Every rank has its sample, and only one. */
  lemma RankExists(l: Layout, s: seq<nat>, t: nat) returns (x: nat)
    requires 0 < t <= |s|
    ensures IsRank(l, s, t, x) && x <= l.highest
    ensures forall y: nat :: IsRank(l, s, t, y) ==> y == x
  {
    CountAll(s, UpTo(l, l.highest));
    x := RankBelow(l, s, t, l.highest);
    forall y: nat | IsRank(l, s, t, y) ensures y == x {
      if y < x { CountImplies(s, UpTo(l, y), Below(l, x)); }
      if x < y { CountImplies(s, UpTo(l, x), Below(l, y)); }
    }
  }

  lemma CountWithout(s: seq<nat>, i: nat, p: nat -> bool)
    requires i < |s|
    ensures Count(s, p) == Count(s[..i] + s[i + 1..], p) + (if p(s[i]) then 1 else 0)
  {
    assert s == s[..i] + ([s[i]] + s[i + 1..]);
    CountConcat(s[..i], [s[i]] + s[i + 1..], p);
    CountConcat([s[i]], s[i + 1..], p);
    CountConcat(s[..i], s[i + 1..], p);
    assert [s[i]][..0] == [];
    assert Count([s[i]], p) == Count([], p) + (if p(s[i]) then 1 else 0);
  }

  /** The order samples came in does not matter. */
  lemma {:induction false} CountPermuted(s: seq<nat>, t: seq<nat>, p: nat -> bool)
    requires multiset(s) == multiset(t)
    ensures Count(s, p) == Count(t, p)
    decreases |s|
  {
    if s == [] {
      assert |multiset(t)| == 0;
    } else {
      var n := |s| - 1;
      assert s == s[..n] + [s[n]];
      assert s[n] in multiset(t);
      var i :| 0 <= i < |t| && t[i] == s[n];
      var rest := t[..i] + t[i + 1..];
      assert t == t[..i] + [t[i]] + t[i + 1..];
      assert multiset(rest) == multiset(t) - multiset{t[i]};
      CountPermuted(s[..n], rest, p);
      CountWithout(t, i, p);
    }
  }

  lemma {:induction false} CountOfFront(s: seq<nat>, k: nat, p: nat -> bool)
    requires k <= |s|
    ensures (forall i :: 0 <= i < k ==> p(s[i])) ==> Count(s, p) >= k
    ensures (forall i :: k <= i < |s| ==> !p(s[i])) ==> Count(s, p) <= k
  {
    if s != [] {
      var n := |s| - 1;
      if k <= n { CountOfFront(s[..n], k, p); } else { CountOfFront(s[..n], n, p); }
    }
  }

  predicate Ascends(s: seq<nat>) { forall i, j :: 0 <= i < j < |s| ==> s[i] <= s[j] }

  /** Put in ascending order, the t-th sample is the one of rank t: what an exact percentile means. */
  lemma RankIsSortedPlace(l: Layout, s: seq<nat>, sorted: seq<nat>, t: nat)
    requires multiset(sorted) == multiset(s) && Ascends(sorted) && 0 < t <= |sorted|
    ensures IsRank(l, s, t, if sorted[t - 1] > l.highest then l.highest else sorted[t - 1])
  {
    var x := Clamp(l, sorted[t - 1]);
    CountPermuted(s, sorted, Below(l, x));
    CountPermuted(s, sorted, UpTo(l, x));
    CountOfFront(sorted, t - 1, Below(l, x));
    CountOfFront(sorted, t, UpTo(l, x));
  }

  /** What the running figures are: the sum, the smallest and the largest of the samples as recorded,
      those beyond the range at its top, and how many of those there were. */
  lemma {:induction false} FiguresAre(l: Layout, s: seq<nat>, i: nat)
    requires i < |s| && l.highest < U64_MODULUS
    ensures var v := if s[i] > l.highest then l.highest else s[i];
            Least(l, s) <= v <= Greatest(l, s)
    ensures exists j, k :: 0 <= j < |s| && 0 <= k < |s|
                           && Least(l, s) == (if s[j] > l.highest then l.highest else s[j])
                           && Greatest(l, s) == (if s[k] > l.highest then l.highest else s[k])
  {
    var n := |s| - 1;
    if n == 0 {
      assert s[..0] == [];
      assert Least(l, s) == (if s[0] > l.highest then l.highest else s[0]);
      assert Greatest(l, s) == (if s[0] > l.highest then l.highest else s[0]);
    } else {
      var front := s[..n];
      FiguresAre(l, front, if i < n then i else 0);
      var j, k :| 0 <= j < |front| && 0 <= k < |front|
          && Least(l, front) == (if front[j] > l.highest then l.highest else front[j])
          && Greatest(l, front) == (if front[k] > l.highest then l.highest else front[k]);
      var last := if s[n] > l.highest then l.highest else s[n];
      var j' := if last < Least(l, front) then n else j;
      var k' := if last > Greatest(l, front) then n else k;
      assert s[j] == front[j] && s[k] == front[k];
      assert Least(l, s) == (if s[j'] > l.highest then l.highest else s[j']);
      assert Greatest(l, s) == (if s[k'] > l.highest then l.highest else s[k']);
    }
  }

  lemma OneMoreSample(l: Layout, s: seq<nat>, v: nat)
    ensures Total(l, s + [v]) == Total(l, s) + (if v > l.highest then l.highest else v)
    ensures Count(s + [v], Beyond(l)) == Count(s, Beyond(l)) + (if v > l.highest then 1 else 0)
    ensures Total(l, []) == 0 && Count([], Beyond(l)) == 0
  {
    assert (s + [v])[..|s|] == s;
  }

  /** What a good report is, in numbers: at three figures the excess is under a thousandth. */
  lemma ReportsAre(figures: nat, x: nat, r: nat, greatest: nat)
    requires GoodReport(figures, x, r, greatest)
    ensures x <= r <= greatest
    ensures figures == 1 ==> (r - x) * 10 <= x
    ensures figures == 2 ==> (r - x) * 100 <= x
    ensures figures == 3 ==> (r - x) * 1_000 <= x
    ensures figures == 4 ==> (r - x) * 10_000 <= x
    ensures figures == 5 ==> (r - x) * 100_000 <= x
  {
    hide GoodReport;
    assert Pow10(1) == 10 && Pow10(2) == 100 && Pow10(3) == 1_000 && Pow10(4) == 10_000 && Pow10(5) == 100_000 by {
      assert Pow10(0) == 1;
    }
    assert (r - x) * Pow10(figures) <= x && x <= r <= greatest by { GoodReportIs(figures, x, r, greatest); }
  }

  lemma GoodReportIs(figures: nat, x: nat, r: nat, greatest: nat)
    requires GoodReport(figures, x, r, greatest)
    ensures (r - x) * Pow10(figures) <= x <= r <= greatest
  {
  }

  /** The first slot by which `t` samples have been seen is the slot of the t-th smallest. */
  lemma RankSlot(l: Layout, s: seq<nat>, t: nat, x: nat, i: nat)
    requires LayoutOk(l) && IsRank(l, s, t, x) && x <= l.highest
    requires Count(s, BeforeSlot(l, i)) < t <= Count(s, BeforeSlot(l, i + 1))
    ensures IndexFor(l, x) == i
  {
    hide IndexFor;
    var j := IndexFor(l, x);
    forall v: nat
      ensures UpTo(l, x)(v) ==> BeforeSlot(l, j + 1)(v)
      ensures BeforeSlot(l, j)(v) ==> Below(l, x)(v)
    {
      if Clamp(l, v) <= x { IndexMonotone(l, Clamp(l, v), x); } else { IndexMonotone(l, x, Clamp(l, v)); }
    }
    CountImplies(s, UpTo(l, x), BeforeSlot(l, j + 1));
    CountImplies(s, BeforeSlot(l, j), Below(l, x));
    if i < j { CountImplies(s, BeforeSlot(l, i + 1), BeforeSlot(l, j)); }
    if j < i { CountImplies(s, BeforeSlot(l, j + 1), BeforeSlot(l, i)); }
  }

  lemma {:induction false} GreatestIsHigh(l: Layout, s: seq<nat>, x: nat)
    ensures Count(s, Below(l, x)) < |s| ==> x <= Greatest(l, s)
    ensures Greatest(l, s) <= l.highest
  {
    if s != [] { GreatestIsHigh(l, s[..|s| - 1], x); }
  }

  lemma RankAtMostGreatest(l: Layout, s: seq<nat>, t: nat, x: nat)
    requires IsRank(l, s, t, x)
    ensures x <= Greatest(l, s) <= l.highest
  {
    CountAll(s, (v: nat) => true);
    CountImplies(s, UpTo(l, x), (v: nat) => true);
    GreatestIsHigh(l, s, x);
  }

  /** A reported percentile: never optimistic, never above the maximum, and tight. */
  ghost predicate GoodReport(figures: nat, x: nat, r: nat, greatest: nat) {
    x <= r <= greatest && (r - x) * Pow10(figures) <= x && (x > 0 ==> (r - x) * Pow10(figures) < x)
  }

  lemma ReportIsGood(l: Layout, figures: nat, s: seq<nat>, t: nat, x: nat, i: nat)
    requires LayoutOk(l) && Pow2(l.magnitude) >= 2 * Pow10(figures) && IsRank(l, s, t, x)
    requires Count(s, BeforeSlot(l, i)) < t <= Count(s, BeforeSlot(l, i + 1))
    ensures HighestEquivalent(l, ValueAtIndex(l, i)) >= 0
    ensures GoodReport(figures, x, Min(HighestEquivalent(l, ValueAtIndex(l, i)), Greatest(l, s)), Greatest(l, s))
  {
    hide IndexFor, HighestEquivalent, LowestEquivalent, ValueAtIndex, Pow2, Pow10, IsRank;
    RankAtMostGreatest(l, s, t, x);
    RankSlot(l, s, t, x, i);
    ReportedRange(l, x);
    ValueAtIndexInverts(l, x);
    Precise(l, x, figures);
    SmallerGap(Min(HighestEquivalent(l, x), Greatest(l, s)) - x, HighestEquivalent(l, x) - x, Pow10(figures));
    if x == 0 { PowPositive(l.magnitude); }
  }

  lemma SmallerGap(a: nat, b: nat, p: nat)
    requires a <= b
    ensures a * p <= b * p
  {
  }

  lemma PowPositive(k: nat)
    ensures Pow2(k) > 0
  {
  }

  // ----- the samples a stall swallowed -----

  /** The later samples that would have been waiting: the value less one interval, two, and so on. */
  function Missing(v: nat, interval: nat): seq<nat>
    requires interval > 0
    decreases v
  {
    if v < 2 * interval then [] else [v - interval] + Missing(v - interval, interval)
  }

  /** There are as many as whole intervals fit in the value, less the one recorded. */
  lemma {:induction false} MissingIs(v: nat, interval: nat)
    requires interval > 0
    ensures |Missing(v, interval)| == Max(v / interval - 1, 0)
    ensures var missing := Missing(v, interval);
            forall i :: 0 <= i < |missing| ==> missing[i] == v - (i + 1) * interval >= interval
    decreases v
  {
    if v >= 2 * interval {
      MissingIs(v - interval, interval);
      OneInterval(v, interval);
      forall i | 0 <= i < |Missing(v, interval)| ensures Missing(v, interval)[i] == v - (i + 1) * interval >= interval {
        if i > 0 { assert (i + 1) * interval == i * interval + interval; }
      }
    } else {
      FewIntervals(v, interval);
    }
  }

  lemma MissingStep(missing: nat, interval: nat)
    requires 0 < interval <= missing
    ensures Missing(missing + interval, interval) == [missing] + Missing(missing, interval)
  {
  }

  lemma MissingStops(v: nat, interval: nat)
    requires 0 < interval && v < 2 * interval
    ensures Missing(v, interval) == []
  {
  }

  lemma OneInterval(v: nat, interval: nat)
    requires 0 < interval <= v
    ensures v / interval == (v - interval) / interval + 1
  {
    var u := v - interval;
    assert u == (u / interval) * interval + u % interval;
    assert (u / interval + 1) * interval == (u / interval) * interval + interval;
    DivModUnique(v, interval, u / interval + 1, u % interval);
  }

  lemma FewIntervals(v: nat, interval: nat)
    requires v < 2 * interval
    ensures v / interval <= 1
  {
    if v < interval { DivModUnique(v, interval, 0, v); } else { DivModUnique(v, interval, 1, v - interval); }
  }

  class Histogram {
    const layout: Layout
    ghost const figures: nat
    const counts: array<nat>
    var total: nat
    var sum: nat
    var overflow: nat
    var least: nat
    var greatest: nat
    ghost var samples: seq<nat>

    ghost predicate Valid()
      reads this, counts
    {
      && LayoutOk(layout) && Pow2(layout.magnitude) >= 2 * Pow10(figures)
      && Counted(layout, samples, counts[..])
      && Summarises(layout, samples, total, sum, overflow, least, greatest)
    }

    constructor (highestTrackable: nat, significantFigures: int)
      ensures Valid() && samples == [] && fresh(counts)
      ensures figures == Min(Max(significantFigures, 1), 5)
      ensures layout.highest == Min(Max(highestTrackable, 2), 0x4000_0000_0000_0000)
    {
      hide Counted, Slots, Pow10;
      var figures' := Min(Max(significantFigures, 1), 5);
      var highest := Min(Max(highestTrackable, 2), 0x4000_0000_0000_0000);
      var magnitude := SubBucketBits(figures');
      var buckets := BucketsFor(magnitude, highest);
      layout := Layout(magnitude, buckets, highest);
      figures := figures';
      ghost var l := Layout(magnitude, buckets, highest);
      counts := new nat[Shl(buckets + 1, magnitude - 1)](_ => 0);
      total, sum, overflow := 0, 0, 0;
      least, greatest := U64_MODULUS - 1, 0;
      samples := [];
      new;
      SlotsOf(layout);
      CountedNothing(layout, counts[..]);
    }

    /** Record one observation. */
    method Record(value: nat)
      requires Valid()
      modifies this, counts
      ensures Valid() && samples == old(samples) + [value]
    {
      hide IndexFor, Pow2, Slots, LayoutOk, Count, Counted, Total, Least, Greatest;
      CountedNext(layout, samples, value, counts[..]);
      SummarisesNext(layout, samples, value);
      ExtremesBound(layout, samples, value);
      var v := value;
      if v > layout.highest {
        overflow := overflow + 1;
        v := layout.highest;
      }
      var k := IndexFor(layout, v);
      ghost var before := counts[..];
      counts[k] := counts[k] + 1;
      assert counts[..] == before[k := before[k] + 1];
      total := total + 1;
      SumWraps(Total(layout, samples), v);
      sum := (sum + v) % U64_MODULUS;
      if v > greatest || total == 1 {
        greatest := v;
      }
      if v < least || total == 1 {
        least := v;
      }
      samples := samples + [value];
    }

    /** Record an observation, and those its stall swallowed. */
    method RecordCorrected(value: nat, interval: nat)
      requires Valid()
      modifies this, counts
      ensures Valid()
      ensures samples == old(samples) + [value] + (if interval == 0 then [] else Missing(value, interval))
    {
      hide Counted, Summarises, Pow2, LayoutOk, Missing;
      Record(value);
      if interval == 0 || value <= interval {
        if interval > 0 { MissingStops(value, interval); }
        return;
      }
      ghost var start := samples;
      var missing: nat := value - interval;
      while missing >= interval
        invariant Valid()
        invariant samples + Missing(missing + interval, interval) == start + Missing(value, interval)
        decreases missing
      {
        MissingStep(missing, interval);
        assert samples + ([missing] + Missing(missing, interval)) == samples + [missing] + Missing(missing, interval);
        Record(missing);
        missing := missing - interval;
      }
      MissingStops(missing + interval, interval);
    }

    /** The sample at an integer rank (taken as at least 1 and at most the count), reported as its
        slot's upper bound but never above the largest sample. */
    method Percentile(rank: nat) returns (r: nat)
      requires Valid()
      ensures total == 0 ==> r == 0
      ensures total > 0 ==>
                var t := Min(Max(rank, 1), total);
                forall x: nat :: IsRank(layout, samples, t, x) ==> GoodReport(figures, x, r, greatest)
    {
      hide IndexFor, Pow2, Pow10, Slots, LayoutOk, Count, IsRank, GoodReport, HighestEquivalent, ValueAtIndex;
      if total == 0 {
        return 0;
      }
      var target := Min(Max(rank, 1), total);
      NothingBefore(layout, samples);
      AllInSlots(layout, samples);
      var seen := 0;
      for i := 0 to counts.Length
        invariant seen == Count(samples, BeforeSlot(layout, i)) < target
      {
        SlotsSeen(layout, samples, i);
        seen := seen + counts[i];
        if seen >= target {
          ghost var some := RankExists(layout, samples, target);
          ReportIsGood(layout, figures, samples, target, some, i);
          return Min(HighestEquivalent(layout, ValueAtIndex(layout, i)), greatest);
        }
      }
      assert false;
      r := greatest;
    }

    /** Every sample recorded is in some slot. */
    method BucketTotal() returns (inSlots: nat)
      requires Valid()
      ensures inSlots == total
    {
      hide IndexFor, Pow2, Slots, LayoutOk, Count;
      NothingBefore(layout, samples);
      AllInSlots(layout, samples);
      inSlots := 0;
      for i := 0 to counts.Length
        invariant inSlots == Count(samples, BeforeSlot(layout, i))
      {
        SlotsSeen(layout, samples, i);
        inSlots := inSlots + counts[i];
      }
    }

    /** Fold another histogram in: as if its samples had been recorded here.  Refused, changing
        nothing, when the layouts differ. */
    method Merge(other: Histogram) returns (ok: bool)
      requires Valid() && other.Valid()
      modifies this, counts
      ensures Valid() && ok == (other.layout == layout)
      ensures samples == if ok then old(samples) + old(other.samples) else old(samples)
    {
      hide IndexFor, Pow2, LayoutOk, Count, Counted, Slots, Total, Least, Greatest;
      if other.layout != layout {
        return false;
      }
      ghost var mine, theirs, s, t := counts[..], other.counts[..], samples, other.samples;
      CountedLength(layout, s, mine);
      CountedLength(layout, t, theirs);
      CountConcat(s, t, Beyond(layout));
      TotalsConcat(layout, s, t);
      EmptyExtremes(layout, s);
      EmptyExtremes(layout, t);
      SumWraps2(Total(layout, s), Total(layout, t));
      for i := 0 to counts.Length
        invariant forall j :: 0 <= j < i ==> counts[j] == mine[j] + theirs[j]
        invariant forall j :: i <= j < counts.Length ==> counts[j] == mine[j] && other.counts[j] == theirs[j]
        invariant forall j :: 0 <= j < i && other.counts != counts ==> other.counts[j] == theirs[j]
        invariant Summarises(layout, s, total, sum, overflow, least, greatest) && samples == s
        invariant Summarises(layout, t, other.total, other.sum, other.overflow, other.least, other.greatest)
            && other.samples == t
      {
        counts[i] := counts[i] + other.counts[i];
      }
      CountedConcat(layout, s, t, mine, theirs, counts[..]);
      if other.total > 0 {
        least := if total == 0 then other.least else Min(least, other.least);
        greatest := Max(greatest, other.greatest);
      }
      var otherSum, otherOverflow := other.sum, other.overflow;
      total := total + other.total;
      sum := (sum + otherSum) % U64_MODULUS;
      overflow := overflow + otherOverflow;
      samples := s + t;
      ok := true;
    }

    method Reset()
      requires Valid()
      modifies this, counts
      ensures Valid() && samples == []
    {
      hide IndexFor, Pow2, LayoutOk, Slots, Count;
      for i := 0 to counts.Length
        invariant forall j :: 0 <= j < i ==> counts[j] == 0
      {
        counts[i] := 0;
      }
      CountedNothing(layout, counts[..]);
      SummarisesNothing(layout);
      total, sum, overflow := 0, 0, 0;
      least, greatest := U64_MODULUS - 1, 0;
      samples := [];
    }
  }

  lemma SummarisesNothing(l: Layout)
    ensures Summarises(l, [], 0, 0, 0, U64_MODULUS - 1, 0)
  {
  }

  lemma SlotsOf(l: Layout)
    requires LayoutOk(l)
    ensures Slots(l) == Shl(l.buckets + 1, l.magnitude - 1)
  {
  }

  lemma CountedLength(l: Layout, s: seq<nat>, counts: seq<nat>)
    requires LayoutOk(l) && Counted(l, s, counts)
    ensures |counts| == Slots(l)
  {
  }

  lemma SumWraps(a: nat, v: nat)
    ensures (a % U64_MODULUS + v) % U64_MODULUS == (a + v) % U64_MODULUS
  {
  }

  lemma SumWraps2(a: nat, b: nat)
    ensures (a % U64_MODULUS + b % U64_MODULUS) % U64_MODULUS == (a + b) % U64_MODULUS
  {
  }

  lemma ExtremesBound(l: Layout, s: seq<nat>, v: nat)
    requires LayoutOk(l)
    ensures s == [] ==> Min(Least(l, s), Clamp(l, v)) == Clamp(l, v) && Max(Greatest(l, s), Clamp(l, v)) == Clamp(l, v)
  {
    HighestFits(l);
  }

  lemma EmptyExtremes(l: Layout, s: seq<nat>)
    ensures s == [] ==> Greatest(l, s) == 0 && Least(l, s) == U64_MODULUS - 1
    ensures Least(l, s) <= U64_MODULUS - 1
  {
    LeastBound(l, s);
  }

  /** The smallest power of two with unit resolution for twice 10^figures. */
  method SubBucketBits(figures: nat) returns (magnitude: nat)
    requires 1 <= figures <= 5
    ensures 0 < magnitude <= 18 && Pow2(magnitude) >= 2 * Pow10(figures)
  {
    hide Pow2, Pow10;
    var largest := 2;
    PowBase();
    for i := 0 to figures
      invariant largest == 2 * Pow10(i)
    {
      PowNext(i);
      largest := largest * 10;
    }
    LargestSingleUnit(figures);
    magnitude := 1;
    while Pow2(magnitude) < largest
      invariant 1 <= magnitude <= 18
      decreases 18 - magnitude
    {
      if magnitude == 18 { assert false; }
      magnitude := magnitude + 1;
    }
  }

  lemma PowBase()
    ensures Pow10(0) == 1
  {
  }

  lemma PowNext(i: nat)
    ensures Pow10(i + 1) == 10 * Pow10(i)
  {
  }

  lemma LargestSingleUnit(figures: nat)
    requires figures <= 5
    ensures 2 * Pow10(figures) <= Pow2(18)
  {
    SmallPowers();
    assert Pow10(2) == 100;
    assert Pow10(4) == 10000;
    assert Pow10(5) == 100000;
    assert Pow10(1) == 10 && Pow10(3) == 1000;
  }

  /** Enough power-of-two buckets to put the top of the range inside the last. */
  method BucketsFor(magnitude: positive, highest: nat) returns (buckets: nat)
    requires magnitude <= 18 && 2 <= highest <= 0x4000_0000_0000_0000
    ensures LayoutOk(Layout(magnitude, buckets, highest))
  {
    hide Pow2;
    TopPower();
    buckets := 1;
    var covered := Pow2(magnitude);
    while covered <= highest
      invariant 1 <= buckets && covered == Pow2(magnitude + buckets - 1)
      invariant magnitude + buckets <= 64
      decreases 64 - buckets
    {
      NextPower(magnitude + buckets - 1);
      covered := covered * 2;
      buckets := buckets + 1;
    }
  }

  lemma NextPower(k: nat)
    ensures Pow2(k + 1) == 2 * Pow2(k)
  {
  }

  lemma TopPower()
    ensures Pow2(63) == 0x8000_0000_0000_0000
  {
    SmallPowers();
    ShlPow(24, 24);
    ShlPow(48, 15);
    assert Pow2(15) == 0x8000;
    PowProduct(24, 24);
    PowProduct(48, 15);
  }

  lemma PowProduct(a: nat, b: nat)
    ensures Pow2(a + b) == Pow2(a) * Pow2(b)
  {
    ShlPow(a, b);
    ShlIsProduct(Pow2(a), b);
  }

  lemma HighestFits(l: Layout)
    requires LayoutOk(l)
    ensures l.highest >= 2
  {
  }
}
