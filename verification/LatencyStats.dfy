/** The latency window: a ring of the newest samples, summarised lazily. Averages and percentiles over the reals. */
module LatencyStats {
  import opened Bytes

  datatype LatencySummary = LatencySummary(
    count: nat, last: real, min: real, avg: real, p50: real, p95: real, p99: real, max: real)

  // ----- the summary of a history of samples

  /** The newest samples, at most `max` of them, oldest first. */
  function Window(history: seq<real>, max: nat): seq<real> {
    if |history| <= max then history else history[|history| - max..]
  }

  function Insert(x: real, s: seq<real>): seq<real> {
    if s == [] || x <= s[0] then [x] + s else [s[0]] + Insert(x, s[1..])
  }

  /** `std::sort` as a function. */
  function Sorted(s: seq<real>): (r: seq<real>)
    ensures |r| == |s|
  {
    if s == [] then [] else var r := Sorted(s[1..]); InsertLength(s[0], r); Insert(s[0], r)
  }

  lemma {:induction false} InsertLength(x: real, s: seq<real>)
    ensures |Insert(x, s)| == |s| + 1
  {
    if s != [] && x > s[0] {
      InsertLength(x, s[1..]);
    }
  }

  ghost predicate Ascending(s: seq<real>) {
    forall i, j :: 0 <= i <= j < |s| ==> s[i] <= s[j]
  }

  lemma {:induction false} InsertMembers(x: real, s: seq<real>)
    ensures multiset(Insert(x, s)) == multiset(s) + multiset{x}
  {
    if s != [] && x > s[0] {
      InsertMembers(x, s[1..]);
      assert s == [s[0]] + s[1..];
    }
  }

  lemma Prepended(x: real, s: seq<real>)
    requires Ascending(s) && forall y :: y in s ==> x <= y
    ensures Ascending([x] + s)
  {
    var r := [x] + s;
    forall i, j | 0 <= i <= j < |r|
      ensures r[i] <= r[j]
    {
      if j > 0 {
        assert r[j] == s[j - 1] && s[j - 1] in s;
      }
    }
  }

  lemma HeadIsLeast(s: seq<real>)
    requires Ascending(s) && s != []
    ensures forall y :: y in s ==> s[0] <= y
  {
    forall y | y in s
      ensures s[0] <= y
    {
      var i :| 0 <= i < |s| && s[i] == y;
    }
  }

  lemma {:induction false} InsertKeeps(x: real, s: seq<real>)
    requires Ascending(s)
    ensures Ascending(Insert(x, s))
  {
    if s == [] {
    } else if x <= s[0] {
      HeadIsLeast(s);
      Prepended(x, s);
    } else {
      var r := Insert(x, s[1..]);
      InsertKeeps(x, s[1..]);
      InsertMembers(x, s[1..]);
      HeadIsLeast(s);
      forall y | y in r
        ensures s[0] <= y
      {
        assert y in multiset(r);
        assert y == x || y in s[1..];
      }
      Prepended(s[0], r);
    }
  }

  /** Sorting orders the samples and keeps each as often as it occurs. */
  lemma {:induction false} SortedIsSorted(s: seq<real>)
    ensures Ascending(Sorted(s)) && multiset(Sorted(s)) == multiset(s)
  {
    if s != [] {
      SortedIsSorted(s[1..]);
      InsertKeeps(s[0], Sorted(s[1..]));
      InsertMembers(s[0], Sorted(s[1..]));
      assert s == [s[0]] + s[1..];
    }
  }

  function Sum(s: seq<real>): real {
    if s == [] then 0.0 else Sum(s[..|s| - 1]) + s[|s| - 1]
  }

  function Portion(p: real, x: real): (r: real)
    requires 0.0 <= p <= 1.0 && x >= 0.0
    ensures 0.0 <= r <= x
  {
    Scaled(p, x);
    p * x
  }

  /** `percentile` of the way from the first of `n` samples to the last. */
  function Rank(percentile: real, n: nat): (r: real)
    requires 0.0 <= percentile <= 1.0 && n > 0
    ensures 0.0 <= r <= (n - 1) as real
  {
    Portion(percentile, (n - 1) as real)
  }

  lemma Scaled(p: real, x: real)
    requires 0.0 <= p <= 1.0 && x >= 0.0
    ensures 0.0 <= p * x <= x
  {
    assert (1.0 - p) * x >= 0.0;
    assert (1.0 - p) * x == x - p * x;
  }

  /** Linear interpolation between the two samples around a rank. */
  function ValueAt(values: seq<real>, index: real): real
    requires 0.0 <= index <= (|values| - 1) as real
  {
    var lower := index.Floor;
    Between(values[lower], values[Upper(values, lower)], index - lower as real)
  }

  function Between(a: real, b: real, fraction: real): real {
    a + (b - a) * fraction
  }

  function Upper(values: seq<real>, lower: nat): (u: nat)
    requires lower < |values|
    ensures lower <= u < |values|
  {
    if lower + 1 <= |values| - 1 then lower + 1 else |values| - 1
  }

  function PercentileFromSorted(values: seq<real>, percentile: real): real
    requires 0.0 <= percentile <= 1.0
  {
    if values == [] then 0.0 else ValueAt(values, Rank(percentile, |values|))
  }

  function Summary(history: seq<real>, max: nat): LatencySummary {
    var last := if history == [] then 0.0 else history[|history| - 1];
    var window := Window(history, max);
    if window == [] then LatencySummary(0, last, 0.0, 0.0, 0.0, 0.0, 0.0, 0.0)
    else
      var sorted := Sorted(window);
      LatencySummary(|window|, last, sorted[0], Sum(window) / |window| as real,
                     PercentileFromSorted(sorted, 0.50), PercentileFromSorted(sorted, 0.95),
                     PercentileFromSorted(sorted, 0.99),
                     sorted[|sorted| - 1])
  }

  // ----- what the summary means

  lemma Commutes(a: real, b: real)
    ensures a * b == b * a
  {
  }

  lemma Interpolated(a: real, b: real, t: real)
    requires a <= b && 0.0 <= t <= 1.0
    ensures a <= Between(a, b, t) <= b
  {
    var d := b - a;
    Scaled(t, d);
    Commutes(t, d);
    assert Between(a, b, t) == a + d * t;
  }

  lemma Scales(d: real, t: real, u: real)
    requires d >= 0.0 && t <= u
    ensures d * t <= d * u
  {
    assert d * (u - t) >= 0.0;
    assert d * (u - t) == d * u - d * t;
  }

  lemma InterpolatedFurther(a: real, b: real, t: real, u: real)
    requires a <= b && t <= u
    ensures Between(a, b, t) <= Between(a, b, u)
  {
    var d := b - a;
    Scales(d, t, u);
    assert Between(a, b, t) == a + d * t && Between(a, b, u) == a + d * u;
  }

  lemma ValueBetween(values: seq<real>, index: real)
    requires Ascending(values) && 0.0 <= index <= (|values| - 1) as real
    ensures var lower := index.Floor; values[lower] <= ValueAt(values, index) <= values[Upper(values, lower)]
  {
    hide Between;
    var lower := index.Floor;
    Interpolated(values[lower], values[Upper(values, lower)], index - lower as real);
  }

  lemma ValueMonotone(values: seq<real>, i: real, j: real)
    requires Ascending(values) && 0.0 <= i <= j <= (|values| - 1) as real
    ensures ValueAt(values, i) <= ValueAt(values, j)
  {
    var lower := i.Floor;
    if lower == j.Floor {
      hide Between;
      InterpolatedFurther(values[lower], values[Upper(values, lower)], i - lower as real, j - lower as real);
    } else {
      hide ValueAt;
      ValueBetween(values, i);
      ValueBetween(values, j);
      assert lower + 1 <= j.Floor;
    }
  }

  lemma PortionFurther(p: real, q: real, x: real)
    requires 0.0 <= p <= q <= 1.0 && x >= 0.0
    ensures Portion(p, x) <= Portion(q, x)
  {
    assert (q - p) * x >= 0.0;
    assert (q - p) * x == q * x - p * x;
  }

  lemma RanksOrdered(p: real, q: real, n: nat)
    requires 0.0 <= p <= q <= 1.0 && n > 0
    ensures Rank(p, n) <= Rank(q, n)
  {
    hide Portion;
    PortionFurther(p, q, (n - 1) as real);
  }

  /** Percentiles of an ascending list grow with the percentile and stay between its ends. */
  lemma PercentilesOrdered(values: seq<real>, p: real, q: real)
    requires Ascending(values) && values != [] && 0.0 <= p <= q <= 1.0
    ensures values[0] <= PercentileFromSorted(values, p) <= PercentileFromSorted(values, q) <= values[|values| - 1]
  {
    hide ValueAt, Rank, Upper;
    RanksOrdered(p, q, |values|);
    ValueMonotone(values, Rank(p, |values|), Rank(q, |values|));
    ValueBetween(values, Rank(p, |values|));
    ValueBetween(values, Rank(q, |values|));
  }

  lemma PrefixMembers(s: seq<real>)
    requires s != []
    ensures forall x :: x in s[..|s| - 1] ==> x in s
  {
    forall x | x in s[..|s| - 1]
      ensures x in s
    {
      var i :| 0 <= i < |s| - 1 && s[..|s| - 1][i] == x;
      assert s[i] == x;
    }
  }

  lemma {:induction false} SumBounds(s: seq<real>, lo: real, hi: real)
    requires forall x :: x in s ==> lo <= x <= hi
    ensures lo * |s| as real <= Sum(s) <= hi * |s| as real
  {
    if s != [] {
      var before := s[..|s| - 1];
      PrefixMembers(s);
      forall x | x in before
        ensures lo <= x <= hi
      {
        assert x in s;
      }
      SumBounds(before, lo, hi);
      assert s[|s| - 1] in s;
      var n := (|s| - 1) as real;
      assert |s| as real == n + 1.0;
      Distribute(lo, n);
      Distribute(hi, n);
    }
  }

  lemma Distribute(a: real, n: real)
    ensures a * (n + 1.0) == a * n + a
  {
  }

  lemma DivideBounds(lo: real, hi: real, total: real, n: real)
    requires n > 0.0 && lo * n <= total <= hi * n
    ensures lo <= total / n <= hi
  {
    assert (total - lo * n) / n >= 0.0 && (total - lo * n) / n == total / n - lo;
    assert (hi * n - total) / n >= 0.0 && (hi * n - total) / n == hi - total / n;
  }

  /** For any non-empty window: the minimum and the maximum are samples of the window and bound all of them,
      and average and percentiles lie between them in order. */
  lemma SummaryOrdered(history: seq<real>, max: nat)
    requires history != [] && max > 0
    ensures var s := Summary(history, max); var w := Window(history, max);
      && s.count == |w| == Min(|history|, max) && s.last == w[|w| - 1]
      && s.min in w && s.max in w && (forall x :: x in w ==> s.min <= x <= s.max)
      && s.min <= s.p50 <= s.p95 <= s.p99 <= s.max && s.min <= s.avg <= s.max
  {
    hide Sorted, PercentileFromSorted, Sum;
    var w := Window(history, max);
    var sorted := Sorted(w);
    SortedIsSorted(w);
    SortedBounds(w, sorted);
    PercentilesOrdered(sorted, 0.50, 0.95);
    PercentilesOrdered(sorted, 0.95, 0.99);
    SumBounds(w, sorted[0], sorted[|sorted| - 1]);
    DivideBounds(sorted[0], sorted[|sorted| - 1], Sum(w), |w| as real);
  }

  lemma SortedBounds(w: seq<real>, sorted: seq<real>)
    requires w != [] && Ascending(sorted) && |sorted| == |w| && multiset(sorted) == multiset(w)
    ensures sorted[0] in w && sorted[|sorted| - 1] in w
    ensures forall x :: x in w ==> sorted[0] <= x <= sorted[|sorted| - 1]
  {
    assert sorted[0] in multiset(sorted) && sorted[|sorted| - 1] in multiset(sorted);
    forall x | x in w
      ensures sorted[0] <= x <= sorted[|sorted| - 1]
    {
      assert x in multiset(sorted);
      assert x in sorted;
    }
  }

  lemma SumOne(x: real)
    ensures Sum([x]) == x && Sum([]) == 0.0
  {
    assert [x][..0] == [];
    assert Sum([x]) == Sum([x][..0]) + x;
  }

  lemma {:induction false} SumConcat(a: seq<real>, b: seq<real>)
    ensures Sum(a + b) == Sum(a) + Sum(b)
  {
    if b == [] {
      assert a + b == a;
    } else {
      assert (a + b)[..|a + b| - 1] == a + b[..|b| - 1];
      SumConcat(a, b[..|b| - 1]);
    }
  }

  /** `v` lies at the fraction `p` of the way through the ascending samples, between two of them in proportion. */
  ghost predicate AtFraction(sorted: seq<real>, p: real, v: real) {
    exists k: nat :: Interpolates(sorted, p, k, v)
  }

  ghost predicate Interpolates(sorted: seq<real>, p: real, k: nat, v: real) {
    && k < |sorted|
    && var beyond := p * (|sorted| - 1) as real - k as real;
       && 0.0 <= beyond < 1.0
       && v == if k + 1 < |sorted| then sorted[k] + (sorted[k + 1] - sorted[k]) * beyond else sorted[k]
  }

  lemma PercentileAtFraction(sorted: seq<real>, p: real)
    requires sorted != [] && 0.0 <= p <= 1.0
    ensures AtFraction(sorted, p, PercentileFromSorted(sorted, p))
  {
    hide Portion;
    var n := |sorted|;
    var position := Rank(p, n);
    RankIs(p, n);
    var k := position.Floor;
    if k + 1 >= n {
      NothingBeyond(sorted[k], position - k as real);
    }
    assert Interpolates(sorted, p, k, PercentileFromSorted(sorted, p));
  }

  lemma RankIs(p: real, n: nat)
    requires 0.0 <= p <= 1.0 && n > 0
    ensures Rank(p, n) == p * (n - 1) as real
  {
  }

  lemma NothingBeyond(x: real, fraction: real)
    ensures Between(x, x, fraction) == x
  {
  }

  /** The summary of a window is that of its samples in ascending order: the ends, the sum over the count, and the
      values half, nineteen twentieths and ninety-nine hundredths of the way through. */
  lemma SummaryExactly(history: seq<real>, max: nat) returns (sorted: seq<real>)
    requires history != [] && max > 0
    ensures var s, w := Summary(history, max), history[if |history| > max then |history| - max else 0..];
      && Ascending(sorted) && multiset(sorted) == multiset(w) && |sorted| == |w| > 0
      && s.count == |w| && s.last == history[|history| - 1]
      && s.min == sorted[0] && s.max == sorted[|sorted| - 1] && s.avg * |w| as real == Sum(w)
      && AtFraction(sorted, 0.5, s.p50) && AtFraction(sorted, 0.95, s.p95) && AtFraction(sorted, 0.99, s.p99)
  {
    hide Sorted, PercentileFromSorted, Sum, AtFraction;
    var w := Window(history, max);
    assert history[0..] == history;
    sorted := Sorted(w);
    SortedIsSorted(w);
    PercentileAtFraction(sorted, 0.5);
    PercentileAtFraction(sorted, 0.95);
    PercentileAtFraction(sorted, 0.99);
    DividedBack(Sum(w), |w| as real);
  }

  lemma DividedBack(x: real, n: real)
    requires n > 0.0
    ensures x / n * n == x
  {
  }

  // ----- the ring

  /** The ring's samples in the order they came. */
  ghost function Ordered(ring: seq<real>, next: nat, count: nat): seq<real>
    requires next <= |ring| && count <= |ring|
  {
    if count < |ring| then ring[..count] else ring[next..] + ring[..next]
  }

  /** Writing at `next` drops the first sample of a full ring and appends the new one. */
  lemma RingRotates(ring: seq<real>, next: nat, after: nat, x: real)
    requires next < |ring| && after == if next + 1 == |ring| then 0 else next + 1
    ensures var r := ring[next := x]; r[after..] + r[..after] == (ring[next..] + ring[..next])[1..] + [x]
  {
    var r := ring[next := x];
    var w := ring[next..] + ring[..next];
    assert w[1..] == ring[next + 1..] + ring[..next];
    assert r[..next + 1] == ring[..next] + [x];
    assert r[next + 1..] == ring[next + 1..];
  }

  lemma WindowSlides(history: seq<real>, n: nat, x: real)
    requires n > 0
    ensures Window(history + [x], n) ==
      if |history| < n then Window(history, n) + [x] else Window(history, n)[1..] + [x]
  {
  }

  /** One sample more: the oldest leaves the ring when it is full. */
  lemma RingAdvances(ring: seq<real>, next: nat, count: nat, history: seq<real>, x: real)
    requires next < |ring| && count == Min(|history|, |ring|) && (count < |ring| ==> next == count)
    requires Ordered(ring, next, count) == Window(history, |ring|)
    ensures Ordered(ring[next := x], (next + 1) % |ring|, Min(|history| + 1, |ring|)) == Window(history + [x], |ring|)
  {
    hide Window;
    var n := |ring|;
    Wrap(next + 1, n);
    var r := ring[next := x];
    WindowSlides(history, n, x);
    if count < n {
      assert r[..count + 1] == ring[..count] + [x];
    } else {
      RingRotates(ring, next, (next + 1) % n, x);
    }
  }

  lemma Wrap(a: nat, n: nat)
    requires 0 < a <= n
    ensures a % n == if a == n then 0 else a
  {
  }

  class LatencyStats {
    const maxSamples: nat
    const refreshInterval: nat
    var samples: array<real>
    var nextIndex: nat
    var sampleCount: nat
    var dirty: bool
    var cachedSummaryValid: bool
    var pendingSnapshotSamples: nat
    var cachedSummary: LatencySummary
    var lastMs: real
    /** Every sample since the last reset, and how many of them the cached summary covers. */
    ghost var history: seq<real>
    ghost var covered: nat

    constructor (maxSamples: nat, snapshotRefreshInterval: nat)
      ensures Valid() && fresh(samples) && history == []
      ensures this.maxSamples == maxSamples && refreshInterval == Max(1, snapshotRefreshInterval)
    {
      this.maxSamples, refreshInterval := maxSamples, Max(1, snapshotRefreshInterval);
      samples := new real[maxSamples](_ => 0.0);
      nextIndex, sampleCount, pendingSnapshotSamples := 0, 0, 0;
      dirty, cachedSummaryValid, lastMs := false, false, 0.0;
      cachedSummary := LatencySummary(0, 0.0, 0.0, 0.0, 0.0, 0.0, 0.0, 0.0);
      history, covered := [], 0;
    }

    ghost predicate Valid()
      reads this, samples
    {
      && refreshInterval >= 1 && samples.Length == maxSamples
      && sampleCount == Min(|history|, maxSamples)
      && (maxSamples > 0 ==> nextIndex < maxSamples) && (maxSamples == 0 ==> nextIndex == 0)
      && (sampleCount < maxSamples ==> nextIndex == sampleCount)
      && Ordered(samples[..], nextIndex, sampleCount) == Window(history, maxSamples)
      && lastMs == (if history == [] then 0.0 else history[|history| - 1])
      && (cachedSummaryValid ==>
            && covered <= |history| && pendingSnapshotSamples == |history| - covered
            && (!dirty ==> covered == |history|)
            && cachedSummary == Summary(history[..covered], maxSamples))
    }

    method Record(value: real)
      requires Valid()
      modifies this, samples
      ensures Valid() && samples == old(samples) && history == old(history) + [value]
      ensures covered == old(covered)
      ensures maxSamples > 0 ==> cachedSummaryValid == old(cachedSummaryValid)
    {
      hide Ordered, Window, Summary;
      ghost var before := history;
      lastMs := value;
      history := history + [value];
      if maxSamples == 0 {
        dirty, cachedSummaryValid, pendingSnapshotSamples := true, false, 0;
        EmptyRing(samples[..], before, value);
        return;
      }
      RingAdvances(samples[..], nextIndex, sampleCount, before, value);
      samples[nextIndex] := value;
      assert samples[..] == old(samples[..])[nextIndex := value];
      nextIndex := (nextIndex + 1) % maxSamples;
      if sampleCount < maxSamples {
        sampleCount := sampleCount + 1;
      }
      dirty := true;
      pendingSnapshotSamples := pendingSnapshotSamples + 1;
      assert cachedSummaryValid ==> history[..covered] == before[..covered];
      assert sampleCount < maxSamples ==> nextIndex == sampleCount by {
        if sampleCount < maxSamples { Wrap(sampleCount, maxSamples); }
      }
    }

    /** The summary of the history as it was fewer than `refreshInterval` samples ago. */
    method Snapshot() returns (summary: LatencySummary)
      requires Valid()
      modifies this
      ensures Valid() && samples == old(samples) && history == old(history) && cachedSummaryValid
      ensures covered ==
        if old(cachedSummaryValid) && |history| - old(covered) < refreshInterval then old(covered) else |history|
      ensures |history| - refreshInterval < covered <= |history| && summary == Summary(history[..covered], maxSamples)
    {
      RefreshSummary(false);
      summary := cachedSummary;
    }

    /** What `Format` prints: the summary of the whole history, never a stale one. */
    method Format() returns (summary: LatencySummary)
      requires Valid()
      modifies this
      ensures Valid() && samples == old(samples) && history == old(history)
      ensures summary == Summary(history, maxSamples)
    {
      RefreshSummary(true);
      summary := cachedSummary;
      assert history[..|history|] == history;
    }

    method Reset()
      requires Valid()
      modifies this, samples
      ensures Valid() && samples == old(samples) && history == []
    {
      forall i | 0 <= i < samples.Length { samples[i] := 0.0; }
      nextIndex, sampleCount, pendingSnapshotSamples := 0, 0, 0;
      dirty, cachedSummaryValid, lastMs := false, false, 0.0;
      history, covered := [], 0;
    }

    method RefreshSummary(force: bool)
      requires Valid()
      modifies this
      ensures Valid() && cachedSummaryValid && samples == old(samples) && history == old(history)
      ensures covered == if !force && old(cachedSummaryValid) && |history| - old(covered) < refreshInterval
                         then old(covered) else |history|
    {
      hide Ordered, Window, Summary;
      if !dirty && cachedSummaryValid {
        return;
      }
      if !force && cachedSummaryValid && pendingSnapshotSamples < refreshInterval {
        return;
      }
      cachedSummary := BuildSummary();
      cachedSummaryValid, dirty, pendingSnapshotSamples := true, false, 0;
      covered := |history|;
      assert history[..covered] == history;
    }

    /** Rebuilds the samples in order from the ring, one stretch or two, and summarises them. */
    method BuildSummary() returns (summary: LatencySummary)
      requires Valid()
      ensures summary == Summary(history, maxSamples)
    {
      hide Sorted, PercentileFromSorted, Sum;
      summary := LatencySummary(sampleCount, lastMs, 0.0, 0.0, 0.0, 0.0, 0.0, 0.0);
      if sampleCount == 0 {
        return;
      }
      var orderedSamples;
      if sampleCount < maxSamples {
        orderedSamples := samples[..sampleCount];
      } else {
        orderedSamples := samples[nextIndex..];
        orderedSamples := orderedSamples + samples[..nextIndex];
      }
      var sortedSamples := Sorted(orderedSamples);
      summary := summary.(min := sortedSamples[0], max := sortedSamples[|sortedSamples| - 1]);
      summary := summary.(avg := Sum(orderedSamples) / |orderedSamples| as real);
      summary := summary.(p50 := PercentileFromSorted(sortedSamples, 0.50));
      summary := summary.(p95 := PercentileFromSorted(sortedSamples, 0.95));
      summary := summary.(p99 := PercentileFromSorted(sortedSamples, 0.99));
    }
  }


  lemma EmptyRing(ring: seq<real>, history: seq<real>, x: real)
    requires ring == []
    ensures Ordered(ring, 0, 0) == Window(history + [x], 0)
  {
  }
}
