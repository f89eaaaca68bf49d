/** The adaptive jitter controller: three modes with hysteresis, driven by jitter samples and their 95th percentile. */
module AdaptiveJitter {
  import opened Bytes
  import opened LatencyStats

  datatype Mode = Bypass | LowLatency | Smooth
  datatype Quality = Excellent | Good | Fair | Poor

  const SMOOTH_HOLD_NS: nat := 3_000_000_000
  const WINDOW_SIZE: nat := 100
  const WINDOW_REFRESH: nat := 4
  const MIN_SAMPLES: nat := 10

  datatype JitterConfig = JitterConfig(
    minDelayMs: int, safetyFactor: real, smoothFactor: real, baseMaxWaitMs: int, baseMaxFrames: nat)

  // ----- the mode machine

  /** `high`, `low`: consecutive samples; `exceeded`: the last percentile was over 10 ms; `lowSince`: since when it
      has been under 5 ms, 0 for not at all. */
  datatype Machine = Machine(mode: Mode, high: nat, low: nat, exceeded: bool, lowSince: nat)

  const INITIAL := Machine(Bypass, 0, 0, false, 0)

  function FromBypass(m: Machine, jitter: real): Machine {
    var high := if jitter > 1.0 then m.high + 1 else 0;
    if high >= 10 then Machine(LowLatency, 0, 0, false, m.lowSince) else m.(high := high)
  }

  function FromLowLatency(m: Machine, jitter: real, p95: real): Machine {
    var low := if jitter < 0.5 then m.low + 1 else 0;
    if low >= 20 then m.(mode := Bypass, low := 0, high := 0)
    else if p95 <= 10.0 then m.(low := low, exceeded := false)
    else if !m.exceeded then m.(low := low, exceeded := true)
    else Machine(Smooth, 0, 0, false, 0)
  }

  function FromSmooth(m: Machine, p95: real, now: nat): Machine {
    if p95 >= 5.0 then m.(lowSince := 0)
    else if m.lowSince == 0 then m.(lowSince := now)
    else if (now - m.lowSince) % U64 >= SMOOTH_HOLD_NS then Machine(LowLatency, 0, 0, false, 0)
    else m
  }

  function Evaluate(m: Machine, jitter: real, p95: real, now: nat): Machine {
    match m.mode
    case Bypass => FromBypass(m, jitter)
    case LowLatency => FromLowLatency(m, jitter, p95)
    case Smooth => FromSmooth(m, p95, now)
  }

  // ----- runs

  /** One evaluated sample, with the percentile and the clock at that time. */
  datatype Sample = Sample(jitter: real, p95: real, now: nat)

  function After(ss: seq<Sample>): Machine {
    if ss == [] then INITIAL
    else var s := ss[|ss| - 1]; Evaluate(After(ss[..|ss| - 1]), s.jitter, s.p95, s.now)
  }

  /** How often the mode went from one to the other in a run. */
  function Switches(ss: seq<Sample>, from: Mode, to: Mode): nat {
    if ss == [] then 0
    else
      var before := ss[..|ss| - 1];
      Switches(before, from, to) + if After(before).mode == from && After(ss).mode == to then 1 else 0
  }

  lemma Snoc(ss: seq<Sample>, s: Sample, from: Mode, to: Mode)
    ensures After(ss + [s]) == Evaluate(After(ss), s.jitter, s.p95, s.now)
    ensures Switches(ss + [s], from, to)
            == Switches(ss, from, to) + if After(ss).mode == from && After(ss + [s]).mode == to then 1 else 0
  {
    assert (ss + [s])[..|ss|] == ss;
  }

  /** The distance from a return to Bypass: ten samples above it, twenty more back. */
  function Progress(m: Machine): nat {
    match m.mode
    case Bypass => m.high
    case LowLatency => 10 + m.low
    case Smooth => 10
  }

  lemma ProgressStep(m: Machine, jitter: real, p95: real, now: nat)
    requires m.mode == Bypass ==> m.high < 10
    requires m.mode == LowLatency ==> m.low < 20
    ensures var after := Evaluate(m, jitter, p95, now);
      && (after.mode == Bypass ==> after.high < 10) && (after.mode == LowLatency ==> after.low < 20)
      && Progress(after) + (if m.mode == LowLatency && after.mode == Bypass then 30 else 0) <= Progress(m) + 1
  {
  }

  lemma {:induction false} ProgressBound(ss: seq<Sample>)
    ensures var m := After(ss);
      && (m.mode == Bypass ==> m.high < 10) && (m.mode == LowLatency ==> m.low < 20)
      && 30 * Switches(ss, LowLatency, Bypass) + Progress(m) <= |ss|
  {
    if ss != [] {
      hide Evaluate, Progress;
      var s := ss[|ss| - 1];
      ProgressBound(ss[..|ss| - 1]);
      ProgressStep(After(ss[..|ss| - 1]), s.jitter, s.p95, s.now);
    } else {
      assert Progress(INITIAL) == 0;
    }
  }

  /** No flapping: every return to Bypass has cost at least thirty evaluated samples. */
  lemma {:induction false} ReturnsToBypassAreRare(ss: seq<Sample>)
    ensures Switches(ss, LowLatency, Bypass) <= |ss| / 30
  {
    hide Switches;
    ProgressBound(ss);
  }

  // ----- the bound is attained

  /** How many of the samples the percentile of sample `n` covers: all but at most the three newest. */
  ghost predicate Schedule(covered: nat -> nat) {
    forall n: nat :: n - WINDOW_REFRESH < covered(n) <= n
  }

  /** The evaluated samples of a jitter history: from the tenth on, each with the percentile of the window then. */
  ghost function Evaluated(history: seq<real>, covered: nat -> nat, clock: nat -> nat): seq<Sample>
    requires Schedule(covered)
    decreases |history|
  {
    var n := |history|;
    if n < MIN_SAMPLES then []
    else
      Evaluated(history[..n - 1], covered, clock) +
      [Sample(history[n - 1], Summary(history[..covered(n)], WINDOW_SIZE).p95, clock(n))]
  }

  /** Jitter samples between zero and `limit`. */
  ghost predicate AtMost(history: seq<real>, limit: real) {
    forall i :: 0 <= i < |history| ==> 0.0 <= history[i] <= limit
  }

  lemma PercentileAtMost(history: seq<real>, limit: real)
    requires history != [] && AtMost(history, limit)
    ensures Summary(history, WINDOW_SIZE).p95 <= limit
  {
    hide Summary;
    SummaryOrdered(history, WINDOW_SIZE);
    var max :| max == Summary(history, WINDOW_SIZE).max;
    assert max in Window(history, WINDOW_SIZE);
  }

  /** One more sample of a history that stays low: its percentile stays low too. */
  lemma EvaluatedSnoc(history: seq<real>, x: real, covered: nat -> nat, clock: nat -> nat) returns (s: Sample)
    requires Schedule(covered) && |history| + 1 >= MIN_SAMPLES && AtMost(history + [x], 2.0)
    ensures Evaluated(history + [x], covered, clock) == Evaluated(history, covered, clock) + [s]
    ensures s.jitter == x && s.p95 <= 2.0
  {
    hide Summary;
    var more, n := history + [x], |history| + 1;
    assert more[..n - 1] == history;
    PercentileAtMost(more[..covered(n)], 2.0);
    s := Sample(x, Summary(more[..covered(n)], WINDOW_SIZE).p95, clock(n));
  }

  function Repeat(x: real, n: nat): (r: seq<real>)
    ensures |r| == n
  {
    if n == 0 then [] else Repeat(x, n - 1) + [x]
  }

  lemma {:induction false} RepeatAtMost(history: seq<real>, x: real, n: nat, limit: real)
    requires AtMost(history, limit) && 0.0 <= x <= limit
    ensures AtMost(history + Repeat(x, n), limit)
  {
    if n > 0 {
      RepeatAtMost(history, x, n - 1, limit);
      assert history + Repeat(x, n) == history + Repeat(x, n - 1) + [x];
    }
  }

  lemma {:induction false} RoughRun(history: seq<real>, n: nat, covered: nat -> nat, clock: nat -> nat)
    requires Schedule(covered) && |history| + 1 >= MIN_SAMPLES && AtMost(history, 2.0) && n <= 10
    requires After(Evaluated(history, covered, clock)) == INITIAL
    ensures var ss := Evaluated(history, covered, clock);
      var r := Evaluated(history + Repeat(2.0, n), covered, clock);
      && |r| == |ss| + n && Switches(r, LowLatency, Bypass) == Switches(ss, LowLatency, Bypass)
      && After(r) == if n < 10 then INITIAL.(high := n) else INITIAL.(mode := LowLatency)
  {
    hide After, Switches, Evaluated;
    if n == 0 {
      assert history + [] == history;
    } else {
      RoughRun(history, n - 1, covered, clock);
      RepeatAtMost(history, 2.0, n, 2.0);
      var before := history + Repeat(2.0, n - 1);
      assert history + Repeat(2.0, n) == before + [2.0];
      var s := EvaluatedSnoc(before, 2.0, covered, clock);
      Snoc(Evaluated(before, covered, clock), s, LowLatency, Bypass);
    }
  }

  lemma {:induction false} CalmRun(history: seq<real>, n: nat, covered: nat -> nat, clock: nat -> nat)
    requires Schedule(covered) && |history| + 1 >= MIN_SAMPLES && AtMost(history, 2.0) && n <= 20
    requires After(Evaluated(history, covered, clock)) == INITIAL.(mode := LowLatency)
    ensures var ss := Evaluated(history, covered, clock);
      var r := Evaluated(history + Repeat(0.0, n), covered, clock);
      && |r| == |ss| + n && Switches(r, LowLatency, Bypass) == Switches(ss, LowLatency, Bypass) + n / 20
      && After(r) == if n < 20 then INITIAL.(mode := LowLatency, low := n) else INITIAL
  {
    hide After, Switches, Evaluated;
    if n == 0 {
      assert history + [] == history;
    } else {
      CalmRun(history, n - 1, covered, clock);
      RepeatAtMost(history, 0.0, n, 2.0);
      var before := history + Repeat(0.0, n - 1);
      assert history + Repeat(0.0, n) == before + [0.0];
      var s := EvaluatedSnoc(before, 0.0, covered, clock);
      Snoc(Evaluated(before, covered, clock), s, LowLatency, Bypass);
    }
  }

  /** Thirty evaluated samples can be enough, again and again, whenever the percentile is refreshed and whatever the
      clock: nine samples that are not evaluated, and then in turn ten of 2 ms and twenty of none. */
  lemma {:induction false} ReturnsCanBeAsFrequent(count: nat, covered: nat -> nat, clock: nat -> nat)
    returns (history: seq<real>)
    requires Schedule(covered)
    ensures |history| == 9 + 30 * count && AtMost(history, 2.0)
    ensures var ss := Evaluated(history, covered, clock);
      && |ss| == 30 * count && Switches(ss, LowLatency, Bypass) == count && After(ss) == INITIAL
  {
    history := Repeat(0.0, MIN_SAMPLES - 1);
    if count == 0 {
      RepeatAtMost([], 0.0, MIN_SAMPLES - 1, 2.0);
      assert [] + history == history;
    } else {
      hide After, Switches, Repeat, Evaluated;
      history := ReturnsCanBeAsFrequent(count - 1, covered, clock);
      RoughRun(history, 10, covered, clock);
      RepeatAtMost(history, 2.0, 10, 2.0);
      history := history + Repeat(2.0, 10);
      CalmRun(history, 20, covered, clock);
      RepeatAtMost(history, 0.0, 20, 2.0);
      history := history + Repeat(0.0, 20);
    }
  }

  // ----- leaving Smooth takes time

  /** A clock that is positive and never goes back. */
  ghost predicate Clocked(ss: seq<Sample>) {
    && (forall i :: 0 <= i < |ss| ==> 0 < ss[i].now < U64)
    && (forall i, j :: 0 <= i <= j < |ss| ==> ss[i].now <= ss[j].now)
  }

  /** `switches` and the time since `start` after one more sample. */
  lemma HoldStep(m: Machine, s: Sample, start: nat, before: nat, switches: nat)
    requires start <= before <= s.now && 0 < s.now < U64
    requires (m.mode != Smooth ==> m.lowSince == 0) && m.lowSince <= before
    requires SMOOTH_HOLD_NS * switches <= (if m.lowSince == 0 then before else m.lowSince) - start
    ensures var after := Evaluate(m, s.jitter, s.p95, s.now);
      && (after.mode != Smooth ==> after.lowSince == 0) && after.lowSince <= s.now
      && SMOOTH_HOLD_NS * (switches + if m.mode == Smooth && after.mode == LowLatency then 1 else 0)
         <= (if after.lowSince == 0 then s.now else after.lowSince) - start
  {
  }

  lemma {:induction false} HoldBound(ss: seq<Sample>)
    requires Clocked(ss) && ss != []
    ensures var m := After(ss); var now := ss[|ss| - 1].now;
      && (m.mode != Smooth ==> m.lowSince == 0) && m.lowSince <= now
      && SMOOTH_HOLD_NS * Switches(ss, Smooth, LowLatency) <= (if m.lowSince == 0 then now else m.lowSince) - ss[0].now
  {
    hide Evaluate;
    var before, s := ss[..|ss| - 1], ss[|ss| - 1];
    if before != [] {
      HoldBound(before);
      HoldStep(After(before), s, ss[0].now, before[|before| - 1].now, Switches(before, Smooth, LowLatency));
    } else {
      HoldStep(INITIAL, s, s.now, s.now, 0);
    }
  }

  /** Smooth is left for LowLatency at most once in three seconds of the run. */
  lemma {:induction false} SmoothIsLeftSlowly(ss: seq<Sample>)
    requires Clocked(ss) && ss != []
    ensures Switches(ss, Smooth, LowLatency) <= (ss[|ss| - 1].now - ss[0].now) / SMOOTH_HOLD_NS
  {
    hide Switches, After;
    HoldBound(ss);
  }

  /** The mode never jumps between Bypass and Smooth. */
  lemma {:induction false} NoJump(ss: seq<Sample>)
    ensures Switches(ss, Bypass, Smooth) == 0 && Switches(ss, Smooth, Bypass) == 0
  {
    if ss != [] {
      NoJump(ss[..|ss| - 1]);
    }
  }

  // ----- every switch has its evidence

  ghost predicate LastJitter(ss: seq<Sample>, n: nat, high: bool) {
    n <= |ss| && forall i :: |ss| - n <= i < |ss| ==> if high then ss[i].jitter > 1.0 else ss[i].jitter < 0.5
  }

  /** From sample `k` on, the percentile stayed under 5 ms. */
  ghost predicate CalmFrom(ss: seq<Sample>, k: nat) {
    k < |ss| && forall i :: k <= i < |ss| ==> ss[i].p95 < 5.0
  }

  /** What the counters remember did happen. */
  ghost predicate Remembers(ss: seq<Sample>, m: Machine) {
    && (m.mode == Bypass ==> m.high < 10 && LastJitter(ss, m.high, true))
    && (m.mode == LowLatency ==> m.low < 20 && LastJitter(ss, m.low, false)
                                 && (m.exceeded ==> ss != [] && ss[|ss| - 1].p95 > 10.0))
    && (m.mode == Smooth && m.lowSince != 0 ==> exists k: nat :: CalmFrom(ss, k) && ss[k].now == m.lowSince)
  }

  lemma RemembersStep(ss: seq<Sample>, s: Sample, m: Machine)
    requires Remembers(ss, m)
    ensures Remembers(ss + [s], Evaluate(m, s.jitter, s.p95, s.now))
  {
    var r := ss + [s];
    var after := Evaluate(m, s.jitter, s.p95, s.now);
    if after.mode == Smooth && after.lowSince != 0 {
      if m.mode == Smooth && m.lowSince != 0 {
        var k: nat :| CalmFrom(ss, k) && ss[k].now == m.lowSince;
        assert CalmFrom(r, k) && r[k].now == m.lowSince;
      } else {
        assert CalmFrom(r, |ss|);
      }
    }
  }

  lemma {:induction false} RunRemembers(ss: seq<Sample>)
    ensures Remembers(ss, After(ss))
  {
    if ss != [] {
      hide Remembers, Evaluate;
      RunRemembers(ss[..|ss| - 1]);
      RemembersStep(ss[..|ss| - 1], ss[|ss| - 1], After(ss[..|ss| - 1]));
      assert ss == ss[..|ss| - 1] + [ss[|ss| - 1]];
    } else {
      assert After(ss) == INITIAL;
    }
  }

  lemma JitterEvidence(ss: seq<Sample>, s: Sample, m: Machine)
    requires Remembers(ss, m)
    ensures var r := ss + [s]; var to := Evaluate(m, s.jitter, s.p95, s.now).mode;
      && (m.mode == Bypass && to != Bypass ==> to == LowLatency && LastJitter(r, 10, true))
      && (m.mode == LowLatency && to == Bypass ==> LastJitter(r, 20, false))
      && (m.mode == LowLatency && to == Smooth ==> |r| >= 2 && r[|r| - 1].p95 > 10.0 && r[|r| - 2].p95 > 10.0)
  {
    var to := Evaluate(m, s.jitter, s.p95, s.now).mode;
    if m.mode == Bypass && to != Bypass {
      assert m.high == 9 && s.jitter > 1.0;
    } else if m.mode == LowLatency && to == Bypass {
      assert m.low == 19 && s.jitter < 0.5;
    }
  }

  lemma CalmEvidence(ss: seq<Sample>, s: Sample, m: Machine)
    requires Remembers(ss, m) && Clocked(ss + [s]) && m.mode == Smooth
    requires Evaluate(m, s.jitter, s.p95, s.now).mode != Smooth
    ensures Evaluate(m, s.jitter, s.p95, s.now).mode == LowLatency
    ensures exists k: nat :: CalmFrom(ss + [s], k) && s.now - (ss + [s])[k].now >= SMOOTH_HOLD_NS
  {
    var r := ss + [s];
    var k: nat :| CalmFrom(ss, k) && ss[k].now == m.lowSince;
    assert r[k].now <= r[|ss|].now;
    assert CalmFrom(r, k);
  }

  /** A switch is made on the documented evidence: ten samples over 1 ms in a row, twenty under 0.5 ms, two
      percentiles over 10 ms, or a percentile under 5 ms for three seconds. */
  lemma SwitchHasEvidence(ss: seq<Sample>, s: Sample)
    requires Clocked(ss + [s])
    ensures var r := ss + [s]; var from := After(ss).mode; var to := After(r).mode;
      && (from == Bypass && to != Bypass ==> to == LowLatency && LastJitter(r, 10, true))
      && (from == LowLatency && to == Bypass ==> LastJitter(r, 20, false))
      && (from == LowLatency && to == Smooth ==> |r| >= 2 && r[|r| - 1].p95 > 10.0 && r[|r| - 2].p95 > 10.0)
      && (from == Smooth && to != Smooth ==>
            to == LowLatency && exists k: nat :: CalmFrom(r, k) && s.now - r[k].now >= SMOOTH_HOLD_NS)
  {
    hide After, Evaluate, Remembers, LastJitter, CalmFrom, Clocked;
    RunRemembers(ss);
    Snoc(ss, s, Bypass, Bypass);
    JitterEvidence(ss, s, After(ss));
    if After(ss).mode == Smooth && After(ss + [s]).mode != Smooth {
      CalmEvidence(ss, s, After(ss));
    }
  }

  // ----- and the evidence makes it switch

  /** How many of the last samples were evaluated in the mode the run ends in. */
  function InMode(ss: seq<Sample>): (n: nat)
    ensures n <= |ss|
  {
    if ss == [] then 0
    else
      var before := ss[..|ss| - 1];
      if After(ss).mode != After(before).mode then 0 else InMode(before) + 1
  }

  lemma InModeSnoc(ss: seq<Sample>, s: Sample)
    ensures InMode(ss + [s]) == if After(ss + [s]).mode != After(ss).mode then 0 else InMode(ss) + 1
  {
    hide After;
    assert (ss + [s])[..|ss|] == ss;
  }

  /** The `count` last samples, of `n` in the mode, are the longest stretch over 1 ms, or under 0.5 ms. */
  ghost predicate Stretch(ss: seq<Sample>, n: nat, count: nat, high: bool) {
    && count <= n <= |ss| && LastJitter(ss, count, high)
    && (count < n ==> var x := ss[|ss| - 1 - count].jitter; if high then x <= 1.0 else x >= 0.5)
  }

  /** From sample `k` on the percentile stayed under 5 ms, and not from an earlier one of the last `n`. */
  ghost predicate CalmStretch(ss: seq<Sample>, n: nat, k: nat) {
    && n <= |ss| && |ss| - n <= k && CalmFrom(ss, k)
    && (k == |ss| - n || ss[k - 1].p95 >= 5.0)
  }

  /** The counters are exactly what the last `n` samples, those in the mode, say. */
  ghost predicate Counts(ss: seq<Sample>, n: nat, m: Machine) {
    && n <= |ss|
    && (m.mode == Bypass ==> m.high < 10 && Stretch(ss, n, m.high, true))
    && (m.mode == LowLatency ==>
          m.low < 20 && Stretch(ss, n, m.low, false) && (m.exceeded <==> n > 0 && ss[|ss| - 1].p95 > 10.0))
    && (m.mode == Smooth ==>
          && (m.lowSince != 0 <==> n > 0 && ss[|ss| - 1].p95 < 5.0)
          && (m.lowSince != 0 ==> exists k: nat :: k < |ss| && CalmStretch(ss, n, k) && ss[k].now == m.lowSince))
    && (m.mode != Smooth ==> m.lowSince == 0)
  }

  lemma StretchSnoc(ss: seq<Sample>, n: nat, count: nat, high: bool, s: Sample)
    requires Stretch(ss, n, count, high)
    ensures var r := ss + [s];
      if (if high then s.jitter > 1.0 else s.jitter < 0.5) then Stretch(r, n + 1, count + 1, high)
      else Stretch(r, n + 1, 0, high)
  {
  }

  lemma StretchFull(ss: seq<Sample>, n: nat, count: nat, high: bool, wanted: nat)
    requires Stretch(ss, n, count, high)
    ensures wanted <= n && LastJitter(ss, wanted, high) <==> wanted <= count
  {
    if wanted <= n && count < wanted {
      assert |ss| - wanted <= |ss| - 1 - count < |ss|;
    }
  }

  lemma CountsStepBypass(ss: seq<Sample>, n: nat, s: Sample, m: Machine)
    requires Counts(ss, n, m) && m.mode == Bypass
    ensures var r, after := ss + [s], Evaluate(m, s.jitter, s.p95, s.now);
      && Counts(r, if after.mode != m.mode then 0 else n + 1, after)
      && after.mode == if n + 1 >= 10 && LastJitter(r, 10, true) then LowLatency else Bypass
  {
    hide Stretch, LastJitter;
    StretchSnoc(ss, n, m.high, true, s);
    var r := ss + [s];
    StretchFull(r, n + 1, if s.jitter > 1.0 then m.high + 1 else 0, true, 10);
    NoStretch(r);
  }

  lemma NoStretch(ss: seq<Sample>)
    ensures Stretch(ss, 0, 0, true) && Stretch(ss, 0, 0, false)
  {
  }

  lemma CountsStepLow(ss: seq<Sample>, n: nat, s: Sample, m: Machine)
    requires Counts(ss, n, m) && m.mode == LowLatency
    ensures var r, after := ss + [s], Evaluate(m, s.jitter, s.p95, s.now);
      && Counts(r, if after.mode != m.mode then 0 else n + 1, after)
      && after.mode ==
         if n + 1 >= 20 && LastJitter(r, 20, false) then Bypass
         else if n + 1 >= 2 && r[|r| - 1].p95 > 10.0 && r[|r| - 2].p95 > 10.0 then Smooth
         else LowLatency
  {
    hide Stretch, LastJitter;
    StretchSnoc(ss, n, m.low, false, s);
    var r := ss + [s];
    StretchFull(r, n + 1, if s.jitter < 0.5 then m.low + 1 else 0, false, 20);
    NoStretch(r);
  }

  /** A calm stretch goes on, begins, or ends. */
  lemma CalmSnoc(ss: seq<Sample>, n: nat, s: Sample, k: nat)
    requires n <= |ss| && s.p95 < 5.0
    ensures CalmStretch(ss, n, k) ==> CalmStretch(ss + [s], n + 1, k)
    ensures (n > 0 ==> ss[|ss| - 1].p95 >= 5.0) ==> CalmStretch(ss + [s], n + 1, |ss|)
  {
  }

  /** The calm stretch is at least as long ago as any sample from which on it was calm. */
  lemma CalmLongEnough(r: seq<Sample>, n: nat, k: nat, j: nat)
    requires Clocked(r) && CalmStretch(r, n, k) && |r| - n <= j && CalmFrom(r, j)
    ensures r[k].now <= r[j].now
  {
  }

  lemma CountsStepSmooth(ss: seq<Sample>, n: nat, s: Sample, m: Machine)
    requires Counts(ss, n, m) && m.mode == Smooth && Clocked(ss + [s])
    ensures var r, after := ss + [s], Evaluate(m, s.jitter, s.p95, s.now);
      && Counts(r, if after.mode != m.mode then 0 else n + 1, after)
      && after.mode == if CalmForThreeSeconds(r, n + 1) then LowLatency else Smooth
  {
    hide CalmStretch, Stretch;
    var r := ss + [s];
    NoStretch(r);
    if s.p95 < 5.0 {
      if m.lowSince == 0 {
        CalmSnoc(ss, n, s, 0);
        assert r[|ss|].now == s.now;
        JustCalm(ss, n, s);
      } else {
        var k: nat :| k < |ss| && CalmStretch(ss, n, k) && ss[k].now == m.lowSince;
        CalmSnoc(ss, n, s, k);
        assert r[k] == ss[k] && r[k].now <= r[|ss|].now;
        CalmExactly(r, n + 1, k);
      }
    }
  }

  /** Of the last `n` samples, all from some sample three seconds ago on have a percentile under 5 ms. */
  ghost predicate CalmForThreeSeconds(ss: seq<Sample>, n: nat) {
    && 0 < n <= |ss|
    && exists k: nat :: |ss| - n <= k && CalmFrom(ss, k) && ss[|ss| - 1].now - ss[k].now >= 3_000_000_000
  }

  lemma CalmExactly(ss: seq<Sample>, n: nat, k: nat)
    requires Clocked(ss) && CalmStretch(ss, n, k) && 0 < n
    ensures CalmForThreeSeconds(ss, n) <==> ss[|ss| - 1].now - ss[k].now >= 3_000_000_000
  {
    if j: nat :| |ss| - n <= j && CalmFrom(ss, j) && ss[|ss| - 1].now - ss[j].now >= 3_000_000_000 {
      CalmLongEnough(ss, n, k, j);
    }
  }

  lemma JustCalm(ss: seq<Sample>, n: nat, s: Sample)
    requires Clocked(ss + [s]) && n <= |ss| && s.p95 < 5.0 && (n > 0 ==> ss[|ss| - 1].p95 >= 5.0)
    ensures !CalmForThreeSeconds(ss + [s], n + 1)
  {
    CalmSnoc(ss, n, s, 0);
    CalmExactly(ss + [s], n + 1, |ss|);
  }

  lemma ClockedBefore(ss: seq<Sample>, s: Sample)
    requires Clocked(ss + [s])
    ensures Clocked(ss)
  {
    var r := ss + [s];
    assert forall i :: 0 <= i < |ss| ==> r[i] == ss[i];
  }

  lemma {:induction false} RunCounts(ss: seq<Sample>)
    requires Clocked(ss)
    ensures Counts(ss, InMode(ss), After(ss))
  {
    hide Counts, Evaluate, Clocked;
    if ss == [] {
      NothingCounted();
    } else {
      var before, s := ss[..|ss| - 1], ss[|ss| - 1];
      assert ss == before + [s];
      ClockedBefore(before, s);
      RunCounts(before);
      var n, m := InMode(before), After(before);
      match m.mode
      case Bypass => CountsStepBypass(before, n, s, m);
      case LowLatency => CountsStepLow(before, n, s, m);
      case Smooth => CountsStepSmooth(before, n, s, m);
    }
  }

  lemma NothingCounted()
    ensures Counts([], 0, INITIAL)
  {
  }

  lemma NothingEvaluated()
    ensures After([]).mode == Bypass && InMode([]) == 0
  {
  }

  /** The history alone decides the mode: of the samples evaluated since the mode was entered, ten in a row over 1 ms
      end Bypass; twenty in a row under 0.5 ms lead back to it, and otherwise two percentiles in a row over 10 ms to
      Smooth; and a percentile under 5 ms for three seconds ends Smooth. Nothing else switches. */
  lemma SwitchesExactly(ss: seq<Sample>, s: Sample)
    requires Clocked(ss + [s])
    ensures After([]).mode == Bypass && InMode([]) == 0
    ensures var r, n := ss + [s], InMode(ss) + 1;
      After(r).mode ==
      match After(ss).mode
      case Bypass => if n >= 10 && LastJitter(r, 10, true) then LowLatency else Bypass
      case LowLatency =>
        if n >= 20 && LastJitter(r, 20, false) then Bypass
        else if n >= 2 && r[|r| - 1].p95 > 10.0 && r[|r| - 2].p95 > 10.0 then Smooth
        else LowLatency
      case Smooth => if CalmForThreeSeconds(r, n) then LowLatency else Smooth
  {
    hide After, Evaluate, InMode, Clocked, LastJitter, CalmForThreeSeconds, Counts;
    NothingEvaluated();
    ClockedBefore(ss, s);
    RunCounts(ss);
    Snoc(ss, s, Bypass, Bypass);
    var n, m := InMode(ss), After(ss);
    match m.mode
    case Bypass => CountsStepBypass(ss, n, s, m);
    case LowLatency => CountsStepLow(ss, n, s, m);
    case Smooth => CountsStepSmooth(ss, n, s, m);
  }

  // ----- quality and limits

  function Assess(p95: real, loss: real, skip: real): Quality {
    if p95 > 50.0 || loss > 1.0 || skip > 5.0 then Poor
    else if p95 > 10.0 || loss > 0.1 || skip > 1.0 then Fair
    else if p95 > 1.0 || loss > 0.01 then Good
    else Excellent
  }

  /** C++ division: towards zero. */
  function Quotient(a: int, b: nat): int
    requires b > 0
  {
    if a >= 0 then a / b else -(-a / b)
  }

  function Larger(a: int, b: int): int {
    if a >= b then a else b
  }

  datatype Limits = Limits(maxWaitMs: int, maxFrames: nat)

  function LimitsFor(quality: Quality, config: JitterConfig): Limits {
    match quality
    case Excellent => Limits(Larger(20, Quotient(config.baseMaxWaitMs, 4)), Max(2, config.baseMaxFrames / 4))
    case Good => Limits(Quotient(config.baseMaxWaitMs, 2), Max(4, config.baseMaxFrames / 2))
    case Fair => Limits(config.baseMaxWaitMs, config.baseMaxFrames)
    case Poor => Limits(config.baseMaxWaitMs * 3, config.baseMaxFrames * 4)
  }

  function Level(quality: Quality): nat {
    match quality
    case Excellent => 0
    case Good => 1
    case Fair => 2
    case Poor => 3
  }

  /** A worse network never gets less time exactly when the configured wait is at least 40 ms, and never fewer
      frames exactly when the configured frame count is at least four. */
  lemma WorseGetsMoreExactly(config: JitterConfig)
    ensures (forall p, q :: Level(p) <= Level(q) ==> LimitsFor(p, config).maxWaitMs <= LimitsFor(q, config).maxWaitMs)
            <==> config.baseMaxWaitMs >= 40
    ensures (forall p, q :: Level(p) <= Level(q) ==> LimitsFor(p, config).maxFrames <= LimitsFor(q, config).maxFrames)
            <==> config.baseMaxFrames >= 4
  {
    if config.baseMaxWaitMs < 40 {
      assert Level(Excellent) <= Level(Good);
      assert LimitsFor(Excellent, config).maxWaitMs > LimitsFor(Good, config).maxWaitMs;
    }
    if config.baseMaxFrames < 4 {
      assert Level(Good) <= Level(Fair);
      assert LimitsFor(Good, config).maxFrames > LimitsFor(Fair, config).maxFrames;
    }
  }

  /** The quality only gets worse as percentile, loss and skip rate grow. */
  lemma AssessMonotone(p95: real, loss: real, skip: real, p95': real, loss': real, skip': real)
    requires p95 <= p95' && loss <= loss' && skip <= skip'
    ensures Level(Assess(p95, loss, skip)) <= Level(Assess(p95', loss', skip'))
  {
  }

  /** Which quality is at least how bad. */
  lemma QualityExactly(p95: real, loss: real, skip: real)
    ensures var quality := Assess(p95, loss, skip);
      && (quality == Poor <==> p95 > 50.0 || loss > 1.0 || skip > 5.0)
      && (quality in {Fair, Poor} <==> p95 > 10.0 || loss > 0.1 || skip > 1.0)
      && (quality != Excellent <==> p95 > 1.0 || loss > 0.01 || skip > 1.0)
  {
  }

  /** The limits against the configured ones: as they are on a fair network; three times the wait and four times the
      frames on a poor one; half on a good one and a quarter on an excellent one, rounded towards zero, with at least
      four or two frames and, on an excellent one, 20 ms. */
  lemma LimitsExactly(config: JitterConfig)
    ensures var wait, frames := config.baseMaxWaitMs, config.baseMaxFrames;
      var excellent, good := LimitsFor(Excellent, config), LimitsFor(Good, config);
      && LimitsFor(Fair, config) == Limits(wait, frames) && LimitsFor(Poor, config) == Limits(3 * wait, 4 * frames)
      && -2 < wait - 2 * good.maxWaitMs < 2
      && (if wait >= 0 then 2 * good.maxWaitMs <= wait else wait <= 2 * good.maxWaitMs)
      && good.maxFrames >= 4 && frames < 2 * good.maxFrames + 2
      && (good.maxFrames == 4 || 2 * good.maxFrames <= frames)
      && excellent.maxWaitMs >= 20 && wait < 4 * excellent.maxWaitMs + 4
      && (excellent.maxWaitMs == 20 || 4 * excellent.maxWaitMs <= wait)
      && excellent.maxFrames >= 2 && frames < 4 * excellent.maxFrames + 4
      && (excellent.maxFrames == 2 || 4 * excellent.maxFrames <= frames)
  {
  }

  /** A frame is held back for the larger one of the configured delay and the percentile times the mode's factor, in
      whole nanoseconds; and for nothing in Bypass. */
  lemma DelayExactly(mode: Mode, p95: real, config: JitterConfig)
    ensures var delay := ComputeDelayForMode(mode, p95, config) as real;
      var factor := if mode == Smooth then config.smoothFactor else config.safetyFactor;
      var least, scaled := config.minDelayMs as real, p95 * factor;
      if mode == Bypass then delay == 0.0
      else
        && delay <= (if least > scaled then least else scaled) * 1_000_000.0
        && (if least > scaled then least else scaled) * 1_000_000.0 < delay + 1.0
  {
  }

  function Target(config: JitterConfig, factor: real, p95: real): real {
    if config.minDelayMs as real >= p95 * factor then config.minDelayMs as real else p95 * factor
  }

  /** Nanoseconds to hold a frame back, for a target that is not negative. */
  function ComputeDelayForMode(mode: Mode, p95: real, config: JitterConfig): int {
    match mode
    case Bypass => 0
    case LowLatency => (Target(config, config.safetyFactor, p95) * 1000000.0).Floor
    case Smooth => (Target(config, config.smoothFactor, p95) * 1000000.0).Floor
  }

  /** A smoother mode never holds a frame back for less, as long as its factor is not the smaller one. */
  lemma SmootherHoldsLonger(config: JitterConfig, p95: real)
    requires 0.0 <= p95 && 0.0 < config.safetyFactor <= config.smoothFactor
    ensures 0 == ComputeDelayForMode(Bypass, p95, config)
      <= ComputeDelayForMode(LowLatency, p95, config) <= ComputeDelayForMode(Smooth, p95, config)
  {
    Scales(p95, 0.0, config.safetyFactor);
    Scales(p95, config.safetyFactor, config.smoothFactor);
    TargetsOrdered(Target(config, config.safetyFactor, p95), Target(config, config.smoothFactor, p95));
  }

  lemma TargetsOrdered(a: real, b: real)
    requires 0.0 <= a <= b
    ensures 0 <= (a * 1000000.0).Floor <= (b * 1000000.0).Floor
  {
  }

  // ----- the controller

  class AdaptiveJitterBuffer {
    const config: JitterConfig
    var activeMode: Mode
    var networkQuality: Quality
    var autoMode: bool
    var window: LatencyStats
    var consecutiveHighJitter: nat
    var consecutiveLowJitter: nat
    var lowToSmoothP95Exceeded: bool
    var smoothLowP95Since: nat
    var currentMaxWaitMs: int
    var currentMaxFrames: nat

    constructor (config: JitterConfig)
      ensures Valid() && fresh(window) && fresh(window.samples)
      ensures State() == INITIAL && autoMode && window.history == [] && this.config == config
    {
      this.config := config;
      activeMode, networkQuality, autoMode := Bypass, Excellent, true;
      consecutiveHighJitter, consecutiveLowJitter := 0, 0;
      lowToSmoothP95Exceeded, smoothLowP95Since := false, 0;
      currentMaxWaitMs, currentMaxFrames := config.baseMaxWaitMs, config.baseMaxFrames;
      window := new LatencyStats(WINDOW_SIZE, WINDOW_REFRESH);
    }

    ghost predicate Valid()
      reads this, window, window.samples
    {
      window.Valid() && window.maxSamples == WINDOW_SIZE && window.refreshInterval == WINDOW_REFRESH
    }

    ghost function State(): Machine
      reads this
    {
      Machine(activeMode, consecutiveHighJitter, consecutiveLowJitter, lowToSmoothP95Exceeded, smoothLowP95Since)
    }

    ghost function CurrentLimits(): Limits
      reads this
    {
      Limits(currentMaxWaitMs, currentMaxFrames)
    }

    /** The percentile the window answers with: of all but at most the three newest samples. */
    ghost function P95(): real
      requires Valid() && window.covered <= |window.history|
      reads this, window, window.samples
    {
      Summary(window.history[..window.covered], 100).p95
    }

    method RecordJitter(jitter: real, loss: real, skip: real, now: nat)
      requires Valid()
      modifies this, window, window.samples
      ensures Valid() && window == old(window) && window.samples == old(window.samples) && autoMode == old(autoMode)
      ensures window.history == old(window.history) + [jitter]
      ensures |window.history| - 4 < window.covered <= |window.history|
      ensures networkQuality == Assess(P95(), loss, skip)
      ensures var evaluated := autoMode && |window.history| >= 10;
        && State() == (if evaluated then Evaluate(old(State()), jitter, P95(), now) else old(State()))
        && CurrentLimits() == (if evaluated then LimitsFor(networkQuality, config) else old(CurrentLimits()))
    {
      hide Summary;
      window.Record(jitter);
      AssessNetworkQuality(loss, skip);
      if autoMode && window.sampleCount >= MIN_SAMPLES {
        EvaluateStateTransition(jitter, now);
        ApplyQualityParams();
      }
    }

    method AssessNetworkQuality(loss: real, skip: real)
      requires Valid()
      modifies `networkQuality, window
      ensures Valid() && window.samples == old(window.samples) && window.history == old(window.history)
      ensures window.cachedSummaryValid && |window.history| - WINDOW_REFRESH < window.covered <= |window.history|
      ensures networkQuality == Assess(P95(), loss, skip)
    {
      hide Summary;
      var summary := window.Snapshot();
      var p95 := summary.p95;
      if p95 > 50.0 || loss > 1.0 || skip > 5.0 {
        networkQuality := Poor;
      } else if p95 > 10.0 || loss > 0.1 || skip > 1.0 {
        networkQuality := Fair;
      } else if p95 > 1.0 || loss > 0.01 {
        networkQuality := Good;
      } else {
        networkQuality := Excellent;
      }
    }

    method TargetDelayNs() returns (delay: int)
      requires Valid()
      modifies window
      ensures Valid() && window.samples == old(window.samples) && window.history == old(window.history)
      ensures window.covered <= |window.history| && delay == ComputeDelayForMode(activeMode, P95(), config)
    {
      hide Summary, Target;
      var summary := window.Snapshot();
      delay := ComputeDelayForMode(activeMode, summary.p95, config);
    }

    method ApplyQualityParams()
      modifies `currentMaxWaitMs, `currentMaxFrames
      ensures CurrentLimits() == LimitsFor(networkQuality, config)
    {
      match networkQuality
      case Excellent =>
        currentMaxWaitMs := Larger(20, Quotient(config.baseMaxWaitMs, 4));
        currentMaxFrames := Max(2, config.baseMaxFrames / 4);
      case Good =>
        currentMaxWaitMs := Quotient(config.baseMaxWaitMs, 2);
        currentMaxFrames := Max(4, config.baseMaxFrames / 2);
      case Fair =>
        currentMaxWaitMs, currentMaxFrames := config.baseMaxWaitMs, config.baseMaxFrames;
      case Poor =>
        currentMaxWaitMs, currentMaxFrames := config.baseMaxWaitMs * 3, config.baseMaxFrames * 4;
    }

    method EvaluateStateTransition(jitter: real, now: nat)
      requires Valid() && window.cachedSummaryValid
      modifies `activeMode, `consecutiveHighJitter, `consecutiveLowJitter, `lowToSmoothP95Exceeded, `smoothLowP95Since,
        window
      ensures Valid() && window.samples == old(window.samples) && window.history == old(window.history)
      ensures old(|window.history| - window.covered < WINDOW_REFRESH) ==> window.covered == old(window.covered)
      ensures window.covered <= |window.history| && State() == Evaluate(old(State()), jitter, P95(), now)
    {
      hide Summary, FromBypass, FromLowLatency, FromSmooth;
      var summary := window.Snapshot();
      var p95 := summary.p95;
      match activeMode
      case Bypass => LeaveBypass(jitter);
      case LowLatency => LeaveLowLatency(jitter, p95);
      case Smooth => LeaveSmooth(p95, now);
    }

    method LeaveBypass(jitter: real)
      modifies `activeMode, `consecutiveHighJitter, `consecutiveLowJitter, `lowToSmoothP95Exceeded
      ensures State() == FromBypass(old(State()), jitter)
    {
      if jitter > 1.0 {
        consecutiveHighJitter := consecutiveHighJitter + 1;
      } else {
        consecutiveHighJitter := 0;
      }
      if consecutiveHighJitter >= 10 {
        activeMode := LowLatency;
        consecutiveHighJitter, consecutiveLowJitter := 0, 0;
        lowToSmoothP95Exceeded := false;
      }
    }

    method LeaveLowLatency(jitter: real, p95: real)
      modifies `activeMode, `consecutiveHighJitter, `consecutiveLowJitter, `lowToSmoothP95Exceeded, `smoothLowP95Since
      ensures State() == FromLowLatency(old(State()), jitter, p95)
    {
      if jitter < 0.5 {
        consecutiveLowJitter := consecutiveLowJitter + 1;
      } else {
        consecutiveLowJitter := 0;
      }
      if consecutiveLowJitter >= 20 {
        activeMode := Bypass;
        consecutiveLowJitter, consecutiveHighJitter := 0, 0;
        return;
      }
      if p95 > 10.0 {
        if !lowToSmoothP95Exceeded {
          lowToSmoothP95Exceeded := true;
        } else {
          activeMode := Smooth;
          consecutiveLowJitter, consecutiveHighJitter := 0, 0;
          lowToSmoothP95Exceeded, smoothLowP95Since := false, 0;
        }
      } else {
        lowToSmoothP95Exceeded := false;
      }
    }

    method LeaveSmooth(p95: real, now: nat)
      modifies `activeMode, `consecutiveHighJitter, `consecutiveLowJitter, `lowToSmoothP95Exceeded, `smoothLowP95Since
      ensures State() == FromSmooth(old(State()), p95, now)
    {
      if p95 < 5.0 {
        if smoothLowP95Since == 0 {
          smoothLowP95Since := now;
        } else if (now - smoothLowP95Since) % U64 >= SMOOTH_HOLD_NS {
          activeMode := LowLatency;
          consecutiveLowJitter, consecutiveHighJitter := 0, 0;
          lowToSmoothP95Exceeded, smoothLowP95Since := false, 0;
        }
      } else {
        smoothLowP95Since := 0;
      }
    }

    method Reset()
      requires Valid()
      modifies this
      ensures Valid() && fresh(window) && fresh(window.samples) && window.history == []
      ensures State() == INITIAL && networkQuality == Excellent && autoMode == old(autoMode)
      ensures CurrentLimits() == Limits(config.baseMaxWaitMs, config.baseMaxFrames)
    {
      window := new LatencyStats(WINDOW_SIZE, WINDOW_REFRESH);
      activeMode, networkQuality := Bypass, Excellent;
      consecutiveHighJitter, consecutiveLowJitter := 0, 0;
      lowToSmoothP95Exceeded, smoothLowP95Since := false, 0;
      currentMaxWaitMs, currentMaxFrames := config.baseMaxWaitMs, config.baseMaxFrames;
    }
  }
}
