/**
 Progress of a proof as the status endpoint reports it. Segments are timed in
 whole milliseconds, at least one; the clock of a snapshot is not rounded.
 */
module Progress {
  import opened Wrappers

  /** Counters of a sink; times in milliseconds, zero while unset. */
  datatype Counters = Counters(segments: nat, done: nat, first: nat, last: nat, finished: nat)

  function Millis(now: real): nat
    requires now >= 0.0
  {
    (now * 1000.0).Floor
  }

  function AtLeastOne(ms: nat): nat { if ms == 0 then 1 else ms }

  /** A segment lands, as one step. */
  function SegmentProven(c: Counters, now: real): Counters
    requires now >= 0.0
  {
    var ms := AtLeastOne(Millis(now));
    c.(done := c.done + 1, last := ms, first := if c.done == 0 then ms else c.first)
  }

  /** The first call stops the clock. */
  function Finish(c: Counters, now: real): Counters
    requires now >= 0.0
  {
    if c.finished == 0 then c.(finished := AtLeastOne(Millis(now))) else c
  }

  function Seconds(ms: nat): real { ms as real / 1000.0 }

  function Elapsed(c: Counters, now: real): real {
    if c.finished > 0 then Seconds(c.finished) else now
  }

  predicate InPhaseTwo(c: Counters) {
    c.segments > 0 && c.done >= c.segments
  }

  function RMin(a: real, b: real): real { if a <= b then a else b }

  function RMax(a: real, b: real): real { if a <= b then b else a }

  /** How far into the current segment, measured in mean segments, never past nine tenths. */
  function Within(c: Counters, elapsed: real): real
    requires c.done > 0 && c.last > 0
  {
    var mean := Seconds(c.last) / c.done as real;
    assert mean > 0.0;
    RMin(RMax(elapsed - Seconds(c.last), 0.0) / mean, 0.9)
  }

  function Fraction(c: Counters, now: real): Option<real> {
    if InPhaseTwo(c) || c.segments == 0 || c.done == 0 || c.last == 0 then None
    else Some(RMin((c.done as real + Within(c, Elapsed(c, now))) / c.segments as real, 1.0))
  }

  /** Projected total seconds, before it is compared with the clock. */
  function Estimate(c: Counters): Option<real> {
    if InPhaseTwo(c) || c.done == 0 || c.segments == 0 then None
    else if c.done == 1 then Some(Seconds(c.first) * c.segments as real)
    else
      var rate := (Seconds(c.last) - Seconds(c.first)) / (c.done - 1) as real;
      Some(Seconds(c.first) + rate * (c.segments - 1) as real)
  }

  /** What is shown as remaining: nothing once the clock has overtaken the projection. */
  function Remaining(c: Counters, now: real): Option<real> {
    match Estimate(c)
    case Some(total) => if total > Elapsed(c, now) then Some(total - Elapsed(c, now)) else None
    case None => None
  }

  class ProgressSink {
    var segments: nat
    var segmentsDone: nat
    var firstMillis: nat
    var lastMillis: nat
    var finishedMillis: nat

    function View(): Counters
      reads this
    {
      Counters(segments, segmentsDone, firstMillis, lastMillis, finishedMillis)
    }

    constructor ()
      ensures View() == Counters(0, 0, 0, 0, 0)
    {
      segments, segmentsDone, firstMillis, lastMillis, finishedMillis := 0, 0, 0, 0, 0;
    }

    method OnSessionReady(segments: nat)
      modifies this
      ensures View() == old(View()).(segments := segments)
    {
      this.segments := segments;
    }

    method OnSegmentProven(now: real)
      requires now >= 0.0
      modifies this
      ensures View() == SegmentProven(old(View()), now)
    {
      segmentsDone := segmentsDone + 1;
      var ms := AtLeastOne(Millis(now));
      lastMillis := ms;
      if segmentsDone == 1 {
        firstMillis := ms;
      }
    }

    method OnFinish(now: real)
      requires now >= 0.0
      modifies this
      ensures View() == Finish(old(View()), now)
    {
      if finishedMillis == 0 {
        finishedMillis := AtLeastOne(Millis(now));
      }
    }
  }

  lemma DivMonotone(a: real, b: real, d: real)
    requires a <= b && d > 0.0
    ensures a / d <= b / d
  {
    assert b / d - a / d == (b - a) / d;
  }

  lemma DivStrict(a: real, b: real, d: real)
    requires a < b && d > 0.0
    ensures a / d < b / d
  {
    assert b / d - a / d == (b - a) / d;
    assert (b - a) / d * d == b - a;
  }

  /** Any run of segment completions, in the order of the clock. */
  function Completions(c: Counters, times: seq<real>): Counters
    requires forall i :: 0 <= i < |times| ==> times[i] >= 0.0
  {
    if times == [] then c
    else SegmentProven(Completions(c, times[..|times| - 1]), times[|times| - 1])
  }

  ghost predicate Clock(from: real, times: seq<real>) {
    && from >= 0.0
    && (forall i :: 0 <= i < |times| ==> from <= times[i])
    && (forall i, j :: 0 <= i < j < |times| ==> times[i] <= times[j])
  }

  /** The fraction lies between done and done plus nine tenths of a segment. */
  lemma FractionBand(c: Counters, now: real)
    requires Fraction(c, now).Some?
    ensures c.done as real / c.segments as real <= Fraction(c, now).value <= (c.done as real + 0.9) / c.segments as real
    ensures 0.0 <= Fraction(c, now).value <= 1.0
  {
    var s := c.segments as real;
    var w := Within(c, Elapsed(c, now));
    var mean := Seconds(c.last) / c.done as real;
    assert mean > 0.0;
    assert 0.0 / mean == 0.0;
    DivMonotone(0.0, RMax(Elapsed(c, now) - Seconds(c.last), 0.0), mean);
    assert 0.0 <= w <= 0.9;
    DivMonotone(c.done as real, c.done as real + w, s);
    DivMonotone(c.done as real + w, c.done as real + 0.9, s);
    DivMonotone(c.done as real, s, s);
    assert s / s == 1.0;
    assert 0.0 / s == 0.0;
    DivMonotone(0.0, c.done as real, s);
  }

  /** Between completions the fraction only moves forward. */
  lemma FractionGrowsWithTime(c: Counters, a: real, b: real)
    requires a <= b && Fraction(c, a).Some?
    ensures Fraction(c, b).Some? && Fraction(c, a).value <= Fraction(c, b).value
  {
    var mean := Seconds(c.last) / c.done as real;
    assert mean > 0.0;
    DivMonotone(RMax(Elapsed(c, a) - Seconds(c.last), 0.0), RMax(Elapsed(c, b) - Seconds(c.last), 0.0), mean);
    DivMonotone(c.done as real + Within(c, Elapsed(c, a)), c.done as real + Within(c, Elapsed(c, b)), c.segments as real);
  }

  /** The shown fraction is between 0 and 1 and never goes back until phase 2, whatever completes between two looks. */
  lemma {:induction false} NeverBackwards(c: Counters, a: real, times: seq<real>, b: real)
    requires Clock(a, times) && a <= b
    requires Fraction(c, a).Some? && Completions(c, times).done < c.segments
    ensures Fraction(Completions(c, times), b).Some?
    ensures 0.0 <= Fraction(c, a).value <= Fraction(Completions(c, times), b).value <= 1.0
  {
    FractionBand(c, a);
    if times == [] {
      FractionGrowsWithTime(c, a, b);
      FractionBand(c, b);
    } else {
      var d := Completions(c, times);
      CompletionsCount(c, times);
      assert d.last > 0;
      FractionBand(d, b);
      DivMonotone(c.done as real + 0.9, d.done as real, c.segments as real);
    }
  }

  lemma {:induction false} CompletionsCount(c: Counters, times: seq<real>)
    requires forall i :: 0 <= i < |times| ==> times[i] >= 0.0
    ensures Completions(c, times).done == c.done + |times| && Completions(c, times).segments == c.segments
  {
    if times != [] {
      CompletionsCount(c, times[..|times| - 1]);
    }
  }

  /** Completions of a fresh job: times are in order, and the first one stays the first. */
  lemma {:induction false} CompletionTimes(segments: nat, times: seq<real>)
    requires Clock(0.0, times) && times != []
    ensures var c := Completions(Counters(segments, 0, 0, 0, 0), times);
      && c.first == AtLeastOne(Millis(times[0])) && c.last == AtLeastOne(Millis(times[|times| - 1]))
      && c.first <= c.last && c.done == |times| && c.segments == segments
  {
    var start := Counters(segments, 0, 0, 0, 0);
    CompletionsCount(start, times);
    if |times| > 1 {
      CompletionTimes(segments, times[..|times| - 1]);
      CompletionsCount(start, times[..|times| - 1]);
    }
    assert times[0] * 1000.0 <= times[|times| - 1] * 1000.0;
  }

  lemma EstimateAtLeastLast(c: Counters)
    requires 1 <= c.done < c.segments && c.first <= c.last && (c.done == 1 ==> c.first == c.last)
    ensures Estimate(c).Some? && Estimate(c).value >= Seconds(c.last)
  {
    DivMonotone(c.first as real, c.last as real, 1000.0);
    if c.done == 1 {
      Grows(Seconds(c.first), 1.0, c.segments as real);
    } else {
      Extrapolates(Seconds(c.first), Seconds(c.last), (c.done - 1) as real, (c.segments - 1) as real);
    }
  }

  /** A projection never falls short of the last completion it was made from. */
  lemma EstimateCoversLast(segments: nat, times: seq<real>)
    requires Clock(0.0, times) && times != [] && |times| < segments
    ensures var c := Completions(Counters(segments, 0, 0, 0, 0), times);
      Estimate(c).Some? && Estimate(c).value >= Seconds(c.last)
  {
    CompletionTimes(segments, times);
    EstimateAtLeastLast(Completions(Counters(segments, 0, 0, 0, 0), times));
  }

  lemma Extrapolates(first: real, last: real, k: real, n: real)
    requires first <= last && 0.0 < k <= n
    ensures first + (last - first) / k * n >= last
  {
    var rate := (last - first) / k;
    DivMonotone(0.0, last - first, k);
    assert 0.0 / k == 0.0;
    assert rate * k == last - first;
    Grows(rate, k, n);
  }

  lemma Grows(x: real, a: real, b: real)
    requires x >= 0.0 && a <= b
    ensures x * a <= x * b
  {
    assert x * (b - a) >= 0.0;
  }

  /** While no segment lands, whatever is shown as remaining is positive and goes down exactly with the clock. */
  lemma RemainingCountsDown(c: Counters, a: real, b: real)
    requires c.finished == 0 && a <= b && Remaining(c, b).Some?
    ensures Remaining(c, a).Some? && Remaining(c, b).value > 0.0
    ensures Remaining(c, a).value - Remaining(c, b).value == b - a
  {
  }

  // Stopping the clock

  /** A snapshot after the clock was stopped shows the moment rounded to milliseconds. */
  lemma FinishFreezes(c: Counters, now: real, later: real)
    requires now >= 0.0 && c.finished == 0
    ensures Elapsed(Finish(c, now), later) == Seconds(AtLeastOne(Millis(now)))
    ensures Fraction(c, now).Some? ==> Fraction(Finish(c, now), later) == Fraction(c, Seconds(AtLeastOne(Millis(now))))
  {
  }

  /** Stopping the clock rounds it down, so finishing inside phase 1 can move the fraction back. */
  lemma FinishCanStepBack()
    ensures var c, now := Counters(2, 1, 1000, 1000, 0), 1.0005;
      Fraction(c, now).Some? && Fraction(Finish(c, now), now).Some? && Fraction(Finish(c, now), now).value < Fraction(c, now).value
  {
    var c, now := Counters(2, 1, 1000, 1000, 0), 1.0005;
    assert now * 1000.0 == 1000.5;
    assert Millis(now) == 1000;
    assert Within(c, now) == 0.0005;
    assert Within(c, 1.0) == 0.0;
  }

  /** Where a moment falls in the current segment: not past its start, past nine tenths of a mean segment, or between. */
  predicate Saturated(c: Counters, elapsed: real)
    requires c.done > 0 && c.last > 0
  {
    elapsed - Seconds(c.last) >= 0.9 * (Seconds(c.last) / c.done as real)
  }

  lemma WithinOrder(c: Counters, a: real, b: real)
    requires c.done > 0 && c.last > 0 && a < b
    ensures Within(c, a) < Within(c, b) <==> b > Seconds(c.last) && !Saturated(c, a)
    ensures Within(c, a) <= Within(c, b)
  {
    var l, mean := Seconds(c.last), Seconds(c.last) / c.done as real;
    assert mean > 0.0;
    var x, y := RMax(a - l, 0.0), RMax(b - l, 0.0);
    assert x / mean * mean == x;
    DivMonotone(x, y, mean);
    if x / mean >= 0.9 {
      Grows(mean, 0.9, x / mean);
    }
    if Saturated(c, a) {
      DivMonotone(0.9 * mean, x, mean);
      assert 0.9 * mean / mean == 0.9;
    }
    if b <= l {
      assert x == 0.0 && y == 0.0;
    } else {
      DivStrict(x, y, mean);
    }
  }

  /**
   Stopping the clock inside phase 1 moves the fraction back exactly when the moment, rounded to milliseconds, lies
   before the moment itself, the segment under way had begun to count, and the rounded moment had not reached the
   nine-tenths cap.
   */
  lemma FinishStepsBackIff(c: Counters, now: real)
    requires now >= 0.0 && c.finished == 0 && Fraction(c, now).Some?
    ensures var rounded := Seconds(AtLeastOne(Millis(now)));
      Fraction(Finish(c, now), now).value < Fraction(c, now).value <==>
        rounded < now && now > Seconds(c.last) && !Saturated(c, rounded)
  {
    var rounded := Seconds(AtLeastOne(Millis(now)));
    FinishFreezes(c, now, now);
    FractionBand(c, now);
    FractionBand(c, rounded);
    if rounded < now {
      WithinOrder(c, rounded, now);
      FractionOrder(c, rounded, now);
    } else {
      FractionGrowsWithTime(c, now, rounded);
    }
  }

  /** The cap at 1 never binds, so fractions compare as the positions inside the segment do. */
  lemma FractionOrder(c: Counters, a: real, b: real)
    requires c.finished == 0 && Fraction(c, a).Some?
    ensures Fraction(c, b).Some?
    ensures Fraction(c, a).value < Fraction(c, b).value <==> Within(c, a) < Within(c, b)
  {
    var s, x, y := c.segments as real, c.done as real + Within(c, a), c.done as real + Within(c, b);
    assert x <= s && y <= s;
    DivMonotone(x, s, s);
    DivMonotone(y, s, s);
    assert s / s == 1.0;
    if x < y {
      DivStrict(x, y, s);
    } else {
      DivMonotone(y, x, s);
    }
  }

  // What the figures are

  /** The projection runs through the first and the last completion; after one completion it is that one, times the segments. */
  lemma EstimateIs(c: Counters)
    ensures Estimate(c).Some? <==> 1 <= c.done < c.segments
    ensures Estimate(c).Some? && c.done == 1 ==> Estimate(c).value == Seconds(c.first) * c.segments as real
    ensures Estimate(c).Some? && c.done >= 2 ==>
      (Estimate(c).value - Seconds(c.first)) * (c.done - 1) as real == (Seconds(c.last) - Seconds(c.first)) * (c.segments - 1) as real
  {
    if Estimate(c).Some? && c.done >= 2 {
      Across(Seconds(c.last) - Seconds(c.first), (c.done - 1) as real, (c.segments - 1) as real);
    }
  }

  lemma Across(x: real, k: real, n: real)
    requires k > 0.0
    ensures x / k * n * k == x * n
  {
    assert x / k * k == x;
    assert x / k * n * k == x / k * k * n;
  }

  lemma Undo(x: real, k: real)
    requires k > 0.0
    ensures x * k / k == x
  {
    assert (x * k / k - x) * k == 0.0;
  }

  /** A job whose segments after the first each take the same time is projected to the millisecond, however slow the first was. */
  lemma SteadyIsExact(c: Counters, each: nat)
    requires 2 <= c.done < c.segments && c.last == c.first + each * (c.done - 1)
    ensures Estimate(c) == Some(Seconds(c.first) + Seconds(each) * (c.segments - 1) as real)
  {
    var k := (c.done - 1) as real;
    assert (each * (c.done - 1)) as real == each as real * k;
    assert c.last as real == c.first as real + each as real * k;
    assert Seconds(c.last) - Seconds(c.first) == Seconds(each) * k;
    Undo(Seconds(each), k);
    var rate := (Seconds(c.last) - Seconds(c.first)) / (c.done - 1) as real;
    assert rate == Seconds(each);
  }

  /** What is shown as remaining is the rest of the projection, and it is shown exactly while the clock has not reached that. */
  lemma RemainingIs(c: Counters, now: real)
    ensures Remaining(c, now).Some? <==> Estimate(c).Some? && Elapsed(c, now) < Estimate(c).value
    ensures Remaining(c, now).Some? ==> Elapsed(c, now) + Remaining(c, now).value == Estimate(c).value
  {
  }

  /** The first call wins: a job that is finished twice keeps its duration. */
  lemma FinishOnce(c: Counters, a: real, b: real)
    requires a >= 0.0 && b >= 0.0
    ensures Finish(Finish(c, a), b) == Finish(c, a)
    ensures c.finished > 0 ==> Finish(c, a) == c
  {
  }
}
