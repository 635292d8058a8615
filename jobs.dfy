/**
 * The job record: a named job with an arrival time and a duration, the number
 * of ticks it has run so far and a per-tick trace of what it did, together with
 * the comparator that orders jobs under the current sort mode.
 */
module Jobs {

  /** One tick of a job's trace: the job ran (its name is shown) or it waited (a blank). */
  datatype Marker = Run(name: string) | Wait

  type Positive = x: int | x > 0 witness 1

  // Scheduling disciplines, with the numeric codes the program uses for them.
  // The same codes serve as the sort modes of the comparator.
  const FirstComeFirstServe: int := 1
  const RoundRobin: int := 2
  const ShortestProcessNext: int := 3
  const ShortestRemainingTime: int := 4
  const HighestResponseRatioNext: int := 5
  const Feedback: int := 6

  /** The sort modes under which the comparator is an ordering. */
  predicate IsSortMode(mode: int)
  {
    mode == FirstComeFirstServe || mode == ShortestProcessNext ||
    mode == HighestResponseRatioNext || mode == ShortestRemainingTime
  }

  /** `n` run markers of the job called `name`; none when `n <= 0`, as a counted loop does. */
  function Runs(name: string, n: int): (r: seq<Marker>)
    decreases n
    ensures |r| == if n <= 0 then 0 else n
    ensures forall i :: 0 <= i < |r| ==> r[i] == Run(name)
  {
    if n <= 0 then [] else Runs(name, n - 1) + [Run(name)]
  }

  /** `n` wait markers; none when `n <= 0`. */
  function Waits(n: int): (r: seq<Marker>)
    decreases n
    ensures |r| == if n <= 0 then 0 else n
    ensures forall i :: 0 <= i < |r| ==> r[i] == Wait
  {
    if n <= 0 then [] else Waits(n - 1) + [Wait]
  }

  /** Two blocks of wait markers make one block of the summed length. */
  lemma WaitsAppend(a: nat, b: nat)
    ensures Waits(a) + Waits(b) == Waits(a + b)
  {
  }

  /** The number of ticks a trace records as running. */
  function RunTicks(trace: seq<Marker>): nat
  {
    if trace == [] then 0
    else RunTicks(trace[..|trace| - 1]) + (if trace[|trace| - 1].Run? then 1 else 0)
  }

  /** Every marker of `trace` is a wait or a run of the job called `name`. */
  predicate TaggedWith(trace: seq<Marker>, name: string)
  {
    forall i :: 0 <= i < |trace| ==> trace[i] == Wait || trace[i] == Run(name)
  }

  lemma {:induction false} RunTicksAppend(a: seq<Marker>, b: seq<Marker>)
    ensures RunTicks(a + b) == RunTicks(a) + RunTicks(b)
    decreases |b|
  {
    if b != [] {
      var b' := b[..|b| - 1];
      assert (a + b)[..|a + b| - 1] == a + b';
      assert b[..|b| - 1] == b';
      RunTicksAppend(a, b');
    } else {
      assert a + b == a;
    }
  }

  /** A trace of runs only counts every tick; a trace of waits only counts none. */
  lemma {:induction false} RunTicksUniform(trace: seq<Marker>, m: Marker)
    requires forall i :: 0 <= i < |trace| ==> trace[i] == m
    ensures RunTicks(trace) == if m.Run? then |trace| else 0
  {
    if trace != [] {
      var n := |trace|;
      RunTicksUniform(trace[..n - 1], m);
    }
  }

  /** A block of `n` run markers counts `n` run ticks, none when `n <= 0`. */
  lemma RunTicksOfRuns(name: string, n: int)
    ensures RunTicks(Runs(name, n)) == if n <= 0 then 0 else n
  {
    RunTicksUniform(Runs(name, n), Run(name));
  }

  /** A block of wait markers counts no run tick. */
  lemma RunTicksOfWaits(n: int)
    ensures RunTicks(Waits(n)) == 0
  {
    RunTicksUniform(Waits(n), Wait);
  }

  /** Three-way comparison of two exact ratios: negative, zero or positive. */
  function RatioCompare(x: real, y: real): (r: int)
    ensures -1 <= r <= 1
    ensures r < 0 <==> x < y
    ensures r == 0 <==> x == y
  {
    if x < y then -1 else if x == y then 0 else 1
  }

  /** Three-way comparison of two integers. */
  function IntCompare(x: int, y: int): (r: int)
    ensures -1 <= r <= 1
    ensures r < 0 <==> x < y
    ensures r == 0 <==> x == y
  {
    if x < y then -1 else if x == y then 0 else 1
  }

  class Job {
    const name: string
    const arrivalTime: nat
    const duration: Positive
    var runTime: int              // ticks the job has run
    var runStat: seq<Marker>      // what the job did, tick by tick

    constructor (name: string, arrivalTime: nat, duration: Positive)
      ensures this.name == name && this.arrivalTime == arrivalTime && this.duration == duration
      ensures runTime == 0 && runStat == []
      ensures RemainingTime() == duration
    {
      this.name := name;
      this.arrivalTime := arrivalTime;
      this.duration := duration;
      runTime := 0;
      runStat := [];
    }

    /**
     * Ticks the job still needs: some are left exactly while it has run less
     * than its duration, and never more than the duration once it has run.
     */
    function RemainingTime(): (r: int)
      reads this`runTime
      ensures r > 0 <==> runTime < duration
      ensures runTime >= 0 ==> r <= duration
    {
      duration - runTime
    }

    /**
     * The response ratio `(wait + duration) / duration` at clock `frame`,
     * exactly: 1 at the arrival time, above 1 once the job has waited, below
     * 1 before it arrives.
     */
    function ResponseRatio(frame: int): (r: real)
      ensures r == 1.0 <==> frame == arrivalTime
      ensures r > 1.0 <==> frame > arrivalTime
    {
      ((frame - arrivalTime + duration) as real) / (duration as real)
    }

    /** Appends the whole duration as run markers; the run counter is left alone. */
    method RunComplete()
      modifies this`runStat
      ensures runStat == old(runStat) + Runs(name, duration)
      ensures RunTicks(runStat) == RunTicks(old(runStat)) + duration
    {
      var time := 0;
      while time < duration
        invariant 0 <= time <= duration
        invariant runStat == old(runStat) + Runs(name, time)
      {
        runStat := runStat + [Run(name)];
        time := time + 1;
      }
      RunTicksOfRuns(name, duration);
      RunTicksAppend(old(runStat), Runs(name, duration));
    }

    /** Runs the job `timeSlice` ticks, then lets it wait `wait` ticks. */
    method RunSlice(timeSlice: int, wait: int)
      modifies this`runStat, this`runTime
      ensures runStat == old(runStat) + Runs(name, timeSlice) + Waits(wait)
      ensures runTime == old(runTime) + timeSlice
      ensures RemainingTime() == old(RemainingTime()) - timeSlice
    {
      var t := 0;
      while t < timeSlice
        invariant 0 <= t && (timeSlice <= 0 ==> t == 0) && (timeSlice > 0 ==> t <= timeSlice)
        invariant runStat == old(runStat) + Runs(name, t)
        invariant runTime == old(runTime)
      {
        runStat := runStat + [Run(name)];
        t := t + 1;
      }
      runTime := runTime + timeSlice;
      ghost var ran := runStat;
      var w := 0;
      while w < wait
        invariant 0 <= w && (wait <= 0 ==> w == 0) && (wait > 0 ==> w <= wait)
        invariant runStat == ran + Waits(w)
        invariant runTime == old(runTime) + timeSlice
      {
        runStat := runStat + [Wait];
        w := w + 1;
      }
      assert Runs(name, t) == Runs(name, timeSlice);
      assert Waits(w) == Waits(wait);
    }

    /**
     * The comparator the engines sort by: negative when this job goes first.
     * First come first serve orders by arrival, shortest process next by
     * duration, highest response ratio next by descending ratio at clock
     * `frame`, shortest remaining time by remaining time; any other mode
     * answers 1 whatever the jobs.
     */
    function CompareTo(o: Job, sortMode: int, frame: int): (r: int)
      reads this`runTime, o`runTime
      ensures -1 <= r <= 1
      ensures sortMode == FirstComeFirstServe ==>
                (r < 0 <==> arrivalTime < o.arrivalTime) && (r == 0 <==> arrivalTime == o.arrivalTime)
      ensures sortMode == ShortestProcessNext ==>
                (r < 0 <==> duration < o.duration) && (r == 0 <==> duration == o.duration)
      ensures sortMode == HighestResponseRatioNext ==>
                (r < 0 <==> ResponseRatio(frame) > o.ResponseRatio(frame)) &&
                (r == 0 <==> ResponseRatio(frame) == o.ResponseRatio(frame))
      ensures sortMode == ShortestRemainingTime ==>
                (r < 0 <==> RemainingTime() < o.RemainingTime()) && (r == 0 <==> RemainingTime() == o.RemainingTime())
      ensures !IsSortMode(sortMode) ==> r == 1
    {
      if sortMode == FirstComeFirstServe then IntCompare(arrivalTime, o.arrivalTime)
      else if sortMode == ShortestProcessNext then IntCompare(duration, o.duration)
      else if sortMode == HighestResponseRatioNext then RatioCompare(o.ResponseRatio(frame), ResponseRatio(frame))
      else if sortMode == ShortestRemainingTime then IntCompare(RemainingTime(), o.RemainingTime())
      else 1
    }

    /**
     * The comparator of the earlier copy of the job record, written as
     * explicit less / equal / greater tests instead of library comparisons.
     * Under every sort mode it answers by the same key as `CompareTo`.
     */
    function LegacyCompareTo(o: Job, sortMode: int, frame: int): (r: int)
      reads this`runTime, o`runTime
      ensures -1 <= r <= 1
      ensures sortMode == FirstComeFirstServe ==>
                (r < 0 <==> arrivalTime < o.arrivalTime) && (r == 0 <==> arrivalTime == o.arrivalTime)
      ensures sortMode == ShortestProcessNext ==>
                (r < 0 <==> duration < o.duration) && (r == 0 <==> duration == o.duration)
      ensures sortMode == HighestResponseRatioNext ==>
                (r < 0 <==> ResponseRatio(frame) > o.ResponseRatio(frame)) &&
                (r == 0 <==> ResponseRatio(frame) == o.ResponseRatio(frame))
      ensures sortMode == ShortestRemainingTime ==>
                (r < 0 <==> RemainingTime() < o.RemainingTime()) && (r == 0 <==> RemainingTime() == o.RemainingTime())
      ensures !IsSortMode(sortMode) ==> r == 1
    {
      if sortMode == FirstComeFirstServe then
        if arrivalTime < o.arrivalTime then -1 else if arrivalTime == o.arrivalTime then 0 else 1
      else if sortMode == ShortestProcessNext then
        if duration < o.duration then -1 else if duration == o.duration then 0 else 1
      else if sortMode == HighestResponseRatioNext then
        var thisRatio := ResponseRatio(frame);
        var rRatio := o.ResponseRatio(frame);
        if thisRatio > rRatio then -1 else if thisRatio == rRatio then 0 else 1
      else if sortMode == ShortestRemainingTime then
        if RemainingTime() < o.RemainingTime() then -1
        else if RemainingTime() == o.RemainingTime() then 0
        else 1
      else 1
    }
  }

  /** In every sort mode the comparator compares a job with itself as equal. */
  lemma CompareToReflexive(a: Job, mode: int, frame: int)
    requires IsSortMode(mode)
    ensures a.CompareTo(a, mode, frame) == 0
  {
  }

  /** Swapping the two jobs negates the answer, so any two jobs are comparable. */
  lemma CompareToAntisymmetric(a: Job, b: Job, mode: int, frame: int)
    requires IsSortMode(mode)
    ensures a.CompareTo(b, mode, frame) == -b.CompareTo(a, mode, frame)
  {
  }

  lemma CompareToTransitive(a: Job, b: Job, c: Job, mode: int, frame: int)
    requires IsSortMode(mode)
    requires a.CompareTo(b, mode, frame) <= 0 && b.CompareTo(c, mode, frame) <= 0
    ensures a.CompareTo(c, mode, frame) <= 0
  {
  }

  /** Outside the four sort modes a job compares after itself: no order at all. */
  lemma CompareToOutsideSortModes(a: Job, b: Job, mode: int, frame: int)
    requires !IsSortMode(mode)
    ensures a.CompareTo(b, mode, frame) == 1 && b.CompareTo(a, mode, frame) == 1
    ensures a.CompareTo(a, mode, frame) == 1
  {
  }

  /** A job that arrives at the current clock has response ratio exactly 1. */
  lemma ResponseRatioAtArrival(j: Job)
    ensures j.ResponseRatio(j.arrivalTime) == 1.0
  {
  }

  /** With arrival and duration fixed, the ratio never decreases as the clock advances. */
  lemma ResponseRatioMonotone(j: Job, f1: int, f2: int)
    requires f1 <= f2
    ensures j.ResponseRatio(f1) <= j.ResponseRatio(f2)
  {
    var d := j.duration as real;
    var n1 := (f1 - j.arrivalTime + j.duration) as real;
    var n2 := (f2 - j.arrivalTime + j.duration) as real;
    assert n1 <= n2;
    assert n1 / d <= n2 / d;
  }

  /**
   * Comparing ratios is comparing integer cross products: a job with the
   * larger `(frame - arrival + duration) / duration` goes first.
   */
  lemma ResponseRatioCrossMultiply(a: Job, b: Job, frame: int)
    ensures a.ResponseRatio(frame) < b.ResponseRatio(frame) <==>
            (frame - a.arrivalTime + a.duration) * b.duration < (frame - b.arrivalTime + b.duration) * a.duration
    ensures a.ResponseRatio(frame) == b.ResponseRatio(frame) <==>
            (frame - a.arrivalTime + a.duration) * b.duration == (frame - b.arrivalTime + b.duration) * a.duration
  {
    QuotientsCompare(frame - a.arrivalTime + a.duration, a.duration, frame - b.arrivalTime + b.duration, b.duration);
  }

  /** Two quotients with positive denominators compare as their cross products. */
  lemma QuotientsCompare(na: int, da: int, nb: int, db: int)
    requires da > 0 && db > 0
    ensures (na as real) / (da as real) < (nb as real) / (db as real) <==> na * db < nb * da
    ensures (na as real) / (da as real) == (nb as real) / (db as real) <==> na * db == nb * da
  {
    var x, y := (na as real) / (da as real), (nb as real) / (db as real);
    assert x * (da as real * db as real) == na as real * db as real;
    assert y * (da as real * db as real) == nb as real * da as real;
    assert (na * db) as real == na as real * db as real;
    assert (nb * da) as real == nb as real * da as real;
  }

  /** Under the ratio mode the comparator answers by the cross products. */
  lemma CompareToByResponseRatio(a: Job, b: Job, frame: int)
    ensures a.CompareTo(b, HighestResponseRatioNext, frame) ==
            IntCompare((frame - b.arrivalTime + b.duration) * a.duration,
                       (frame - a.arrivalTime + a.duration) * b.duration)
  {
    ResponseRatioCrossMultiply(b, a, frame);
  }

  /** The earlier comparator and the current one give the same answer on all jobs, modes and clocks. */
  lemma LegacyCompareToAgrees(a: Job, b: Job, mode: int, frame: int)
    ensures a.LegacyCompareTo(b, mode, frame) == a.CompareTo(b, mode, frame)
  {
  }
}
