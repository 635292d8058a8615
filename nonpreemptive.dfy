/**
 * The run-to-completion engine shared by first come first serve, shortest
 * process next and highest response ratio next. The three disciplines differ
 * only in how they pick the next job, so one class carries the discipline as a
 * constant `policy`.
 */
module Nonpreemptive {
  import opened Jobs
  import opened Ordering
  import opened Schedulers

  /** The disciplines that run every job to completion once it is picked. */
  predicate IsNonpreemptive(policy: int)
  {
    policy == FirstComeFirstServe || policy == ShortestProcessNext || policy == HighestResponseRatioNext
  }

  /** How many jobs of `s` arrive strictly after `start` and strictly before `finish`. */
  function ArrivingWithin(s: seq<Job>, start: int, finish: int): nat
  {
    if s == [] then 0
    else ArrivingWithin(s[..|s| - 1], start, finish) + (if start < s[|s| - 1].arrivalTime < finish then 1 else 0)
  }

  /** The positions of `s` whose job arrives strictly inside (start, finish). */
  ghost function PositionsWithin(s: seq<Job>, start: int, finish: int): set<int>
  {
    set i | 0 <= i < |s| && start < s[i].arrivalTime < finish
  }

  /** The count is the number of positions whose job arrives inside the window. */
  lemma {:induction false} ArrivingWithinCountsPositions(s: seq<Job>, start: int, finish: int)
    ensures ArrivingWithin(s, start, finish) == |PositionsWithin(s, start, finish)|
    ensures ArrivingWithin(s, start, finish) <= |s|
  {
    if s != [] {
      var n := |s|;
      var init := s[..n - 1];
      ArrivingWithinCountsPositions(init, start, finish);
      var before := PositionsWithin(init, start, finish);
      var after := PositionsWithin(s, start, finish);
      if start < s[n - 1].arrivalTime < finish {
        assert after == before + {n - 1};
      } else {
        assert after == before;
      }
    }
  }

  /**
   * The sort mode in force for the next decision, given the mode `current`, the
   * jobs still waiting, and the window from the picked job's start to its
   * finish: first come first serve when fewer than two jobs wait, `mode` when
   * more than one of them arrives inside the window, `current` otherwise.
   */
  function NextSortMode(current: int, remaining: seq<Job>, start: int, finish: int, mode: int): (r: int)
    ensures |remaining| >= 2 && |PositionsWithin(remaining, start, finish)| >= 2 ==> r == mode
    ensures |remaining| >= 2 && |PositionsWithin(remaining, start, finish)| < 2 ==> r == current
    ensures |remaining| < 2 ==> r == FirstComeFirstServe
  {
    ArrivingWithinCountsPositions(remaining, start, finish);
    if |remaining| < 2 then FirstComeFirstServe
    else if ArrivingWithin(remaining, start, finish) > 1 then mode
    else current
  }

  /**
   * The mode in force after a pick at clock `start` of a job of the given
   * duration: first come first serve keeps its own mode; the other two
   * disciplines take `NextSortMode` over the picked job's run.
   */
  function ModeAfterPick(policy: int, current: int, rest: seq<Job>, start: int, duration: int): int
  {
    if policy == FirstComeFirstServe then FirstComeFirstServe
    else NextSortMode(current, rest, start, start + duration, policy)
  }

  /**
   * The mode never leaves {first come first serve, `mode`}: once contention has
   * switched it to `mode` it stays there until fewer than two jobs wait.
   */
  lemma NextSortModeStaysWithin(current: int, remaining: seq<Job>, start: int, finish: int, mode: int)
    requires current == FirstComeFirstServe || current == mode
    ensures var m := NextSortMode(current, remaining, start, finish, mode);
            m == FirstComeFirstServe || m == mode
    ensures |remaining| >= 2 && current == mode ==> NextSortMode(current, remaining, start, finish, mode) == mode
  {
  }

  /** With a window of at most one tick no job can arrive inside it, so the mode is kept. */
  lemma {:induction false} NarrowWindowKeepsMode(current: int, remaining: seq<Job>, start: int, mode: int)
    requires |remaining| >= 2
    ensures NextSortMode(current, remaining, start, start + 1, mode) == current
  {
    ArrivingWithinCountsPositions(remaining, start, start + 1);
    assert PositionsWithin(remaining, start, start + 1) == {};
  }

  /** What is left of the arrival order after a prefix is already in arrival order. */
  lemma ArrivalOrderOfSuffix(input: seq<Job>, done: seq<Job>, waiting: seq<Job>)
    requires done + waiting == ArrivalOrder(input)
    ensures ArrivalOrder(waiting) == waiting
  {
    var fcfs := ByMode(FirstComeFirstServe, 0);
    ArrivalOrderIsSort(0, input);
    SortSorted(fcfs, input);
    SortedSuffix(fcfs, done + waiting, |done|);
    assert (done + waiting)[|done|..] == waiting;
    SortOfSorted(fcfs, waiting);
    ArrivalOrderIsSort(0, waiting);
  }

  /**
   * One first come first serve pick keeps the run on the arrival order: before
   * the first pick the waiting list is the input, and after it the jobs run so
   * far followed by the waiting list are the input in arrival order.
   */
  lemma ArrivalOrderStep(input: seq<Job>, done: seq<Job>, waiting: seq<Job>)
    requires (done == [] && waiting == input) || done + waiting == ArrivalOrder(input)
    ensures done + ArrivalOrder(waiting) == ArrivalOrder(input)
  {
    if done + waiting == ArrivalOrder(input) {
      ArrivalOrderOfSuffix(input, done, waiting);
    }
  }

  /**
   * First come first serve takes the head of the waiting jobs in arrival order,
   * so the processed jobs, the job taken and the rest stay the arrival order of
   * the input.
   */
  lemma ArrivalPick(input: seq<Job>, done: seq<Job>, waiting: seq<Job>, f: int, job: Job, rest: seq<Job>)
    requires waiting != []
    requires (done == [] && waiting == input) || done + waiting == ArrivalOrder(input)
    requires job == Sort(ByMode(FirstComeFirstServe, f), waiting)[0]
    requires rest == Sort(ByMode(FirstComeFirstServe, f), waiting)[1..]
    ensures done + [job] + rest == ArrivalOrder(input)
  {
    ArrivalOrderStep(input, done, waiting);
    ArrivalOrderIsSort(f, waiting);
    SortHeadTail(ByMode(FirstComeFirstServe, f), waiting);
  }

  /**
   * The traces of jobs run back to back in the order of `s` from clock 0: each
   * waits until the jobs before it are done, then runs its whole duration.
   */
  function BackToBack(s: seq<Job>): (r: seq<seq<Marker>>)
    ensures |r| == |s|
  {
    if s == [] then []
    else BackToBack(s[..|s| - 1]) + [Waits(TotalDuration(s[..|s| - 1])) + Runs(s[|s| - 1].name, s[|s| - 1].duration)]
  }

  /** The job at position `k` waits for the jobs before it, then runs its whole duration. */
  lemma {:induction false} BackToBackAt(s: seq<Job>, k: int)
    requires 0 <= k < |s|
    ensures BackToBack(s)[k] == Waits(TotalDuration(s[..k])) + Runs(s[k].name, s[k].duration)
  {
    var n := |s|;
    if k < n - 1 {
      BackToBackAt(s[..n - 1], k);
      assert s[..n - 1][..k] == s[..k];
    }
  }

  /** Traces that follow the back-to-back schedule, job by job. */
  lemma TracesFollowSchedule(s: seq<Job>)
    requires Traces(s) == BackToBack(s)
    ensures forall k :: 0 <= k < |s| ==> s[k].runStat == Waits(TotalDuration(s[..k])) + Runs(s[k].name, s[k].duration)
  {
    forall k | 0 <= k < |s| ensures s[k].runStat == Waits(TotalDuration(s[..k])) + Runs(s[k].name, s[k].duration) {
      assert Traces(s)[k] == BackToBack(s)[k];
      BackToBackAt(s, k);
    }
  }

  class NonpreemptiveScheduler {
    const policy: int
    var listOfJobs: seq<Job>       // jobs not yet picked
    var processedJobs: seq<Job>    // jobs run to completion, in the order they ran
    var frame: int                 // the clock: start time of the next job
    var sortMode: int              // the comparator's mode for the next decision

    /**
     * A fresh engine over `jobs`: nothing processed, the clock at 0, and the
     * sort mode first come first serve, as creating the jobs leaves it.
     */
    constructor (jobs: seq<Job>, policy: int)
      requires IsNonpreemptive(policy)
      ensures this.policy == policy && listOfJobs == jobs && processedJobs == []
      ensures frame == 0 && sortMode == FirstComeFirstServe
    {
      this.policy := policy;
      listOfJobs := jobs;
      processedJobs := [];
      frame := 0;
      sortMode := FirstComeFirstServe;
    }

    /**
     * The base selection step: sort the waiting jobs stably under the current
     * mode and clock, then take the head. The job taken is the first minimum of
     * the list under that order, and the rest stays behind in sorted order.
     */
    method NextInOrder() returns (job: Job)
      requires listOfJobs != []
      modifies this`listOfJobs
      ensures job == Sort(ByMode(sortMode, frame), old(listOfJobs))[0]
      ensures listOfJobs == Sort(ByMode(sortMode, frame), old(listOfJobs))[1..]
      ensures |listOfJobs| == |old(listOfJobs)| - 1
      ensures multiset(listOfJobs) + multiset{job} == multiset(old(listOfJobs))
    {
      var sorted := Sort(ByMode(sortMode, frame), listOfJobs);
      SortSplit(ByMode(sortMode, frame), listOfJobs);
      job := sorted[0];
      listOfJobs := sorted[1..];
    }

    /**
     * The mode update after a pick: fewer than two jobs left means first come
     * first serve; otherwise every waiting job is scanned, and more than one
     * arriving strictly inside the picked job's run switches to `mode`.
     */
    method UpdateSortMode(currentJob: Job, mode: int)
      modifies this`sortMode
      ensures sortMode == NextSortMode(old(sortMode), listOfJobs, frame, frame + currentJob.duration, mode)
    {
      if |listOfJobs| < 2 {
        sortMode := FirstComeFirstServe;
      } else {
        var start := frame;
        var finish := start + currentJob.duration;
        var index := 0;
        var jobsWait := 0;
        while index < |listOfJobs|
          invariant 0 <= index <= |listOfJobs|
          invariant jobsWait == ArrivingWithin(listOfJobs[..index], start, finish)
        {
          assert listOfJobs[..index + 1][..index] == listOfJobs[..index];
          if listOfJobs[index].arrivalTime < finish && listOfJobs[index].arrivalTime > start {
            jobsWait := jobsWait + 1;
          }
          index := index + 1;
        }
        assert listOfJobs[..index] == listOfJobs;
        if jobsWait > 1 {
          sortMode := mode;
        }
      }
    }

    /**
     * The discipline's pick. First come first serve forces its own mode before
     * sorting; the other two sort under the mode in force and then update it
     * with their own mode as the candidate.
     */
    method Next() returns (job: Job)
      requires listOfJobs != [] && IsNonpreemptive(policy)
      modifies this`listOfJobs, this`sortMode
      ensures var o := ByMode(if policy == FirstComeFirstServe then FirstComeFirstServe else old(sortMode), frame);
              job == Sort(o, old(listOfJobs))[0] && listOfJobs == Sort(o, old(listOfJobs))[1..]
      ensures sortMode == ModeAfterPick(policy, old(sortMode), listOfJobs, frame, job.duration)
      ensures |listOfJobs| == |old(listOfJobs)| - 1
      ensures multiset(listOfJobs) + multiset{job} == multiset(old(listOfJobs))
    {
      if policy == FirstComeFirstServe {
        sortMode := FirstComeFirstServe;
        job := NextInOrder();
      } else {
        job := NextInOrder();
        UpdateSortMode(job, policy);
      }
    }
  
    /** Puts the picked job to work: it waits until the clock, then runs its whole duration. */
    method Execute(job: Job)
      modifies job`runStat, job`runTime, this`processedJobs, this`frame
      ensures job.runStat == old(job.runStat) + Waits(old(frame)) + Runs(job.name, job.duration)
      ensures old(job.runStat) == [] ==> job.runStat == Waits(old(frame)) + Runs(job.name, job.duration)
      ensures job.runTime == old(job.runTime)
      ensures processedJobs == old(processedJobs) + [job]
      ensures frame == old(frame) + job.duration
    {
      job.RunSlice(0, frame);
      assert Runs(job.name, 0) == [];
      job.RunComplete();
      processedJobs := processedJobs + [job];
      frame := frame + job.duration;
    }

    /** The pick, as the engine loop needs it: which job, and where the rest of the run stands. */
    method Pick(ghost input: seq<Job>, ghost done: seq<Job>) returns (job: Job)
      requires listOfJobs != [] && IsNonpreemptive(policy)
      requires sortMode == FirstComeFirstServe || sortMode == policy
      requires policy == FirstComeFirstServe ==>
                 (done == [] && listOfJobs == input) || done + listOfJobs == ArrivalOrder(input)
      modifies this`listOfJobs, this`sortMode
      ensures var o := ByMode(if policy == FirstComeFirstServe then FirstComeFirstServe else old(sortMode), frame);
              job == old(Sort(o, listOfJobs))[0] && listOfJobs == old(Sort(o, listOfJobs))[1..]
      ensures job in old(listOfJobs) && |listOfJobs| == |old(listOfJobs)| - 1
      ensures multiset(listOfJobs) + multiset{job} == multiset(old(listOfJobs))
      ensures sortMode == FirstComeFirstServe || sortMode == policy
      ensures sortMode == ModeAfterPick(policy, old(sortMode), listOfJobs, frame, job.duration)
      ensures policy == FirstComeFirstServe ==> done + [job] + listOfJobs == ArrivalOrder(input)
    {
      ghost var waiting := listOfJobs;
      ghost var mode := sortMode;
      job := Next();
      assert policy == FirstComeFirstServe ==> done + [job] + listOfJobs == ArrivalOrder(input) by {
        if policy == FirstComeFirstServe {
          ArrivalPick(input, done, waiting, frame, job, listOfJobs);
        }
      }
      assert sortMode == FirstComeFirstServe || sortMode == policy by {
        if policy != FirstComeFirstServe {
          NextSortModeStaysWithin(mode, listOfJobs, frame, frame + job.duration, policy);
        }
      }
      assert job in multiset(waiting);
    }

    /**
     * What the processed jobs show so far: the clock is their durations added
     * up, they ran back to back, nobody's run counter moved, and a job of the
     * input not processed yet has an empty trace.
     */
    ghost predicate RunRecord(input: seq<Job>)
      reads this`frame, this`processedJobs, input, processedJobs
    {
      frame == TotalDuration(processedJobs) &&
      Traces(processedJobs) == BackToBack(processedJobs) &&
      (forall j {:trigger j in input} :: j in input ==> j.runTime == 0) &&
      (forall j {:trigger j in input} :: j in input && j !in processedJobs ==> j.runStat == [])
    }

    /**
     * Where a run over `input` stands between two picks: the processed jobs and
     * the waiting ones are the input, the record holds, and first come first
     * serve has processed a prefix of the arrival order.
     */
    ghost predicate RunInvariant(input: seq<Job>)
      reads this, input, processedJobs
    {
      IsNonpreemptive(policy) && Distinct(input) &&
      multiset(processedJobs + listOfJobs) == multiset(input) &&
      RunRecord(input) &&
      (sortMode == FirstComeFirstServe || sortMode == policy) &&
      (policy == FirstComeFirstServe ==>
         (processedJobs == [] && listOfJobs == input) || processedJobs + listOfJobs == ArrivalOrder(input))
    }

    /** Executes a job of the input not processed yet; the record still holds. */
    method Complete(job: Job, ghost input: seq<Job>)
      requires RunRecord(input) && job in input && job !in processedJobs
      modifies job`runStat, job`runTime, this`processedJobs, this`frame
      ensures RunRecord(input)
      ensures processedJobs == old(processedJobs) + [job] && frame == old(frame) + job.duration
      ensures job.runStat == Waits(old(frame)) + Runs(job.name, job.duration)
    {
      ghost var done := processedJobs;
      ghost var before := Traces(done);
      Execute(job);
      forall k | 0 <= k < |done| ensures done[k].runStat == before[k] {
        assert done[k] != job;
      }
      TracesSnoc(done, job, before);
      assert (done + [job])[..|done|] == done;
    }

    /**
     * One pass of the engine loop: pick the head of the waiting jobs sorted
     * under the discipline's mode, update the mode, then run the job to
     * completion from the clock and append it to the processed jobs.
     */
    method Step(ghost input: seq<Job>) returns (job: Job)
      requires listOfJobs != [] && RunInvariant(input)
      modifies this, input
      ensures RunInvariant(input)
      ensures var o := ByMode(if policy == FirstComeFirstServe then FirstComeFirstServe else old(sortMode), old(frame));
              job == old(Sort(o, listOfJobs))[0] && listOfJobs == old(Sort(o, listOfJobs))[1..]
      ensures processedJobs == old(processedJobs) + [job] && frame == old(frame) + job.duration
      ensures job.runStat == Waits(old(frame)) + Runs(job.name, job.duration)
      ensures |listOfJobs| == |old(listOfJobs)| - 1
      ensures sortMode == ModeAfterPick(policy, old(sortMode), listOfJobs, old(frame), job.duration)
    {
      ghost var done, waiting := processedJobs, listOfJobs;
      ghost var sorted := Sort(ByMode(if policy == FirstComeFirstServe then FirstComeFirstServe else sortMode, frame), waiting);
      job := Pick(input, done);
      assert job == sorted[0] && listOfJobs == sorted[1..];
      WaitingIsFresh(input, done, waiting, job);
      Advance(job, input, done, waiting);
    }

    /** Runs the picked job to completion; the run stands where the invariant says again. */
    method Advance(job: Job, ghost input: seq<Job>, ghost done: seq<Job>, ghost waiting: seq<Job>)
      requires IsNonpreemptive(policy) && Distinct(input) && RunRecord(input) && processedJobs == done
      requires multiset(done + waiting) == multiset(input) && job in input && job !in done
      requires multiset(listOfJobs) + multiset{job} == multiset(waiting)
      requires sortMode == FirstComeFirstServe || sortMode == policy
      requires policy == FirstComeFirstServe ==> done + [job] + listOfJobs == ArrivalOrder(input)
      modifies job`runStat, job`runTime, this`processedJobs, this`frame
      ensures RunInvariant(input)
      ensures processedJobs == done + [job] && frame == old(frame) + job.duration
      ensures job.runStat == Waits(old(frame)) + Runs(job.name, job.duration)
      ensures listOfJobs == old(listOfJobs) && sortMode == old(sortMode)
    {
      ghost var list, mode := listOfJobs, sortMode;
      Complete(job, input);
      assert listOfJobs == list && sortMode == mode;
      assert done + [job] + listOfJobs == processedJobs + listOfJobs;
    }

    /** Before the first pick: nothing processed, every input job pristine. */
    lemma InvariantAtStart()
      requires IsNonpreemptive(policy)
      requires processedJobs == [] && frame == 0 && sortMode == FirstComeFirstServe
      requires Distinct(listOfJobs)
      requires forall i :: 0 <= i < |listOfJobs| ==> listOfJobs[i].runTime == 0 && listOfJobs[i].runStat == []
      ensures RunInvariant(listOfJobs)
    {
    }

    /** After the last pick: every input job processed, with the record of the run. */
    lemma InvariantAtEnd(input: seq<Job>)
      requires RunInvariant(input) && listOfJobs == []
      ensures multiset(processedJobs) == multiset(input)
      ensures frame == TotalDuration(processedJobs)
      ensures Traces(processedJobs) == BackToBack(processedJobs)
      ensures forall k :: 0 <= k < |processedJobs| ==> processedJobs[k].runTime == 0
      ensures policy == FirstComeFirstServe ==> processedJobs == ArrivalOrder(input)
    {
      assert processedJobs + listOfJobs == processedJobs;
      forall k | 0 <= k < |processedJobs| ensures processedJobs[k] in input {
        assert processedJobs[k] in multiset(input);
      }
    }

    /**
     * The engine loop: pick, wait until the clock, run to completion, record,
     * advance the clock by the duration. Every input job is processed exactly
     * once; a job started at clock f shows f waits then its duration in runs;
     * the clock ends at the sum of the durations; first come first serve runs
     * the input in stable arrival order.
     */
    method RunJobs()
      requires IsNonpreemptive(policy)
      requires processedJobs == [] && frame == 0 && sortMode == FirstComeFirstServe
      requires Distinct(listOfJobs)
      requires forall i :: 0 <= i < |listOfJobs| ==> listOfJobs[i].runTime == 0 && listOfJobs[i].runStat == []
      modifies this, listOfJobs
      ensures listOfJobs == []
      ensures multiset(processedJobs) == multiset(old(listOfJobs))
      ensures frame == TotalDuration(processedJobs)
      ensures Traces(processedJobs) == BackToBack(processedJobs)
      ensures forall k :: 0 <= k < |processedJobs| ==> processedJobs[k].runTime == 0
      ensures policy == FirstComeFirstServe ==> processedJobs == ArrivalOrder(old(listOfJobs))
    {
      ghost var input := listOfJobs;
      InvariantAtStart();
      while listOfJobs != []
        invariant RunInvariant(input)
        decreases |listOfJobs|
      {
        var _ := Step(input);
      }
      InvariantAtEnd(input);
    }

    /**
     * The whole run: the engine loop, then the output step, which prints the
     * ruler as long as the clock and leaves the processed jobs in
     * case-insensitive name order.
     */
    method Run() returns (ruler: seq<int>, ghost order: seq<Job>)
      requires IsNonpreemptive(policy)
      requires processedJobs == [] && frame == 0 && sortMode == FirstComeFirstServe
      requires Distinct(listOfJobs)
      requires forall i :: 0 <= i < |listOfJobs| ==> listOfJobs[i].runTime == 0 && listOfJobs[i].runStat == []
      modifies this, listOfJobs
      ensures listOfJobs == []
      ensures Sorted(ByName, processedJobs) && multiset(processedJobs) == multiset(old(listOfJobs))
      ensures |ruler| == frame == TotalDuration(processedJobs)
      ensures forall t :: 0 <= t < |ruler| ==> ruler[t] == t % 10
      ensures multiset(order) == multiset(processedJobs) && Traces(order) == BackToBack(order)
      ensures processedJobs == Sort(ByName, order)
      ensures policy == FirstComeFirstServe ==> order == ArrivalOrder(old(listOfJobs))
    {
      RunJobs();
      order := processedJobs;
      ruler := Report();
    }

    /** The output step of a finished run: the ruler, then the processed jobs in name order. */
    method Report() returns (ruler: seq<int>)
      requires frame == TotalDuration(processedJobs)
      modifies this`processedJobs
      ensures processedJobs == Sort(ByName, old(processedJobs))
      ensures Sorted(ByName, processedJobs) && multiset(processedJobs) == multiset(old(processedJobs))
      ensures |ruler| == frame == TotalDuration(processedJobs)
      ensures forall t :: 0 <= t < |ruler| ==> ruler[t] == t % 10
    {
      var ran := processedJobs;
      var listing;
      ruler, listing := PrintList(ran);
      TotalDurationPermutation(ran, listing);
      processedJobs := listing;
    }
  }
}
