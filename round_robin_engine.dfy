/**
 * The round-robin engine: the scheduler object whose run admits arrivals,
 * dispatches the head of the ready queue for one slice and retires it, on the
 * policy of module `RoundRobin`.
 */
module RoundRobinEngine {
  import opened Jobs
  import opened Ordering
  import opened Schedulers
  import opened JobStates
  import opened RoundRobin
  import Preemptive

  class RoundRobinScheduler {
    const quantum: Positive
    var listOfJobs: seq<Job>       // jobs not yet admitted, by arrival once the run starts
    var processedJobs: seq<Job>    // finished jobs, in the order they finished
    var frame: int                 // the clock
    var sortMode: int              // the comparator's mode
    var queue: seq<Job>            // the ready queue of the current run
    var jobDone: bool              // a job finished in the last slice and none was admitted since

    /** A fresh engine over `jobs` with the given quantum, the clock at 0. */
    constructor (jobs: seq<Job>, quantum: Positive)
      ensures this.quantum == quantum && listOfJobs == jobs && processedJobs == []
      ensures frame == 0 && sortMode == FirstComeFirstServe && queue == [] && !jobDone
    {
      this.quantum := quantum;
      listOfJobs := jobs;
      processedJobs := [];
      frame := 0;
      sortMode := FirstComeFirstServe;
      queue := [];
      jobDone := false;
    }

    /** The invariant of a run over `input`, on the jobs' current states. */
    ghost predicate RunInvariant(input: seq<Job>)
      reads this`processedJobs, this`queue, this`listOfJobs, this`frame, input
    {
      Preemptive.InvariantByArrival(input, States(input), processedJobs, queue, listOfJobs, frame)
    }

    /**
     * The start of a run: an empty ready queue, the list sorted by arrival
     * (stably) and the clock back at 0; no job changes.
     */
    method Start(ghost input: seq<Job>)
      modifies this`queue, this`jobDone, this`sortMode, this`listOfJobs, this`frame
      ensures queue == [] && !jobDone && sortMode == FirstComeFirstServe && frame == 0
      ensures listOfJobs == ArrivalOrder(old(listOfJobs))
      ensures States(input) == old(States(input))
    {
      queue := [];
      jobDone := false;
      sortMode := FirstComeFirstServe;
      var sorted := Sort(ByMode(sortMode, frame), listOfJobs);
      ArrivalOrderIsSort(frame, listOfJobs);
      listOfJobs := sorted;
      frame := 0;
    }

    /**
     * The admission phase: while the head of the list has arrived by the
     * clock, it joins the ready queue. The jobs taken are the longest prefix
     * of the list that has arrived, and they join as `AdmitAll` says.
     */
    method Admit()
      modifies this`listOfJobs, this`queue, this`jobDone
      ensures |listOfJobs| <= |old(listOfJobs)|
      ensures var admitted := old(listOfJobs)[..|old(listOfJobs)| - |listOfJobs|];
              old(listOfJobs) == admitted + listOfJobs &&
              (forall k :: 0 <= k < |admitted| ==> admitted[k].arrivalTime <= frame) &&
              (queue, jobDone) == AdmitAll(old(queue), old(jobDone), admitted)
      ensures listOfJobs == [] || listOfJobs[0].arrivalTime > frame
      ensures |queue| + |listOfJobs| == |old(queue)| + |old(listOfJobs)|
    {
      var list, q, done := listOfJobs, queue, jobDone;
      ghost var i := 0;
      while list != [] && list[0].arrivalTime <= frame
        invariant 0 <= i <= |listOfJobs| && list == listOfJobs[i..]
        invariant forall k :: 0 <= k < i ==> listOfJobs[k].arrivalTime <= frame
        invariant (q, done) == AdmitAll(queue, jobDone, listOfJobs[..i])
        decreases |list|
      {
        var job := list[0];
        list := list[1..];
        if q == [] || done {
          q := q + [job];
          if done {
            done := false;
          }
        } else {
          q := q[..|q| - 1] + [job] + [q[|q| - 1]];
        }
        assert listOfJobs[..i + 1][..i] == listOfJobs[..i];
        i := i + 1;
      }
      assert listOfJobs == listOfJobs[..i] + list;
      listOfJobs, queue, jobDone := list, q, done;
    }

    /**
     * The admission phase keeps the invariant of the run; it takes the
     * arrived prefix of the list into the queue as `AdmitAll` says.
     */
    method AdmitArrivals(ghost input: seq<Job>)
      requires RunInvariant(input)
      modifies this`listOfJobs, this`queue, this`jobDone
      ensures RunInvariant(input) && frame == old(frame)
      ensures |listOfJobs| <= |old(listOfJobs)|
      ensures var admitted := old(listOfJobs)[..|old(listOfJobs)| - |listOfJobs|];
              old(listOfJobs) == admitted + listOfJobs &&
              (forall k :: 0 <= k < |admitted| ==> admitted[k].arrivalTime <= frame) &&
              (queue, jobDone) == AdmitAll(old(queue), old(jobDone), admitted)
      ensures listOfJobs == [] || listOfJobs[0].arrivalTime > frame
      ensures |queue| + |listOfJobs| == |old(queue)| + |old(listOfJobs)|
    {
      ghost var st, list, q, done := States(input), listOfJobs, queue, jobDone;
      Admit();
      assert States(input) == st;
      AdmitKeepsInvariant(input, st, processedJobs, q, done, list[..|list| - |listOfJobs|], listOfJobs, frame);
    }

    /** Takes the head of the ready queue and works out its slice; no job changes. */
    method Dispatch(ghost input: seq<Job>) returns (job: Job, slice: int)
      requires queue != []
      modifies this`queue
      ensures job == old(queue)[0] && queue == old(queue)[1..]
      ensures slice == SliceLength(quantum, job.RemainingTime())
      ensures States(input) == old(States(input))
    {
      job := queue[0];
      queue := queue[1..];
      slice := if quantum < job.RemainingTime() then quantum else job.RemainingTime();
    }

    /**
     * The head job runs `slice` ticks, then every job in the queue and every
     * job not yet admitted waits `slice` ticks. The clock does not move yet.
     */
    method Execute(job: Job, slice: int, ghost input: seq<Job>)
      requires job in input && job !in queue && job !in listOfJobs
      requires Distinct(queue) && Distinct(listOfJobs)
      requires forall j {:trigger j in queue} :: j in queue ==> j !in listOfJobs
      modifies job, queue, listOfJobs
      ensures States(input) == AfterSlice(old(States(input)), job, slice, queue + listOfJobs)
      ensures job.runTime == old(job.runTime) + slice && unchanged(this)
    {
      ghost var st := States(input);
      job.RunSlice(slice, 0);
      WaitAll(queue, slice);
      WaitAll(listOfJobs, slice);
      ghost var st' := AfterSlice(st, job, slice, queue + listOfJobs);
      forall j | j in input ensures States(input)[j] == st'[j] {
        if j in queue {
          assert j in queue + listOfJobs;
        } else if j in listOfJobs {
          assert j in queue + listOfJobs;
        }
      }
    }

    /** The dispatch step keeps the invariant, with the job taken back in front of the queue. */
    method Take(ghost input: seq<Job>) returns (job: Job, slice: int)
      requires RunInvariant(input) && queue != []
      modifies this`queue
      ensures job == old(queue)[0] && queue == old(queue)[1..]
      ensures Preemptive.InvariantByArrival(input, States(input), processedJobs, [job] + queue, listOfJobs, frame)
      ensures slice == SliceLength(quantum, job.RemainingTime())
    {
      ghost var q := queue;
      assert q == [q[0]] + q[1..];
      job, slice := Dispatch(input);
    }

    /**
     * One slice: dispatch the head of the queue, run it for its slice while
     * the others wait, then retire it to the back of the queue or to the
     * processed jobs; the clock advances by the slice.
     */
    method Slice(ghost input: seq<Job>) returns (job: Job, slice: int)
      requires RunInvariant(input) && queue != []
      modifies this`queue, this`processedJobs, this`jobDone, this`frame, input
      ensures RunInvariant(input) && listOfJobs == old(listOfJobs)
      ensures job == old(queue)[0] && slice == SliceLength(quantum, old(queue[0].RemainingTime()))
      ensures frame == old(frame) + slice && 0 < slice <= quantum
      ensures States(input) == AfterSlice(old(States(input)), job, slice, old(queue)[1..] + listOfJobs)
      ensures job.RemainingTime() > 0 ==>
                queue == old(queue)[1..] + [job] && processedJobs == old(processedJobs) && jobDone == old(jobDone)
      ensures job.RemainingTime() <= 0 ==>
                queue == old(queue)[1..] && processedJobs == old(processedJobs) + [job] && jobDone
    {
      job, slice := Take(input);
      ghost var st := States(input);
      ghost var f, done, rest, list := frame, processedJobs, queue, listOfJobs;
      Preemptive.HeadDispatchable(input, st, done, job, rest, list, f);
      Execute(job, slice, input);
      assert processedJobs == done && queue == rest && listOfJobs == list && frame == f;
      Retire(job, slice, input, st, done, rest, list, f);
    }

    /**
     * The end of a slice: the job that ran goes back to the end of the queue
     * when it still has work left, and otherwise joins the processed jobs and
     * raises the done flag; then the clock advances by the slice.
     */
    method Retire(job: Job, slice: int, ghost input: seq<Job>, ghost st: Snapshot,
                  ghost done: seq<Job>, ghost rest: seq<Job>, ghost list: seq<Job>, ghost f: int)
      requires Preemptive.InvariantByArrival(input, st, done, [job] + rest, list, f)
      requires job in input && job in st && 0 < slice && st[job].runTime + slice <= job.duration
      requires States(input) == AfterSlice(st, job, slice, rest + list) && job.runTime == st[job].runTime + slice
      requires processedJobs == done && queue == rest && listOfJobs == list && frame == f
      modifies this`queue, this`processedJobs, this`jobDone, this`frame
      ensures RunInvariant(input) && frame == f + slice && States(input) == old(States(input))
      ensures job.RemainingTime() > 0 ==> queue == rest + [job] && processedJobs == done && jobDone == old(jobDone)
      ensures job.RemainingTime() <= 0 ==> queue == rest && processedJobs == done + [job] && jobDone
    {
      if job.RemainingTime() > 0 {
        Preemptive.SliceKeepsInvariantByArrival(input, st, done, job, rest, list, f, slice, done, rest + [job]);
        Commit(queue + [job], processedJobs, jobDone, frame + slice, input);
      } else {
        Preemptive.SliceKeepsInvariantByArrival(input, st, done, job, rest, list, f, slice, done + [job], rest);
        Commit(queue, processedJobs + [job], true, frame + slice, input);
      }
    }

    /**
     * The new queue, processed jobs, flag and clock take effect together; no
     * job changes, so the run invariant they were chosen to keep holds.
     */
    method Commit(q: seq<Job>, p: seq<Job>, d: bool, f: int, ghost input: seq<Job>)
      requires Preemptive.InvariantByArrival(input, States(input), p, q, listOfJobs, f)
      modifies this`queue, this`processedJobs, this`jobDone, this`frame
      ensures queue == q && processedJobs == p && jobDone == d && frame == f
      ensures States(input) == old(States(input)) && RunInvariant(input)
    {
      queue, processedJobs, jobDone, frame := q, p, d, f;
    }

    /**
     * The engine loop: admit the arrivals, then run one slice, until both the
     * list and the queue are empty. When the queue is still empty after an
     * admission phase, no job can be dequeued and the loop stops with `idle`.
     */
    method RunJobs(ghost input: seq<Job>) returns (idle: bool)
      requires RunInvariant(input)
      modifies this`listOfJobs, this`queue, this`jobDone, this`processedJobs, this`frame, input
      ensures RunInvariant(input)
      ensures !idle ==> listOfJobs == [] && queue == []
      ensures idle ==> queue == [] && listOfJobs != [] && forall j :: j in listOfJobs ==> j.arrivalTime > frame
    {
      idle := false;
      while listOfJobs != [] || queue != []
        invariant RunInvariant(input)
        decreases TotalDuration(input) - frame
      {
        Preemptive.WithinTotal(input, States(input), processedJobs, queue, listOfJobs, frame);
        ghost var waiting := |queue| + |listOfJobs|;
        AdmitArrivals(input);
        if queue == [] {
          assert |listOfJobs| == waiting > 0;
          assert forall j :: j in listOfJobs ==> listOfJobs[0].arrivalTime <= j.arrivalTime;
          idle := true;
          return;
        }
        Preemptive.WaitingInInput(input, processedJobs, queue, listOfJobs);
        var _, _ := Slice(input);
        Preemptive.WithinTotal(input, States(input), processedJobs, queue, listOfJobs, frame);
      }
    }

    /**
     * The whole run over a fresh engine whose jobs have not run: the list is
     * sorted by arrival, the clock starts at 0 and the engine loop runs. It
     * either finishes, with every job processed and the output step done, or
     * stops at a clock where no job is ready.
     */
    method Run() returns (result: RunResult)
      requires processedJobs == [] && Distinct(listOfJobs)
      requires forall j :: j in listOfJobs ==> j.runTime == 0 && j.runStat == []
      modifies this, listOfJobs
      ensures result.Finished? ==>
                listOfJobs == [] && queue == [] &&
                multiset(processedJobs) == multiset(old(listOfJobs)) && Sorted(ByName, processedJobs) &&
                |result.ruler| == frame == TotalDuration(processedJobs) &&
                forall t :: 0 <= t < |result.ruler| ==> result.ruler[t] == t % 10
      ensures result.Finished? ==>
                forall j :: j in processedJobs ==>
                  j.runTime == j.duration && RunTicks(j.runStat) == j.duration &&
                  TaggedWith(j.runStat, j.name) && |j.runStat| <= frame
      ensures result.NoReadyJob? ==>
                result.frame == frame && queue == [] && listOfJobs != [] &&
                forall j :: j in listOfJobs ==> j.arrivalTime > frame
    {
      ghost var input := listOfJobs;
      Begin(input);
      var idle := RunJobs(input);
      result := Conclude(input, idle);
    }

    /** How a run ends: idle with no job ready, or drained and put in name order. */
    method Conclude(ghost input: seq<Job>, idle: bool) returns (result: RunResult)
      requires RunInvariant(input)
      requires !idle ==> listOfJobs == [] && queue == []
      requires idle ==> queue == [] && listOfJobs != [] && forall j :: j in listOfJobs ==> j.arrivalTime > frame
      modifies this`processedJobs
      ensures result.Finished? ==> processedJobs == Sort(ByName, old(processedJobs))
      ensures result.Finished? ==>
                listOfJobs == [] && queue == [] &&
                multiset(processedJobs) == multiset(input) && Sorted(ByName, processedJobs) &&
                |result.ruler| == frame == TotalDuration(processedJobs) &&
                forall t :: 0 <= t < |result.ruler| ==> result.ruler[t] == t % 10
      ensures result.Finished? ==>
                forall j :: j in processedJobs ==>
                  j.runTime == j.duration && RunTicks(j.runStat) == j.duration &&
                  TaggedWith(j.runStat, j.name) && |j.runStat| <= frame
      ensures result.NoReadyJob? ==>
                result.frame == frame && queue == [] && listOfJobs != [] &&
                forall j :: j in listOfJobs ==> j.arrivalTime > frame
    {
      if idle {
        return NoReadyJob(frame);
      }
      var ruler := Finish(input);
      return Finished(ruler);
    }

    /** The start of a run over pristine jobs establishes the invariant of the run. */
    method Begin(ghost input: seq<Job>)
      requires listOfJobs == input && processedJobs == [] && Distinct(input)
      requires forall j :: j in input ==> j.runTime == 0 && j.runStat == []
      modifies this`queue, this`jobDone, this`sortMode, this`listOfJobs, this`frame
      ensures RunInvariant(input) && listOfJobs == ArrivalOrder(input)
      ensures queue == [] && !jobDone && frame == 0
    {
      ghost var st := States(input);
      Start(input);
      Preemptive.ArrivalOrderAtStart(input, st);
    }

    /**
     * The end of a run that drained the list and the queue: every job of the
     * input has been processed and has done all its work, and the output step
     * leaves the processed jobs in name order with a ruler as long as the clock.
     */
    method Finish(ghost input: seq<Job>) returns (ruler: seq<int>)
      requires RunInvariant(input) && listOfJobs == [] && queue == []
      modifies this`processedJobs
      ensures processedJobs == Sort(ByName, old(processedJobs))
      ensures multiset(processedJobs) == multiset(input) && Sorted(ByName, processedJobs)
      ensures |ruler| == frame == TotalDuration(processedJobs)
      ensures forall t :: 0 <= t < |ruler| ==> ruler[t] == t % 10
      ensures forall j :: j in processedJobs ==>
                j.runTime == j.duration && RunTicks(j.runStat) == j.duration &&
                TaggedWith(j.runStat, j.name) && |j.runStat| <= frame
    {
      ghost var st, done := States(input), processedJobs;
      Preemptive.InvariantAtEnd(input, st, done, frame);
      ruler := Report();
      assert States(input) == st;
      forall j | j in processedJobs
        ensures j.runTime == j.duration && RunTicks(j.runStat) == j.duration
        ensures TaggedWith(j.runStat, j.name) && |j.runStat| <= frame
      {
        assert j in multiset(done);
        assert j in done && j in multiset(input);
      }
    }

    /** The output step of a finished run: the ruler, then the processed jobs in name order. */
    method Report() returns (ruler: seq<int>)
      requires frame == TotalDuration(processedJobs)
      modifies this`processedJobs
      ensures processedJobs == Sort(ByName, old(processedJobs))
      ensures Sorted(ByName, processedJobs) && multiset(processedJobs) == multiset(old(processedJobs))
      ensures |ruler| == frame == TotalDuration(processedJobs)
      ensures forall t :: 0 <= t < |ruler| ==> ruler[t] == t % 10
    {
      var ran := processedJobs;
      var listing;
      ruler, listing := PrintList(ran);
      TotalDurationPermutation(ran, listing);
      processedJobs := listing;
    }
  }
}
