/**
 * The shortest-remaining-time engine: a preemptive scheduler that runs one
 * tick at a time. Each tick admits at most one arrival (the head of the list,
 * once the clock has reached its arrival time), then sorts the ready queue by
 * remaining time, runs its head for one tick while every other job waits, and
 * puts the head back at the end of the queue unless it has finished.
 */
module ShortestRemainingTimeEngine {
  import opened Jobs
  import opened Ordering
  import opened Schedulers
  import opened JobStates
  import Preemptive

  /** The order the ready queue is sorted by before each tick. */
  function ByRemainingTime(frame: int): (o: Order)
    ensures IsOrder(o)
  {
    ByMode(ShortestRemainingTime, frame)
  }

  /**
   * The job the queue's sort puts first is the one with the least remaining
   * time, and among those with that least remaining time the one nearest the
   * front of the queue; the rest of the sorted queue is in order of remaining
   * time.
   */
  lemma SortedHead(f: int, queue: seq<Job>) returns (i: int)
    requires queue != []
    ensures 0 <= i < |queue| && Sort(ByRemainingTime(f), queue)[0] == queue[i]
    ensures forall k :: 0 <= k < |queue| ==> queue[i].RemainingTime() <= queue[k].RemainingTime()
    ensures forall k :: 0 <= k < i ==> queue[k].RemainingTime() > queue[i].RemainingTime()
    ensures var r := Sort(ByRemainingTime(f), queue)[1..];
            forall a, b :: 0 <= a < b < |r| ==> r[a].RemainingTime() <= r[b].RemainingTime()
  {
    var o := ByRemainingTime(f);
    i := SortHead(o, queue);
    assert forall k :: 0 <= k < |queue| ==> Cmp(o, queue[i], queue[k]) <= 0;
    assert forall k :: 0 <= k < i ==> Cmp(o, queue[k], queue[i]) > 0;
    SortSplit(o, queue);
    var r := Sort(o, queue)[1..];
    assert forall a, b :: 0 <= a < b < |r| ==> Cmp(o, r[a], r[b]) <= 0;
  }

  /** Sorting the ready queue and taking its head keeps the invariant, with the head set apart. */
  lemma SortKeepsInvariant(input: seq<Job>, st: Snapshot, done: seq<Job>, queue: seq<Job>, list: seq<Job>, f: int)
    requires Preemptive.Invariant(input, st, done, queue, list, f) && queue != []
    ensures var sorted := Sort(ByRemainingTime(f), queue);
            Preemptive.Invariant(input, st, done, [sorted[0]] + sorted[1..], list, f)
  {
    var sorted := Sort(ByRemainingTime(f), queue);
    SortPermutation(ByRemainingTime(f), queue);
    Preemptive.ReorderQueue(input, st, done, queue, list, f, sorted);
    assert sorted == [sorted[0]] + sorted[1..];
  }

  class ShortestRemainingTimeScheduler {
    var listOfJobs: seq<Job>       // jobs not yet admitted, in input order
    var processedJobs: seq<Job>    // finished jobs, in the order they finished
    var frame: int                 // the clock
    var sortMode: int              // the comparator's mode
    var queue: seq<Job>            // the ready queue

    /** A fresh engine over `jobs`, with an empty ready queue and the clock at 0. */
    constructor (jobs: seq<Job>)
      ensures listOfJobs == jobs && processedJobs == [] && queue == []
      ensures frame == 0 && sortMode == FirstComeFirstServe
    {
      listOfJobs := jobs;
      processedJobs := [];
      frame := 0;
      sortMode := FirstComeFirstServe;
      queue := [];
    }

    /** The invariant of a run over `input`, on the jobs' current states. */
    ghost predicate RunInvariant(input: seq<Job>)
      reads this`processedJobs, this`queue, this`listOfJobs, this`frame, input
    {
      Preemptive.Invariant(input, States(input), processedJobs, queue, listOfJobs, frame)
    }

    /**
     * The admission step of a tick: the head of the list joins the end of the
     * ready queue when its arrival time has come; at most one job per tick.
     */
    method Admit()
      modifies this`listOfJobs, this`queue
      ensures old(listOfJobs) != [] && old(listOfJobs)[0].arrivalTime <= frame ==>
                queue == old(queue) + [old(listOfJobs)[0]] && listOfJobs == old(listOfJobs)[1..]
      ensures old(listOfJobs) == [] || old(listOfJobs)[0].arrivalTime > frame ==>
                queue == old(queue) && listOfJobs == old(listOfJobs)
    {
      if listOfJobs != [] && listOfJobs[0].arrivalTime <= frame {
        queue := queue + [listOfJobs[0]];
        listOfJobs := listOfJobs[1..];
      }
    }

    /** The admission step keeps the invariant of the run. */
    method AdmitArrival(ghost input: seq<Job>)
      requires RunInvariant(input)
      modifies this`listOfJobs, this`queue
      ensures RunInvariant(input)
      ensures old(listOfJobs) != [] && old(listOfJobs)[0].arrivalTime <= frame ==>
                queue == old(queue) + [old(listOfJobs)[0]] && listOfJobs == old(listOfJobs)[1..]
      ensures old(listOfJobs) == [] || old(listOfJobs)[0].arrivalTime > frame ==>
                queue == old(queue) && listOfJobs == old(listOfJobs)
    {
      ghost var st, list, q := States(input), listOfJobs, queue;
      Admit();
      assert States(input) == st;
      if queue != q {
        Preemptive.AdmitHead(input, st, processedJobs, q, list, frame, queue);
      }
    }

    /**
     * The choice of the next job: the sort mode becomes shortest remaining
     * time, the ready queue is sorted by it (stably) and its head is taken.
     */
    method Next() returns (job: Job)
      requires queue != []
      modifies this`sortMode, this`queue
      ensures sortMode == ShortestRemainingTime
      ensures job == old(Sort(ByRemainingTime(frame), queue))[0]
      ensures queue == old(Sort(ByRemainingTime(frame), queue))[1..]
    {
      sortMode := ShortestRemainingTime;
      var sorted := Sort(ByMode(sortMode, frame), queue);
      job := sorted[0];
      queue := sorted[1..];
    }

    /**
     * The chosen job runs one tick, then every job not yet admitted and every
     * job in the queue waits one tick. The clock does not move yet.
     */
    method Execute(job: Job, ghost input: seq<Job>)
      requires job in input && job !in queue && job !in listOfJobs
      requires Distinct(queue) && Distinct(listOfJobs)
      requires forall j {:trigger j in queue} :: j in queue ==> j !in listOfJobs
      modifies job, queue, listOfJobs
      ensures States(input) == AfterSlice(old(States(input)), job, 1, queue + listOfJobs)
      ensures job.runTime == old(job.runTime) + 1
    {
      ghost var st := States(input);
      job.RunSlice(1, 0);
      WaitAll(listOfJobs, 1);
      WaitAll(queue, 1);
      ghost var st' := AfterSlice(st, job, 1, queue + listOfJobs);
      forall j | j in input ensures States(input)[j] == st'[j] {
        if j in queue {
          assert j in queue + listOfJobs;
        } else if j in listOfJobs {
          assert j in queue + listOfJobs;
        }
      }
    }

    /**
     * The choice of the next job keeps the invariant of the run, with the
     * chosen job back in front of the queue.
     */
    method Choose(ghost input: seq<Job>) returns (job: Job)
      requires RunInvariant(input) && queue != []
      modifies this`sortMode, this`queue
      ensures job == old(Sort(ByRemainingTime(frame), queue))[0]
      ensures queue == old(Sort(ByRemainingTime(frame), queue))[1..] && sortMode == ShortestRemainingTime
      ensures States(input) == old(States(input))
      ensures Preemptive.Invariant(input, States(input), processedJobs, [job] + queue, listOfJobs, frame)
    {
      ghost var st := States(input);
      SortKeepsInvariant(input, st, processedJobs, queue, listOfJobs, frame);
      job := Next();
      assert States(input) == st;
    }

    /**
     * One tick: take the job the remaining-time sort puts first, run it for
     * one tick while the others wait, then put it at the back of the rest of
     * the sorted queue, or with the processed jobs when it has finished; the
     * clock advances by one.
     */
    method Tick(ghost input: seq<Job>) returns (job: Job)
      requires RunInvariant(input) && queue != []
      modifies this`queue, this`processedJobs, this`sortMode, this`frame, input
      ensures RunInvariant(input) && listOfJobs == old(listOfJobs) && frame == old(frame) + 1
      ensures job == old(Sort(ByRemainingTime(frame), queue))[0]
      ensures States(input) ==
                AfterSlice(old(States(input)), job, 1, old(Sort(ByRemainingTime(frame), queue))[1..] + listOfJobs)
      ensures job.RemainingTime() > 0 ==>
                queue == old(Sort(ByRemainingTime(frame), queue))[1..] + [job] && processedJobs == old(processedJobs)
      ensures job.RemainingTime() <= 0 ==>
                queue == old(Sort(ByRemainingTime(frame), queue))[1..] && processedJobs == old(processedJobs) + [job]
    {
      ghost var sorted := Sort(ByRemainingTime(frame), queue);
      job := Choose(input);
      ghost var st := States(input);
      assert job == sorted[0] && queue == sorted[1..] && st == old(States(input));
      ghost var f, done, rest, list := frame, processedJobs, queue, listOfJobs;
      Preemptive.HeadDispatchable(input, st, done, job, rest, list, f);
      Execute(job, input);
      Retire(job, input, st, done, rest, list, f);
    }

    /**
     * The end of a tick: the job that ran goes back to the end of the queue
     * when it still has work left and joins the processed jobs otherwise; then
     * the clock advances by one.
     */
    method Retire(job: Job, ghost input: seq<Job>, ghost st: Snapshot,
                  ghost done: seq<Job>, ghost rest: seq<Job>, ghost list: seq<Job>, ghost f: int)
      requires Preemptive.Invariant(input, st, done, [job] + rest, list, f)
      requires job in input && job in st && st[job].runTime + 1 <= job.duration
      requires States(input) == AfterSlice(st, job, 1, rest + list) && job.runTime == st[job].runTime + 1
      requires processedJobs == done && queue == rest && listOfJobs == list && frame == f
      modifies this`queue, this`processedJobs, this`frame
      ensures RunInvariant(input) && frame == f + 1 && States(input) == old(States(input))
      ensures job.RemainingTime() > 0 ==> queue == rest + [job] && processedJobs == done
      ensures job.RemainingTime() <= 0 ==> queue == rest && processedJobs == done + [job]
    {
      if job.RemainingTime() <= 0 {
        Preemptive.SliceKeepsInvariant(input, st, done, job, rest, list, f, 1, done + [job], rest);
        Commit(queue, processedJobs + [job], frame + 1, input);
      } else {
        Preemptive.SliceKeepsInvariant(input, st, done, job, rest, list, f, 1, done, rest + [job]);
        Commit(queue + [job], processedJobs, frame + 1, input);
      }
    }

    /** The new queue, processed jobs and clock take effect together; no job changes. */
    method Commit(q: seq<Job>, p: seq<Job>, f: int, ghost input: seq<Job>)
      modifies this`queue, this`processedJobs, this`frame
      ensures queue == q && processedJobs == p && frame == f
      ensures States(input) == old(States(input))
    {
      queue, processedJobs, frame := q, p, f;
    }

    /**
     * The engine loop: admit, then run one tick, until both the list and the
     * queue are empty. When the queue is still empty after the admission step,
     * no job can be taken from it and the loop stops with `idle`.
     */
    method RunJobs(ghost input: seq<Job>) returns (idle: bool)
      requires RunInvariant(input)
      modifies this`listOfJobs, this`queue, this`processedJobs, this`sortMode, this`frame, input
      ensures RunInvariant(input)
      ensures !idle ==> listOfJobs == [] && queue == []
      ensures idle ==> queue == [] && listOfJobs != [] && listOfJobs[0].arrivalTime > frame
    {
      idle := false;
      while listOfJobs != [] || queue != []
        invariant RunInvariant(input)
        decreases TotalDuration(input) - frame
      {
        Preemptive.WithinTotal(input, States(input), processedJobs, queue, listOfJobs, frame);
        AdmitArrival(input);
        if queue == [] {
          idle := true;
          return;
        }
        var _ := Tick(input);
        Preemptive.WithinTotal(input, States(input), processedJobs, queue, listOfJobs, frame);
      }
    }

    /**
     * The whole run over a fresh engine whose jobs have not run: the clock
     * starts at 0 and the engine loop runs over the list in its given order.
     * It either finishes, with every job processed and the output step done,
     * or stops at a clock where the queue is empty and the head of the list
     * has not arrived.
     */
    method Run() returns (result: RunResult)
      requires processedJobs == [] && queue == [] && Distinct(listOfJobs)
      requires forall j :: j in listOfJobs ==> j.runTime == 0 && j.runStat == []
      modifies this, listOfJobs
      ensures result.Finished? ==>
                listOfJobs == [] && queue == [] &&
                multiset(processedJobs) == multiset(old(listOfJobs)) && Sorted(ByName, processedJobs) &&
                |result.ruler| == frame == TotalDuration(processedJobs) &&
                forall t :: 0 <= t < |result.ruler| ==> result.ruler[t] == t % 10
      ensures result.Finished? ==>
                forall j :: j in processedJobs ==>
                  j.runTime == j.duration && RunTicks(j.runStat) == j.duration &&
                  TaggedWith(j.runStat, j.name) && |j.runStat| <= frame
      ensures result.NoReadyJob? ==>
                result.frame == frame && queue == [] && listOfJobs != [] && listOfJobs[0].arrivalTime > frame
    {
      ghost var input := listOfJobs;
      Begin(input);
      var idle := RunJobs(input);
      result := Conclude(input, idle);
    }

    /** How a run ends: idle with no job ready, or drained and put in name order. */
    method Conclude(ghost input: seq<Job>, idle: bool) returns (result: RunResult)
      requires RunInvariant(input)
      requires !idle ==> listOfJobs == [] && queue == []
      requires idle ==> queue == [] && listOfJobs != [] && listOfJobs[0].arrivalTime > frame
      modifies this`processedJobs
      ensures result.Finished? ==> processedJobs == Sort(ByName, old(processedJobs))
      ensures result.Finished? ==>
                listOfJobs == [] && queue == [] &&
                multiset(processedJobs) == multiset(input) && Sorted(ByName, processedJobs) &&
                |result.ruler| == frame == TotalDuration(processedJobs) &&
                forall t :: 0 <= t < |result.ruler| ==> result.ruler[t] == t % 10
      ensures result.Finished? ==>
                forall j :: j in processedJobs ==>
                  j.runTime == j.duration && RunTicks(j.runStat) == j.duration &&
                  TaggedWith(j.runStat, j.name) && |j.runStat| <= frame
      ensures result.NoReadyJob? ==>
                result.frame == frame && queue == [] && listOfJobs != [] && listOfJobs[0].arrivalTime > frame
    {
      if idle {
        return NoReadyJob(frame);
      }
      var ruler := Finish(input);
      return Finished(ruler);
    }

    /** The start of a run over pristine jobs establishes the invariant of the run. */
    method Begin(ghost input: seq<Job>)
      requires listOfJobs == input && processedJobs == [] && queue == [] && Distinct(input)
      requires forall j :: j in input ==> j.runTime == 0 && j.runStat == []
      modifies this`frame
      ensures RunInvariant(input)
    {
      frame := 0;
      Preemptive.InvariantAtStart(input, States(input), input);
    }

    /**
     * The end of a run that drained the list and the queue: every job of the
     * input has been processed and has done all its work, and the output step
     * leaves the processed jobs in name order with a ruler as long as the clock.
     */
    method Finish(ghost input: seq<Job>) returns (ruler: seq<int>)
      requires RunInvariant(input) && listOfJobs == [] && queue == []
      modifies this`processedJobs
      ensures processedJobs == Sort(ByName, old(processedJobs))
      ensures multiset(processedJobs) == multiset(input) && Sorted(ByName, processedJobs)
      ensures |ruler| == frame == TotalDuration(processedJobs)
      ensures forall t :: 0 <= t < |ruler| ==> ruler[t] == t % 10
      ensures forall j :: j in processedJobs ==>
                j.runTime == j.duration && RunTicks(j.runStat) == j.duration &&
                TaggedWith(j.runStat, j.name) && |j.runStat| <= frame
    {
      ghost var st, done := States(input), processedJobs;
      Preemptive.InvariantAtEnd(input, st, done, frame);
      ruler := Report();
      assert States(input) == st;
      forall j | j in processedJobs
        ensures j.runTime == j.duration && RunTicks(j.runStat) == j.duration
        ensures TaggedWith(j.runStat, j.name) && |j.runStat| <= frame
      {
        assert j in multiset(done);
        assert j in done && j in multiset(input);
      }
    }

    /** The output step of a finished run: the ruler, then the processed jobs in name order. */
    method Report() returns (ruler: seq<int>)
      requires frame == TotalDuration(processedJobs)
      modifies this`processedJobs
      ensures processedJobs == Sort(ByName, old(processedJobs))
      ensures Sorted(ByName, processedJobs) && multiset(processedJobs) == multiset(old(processedJobs))
      ensures |ruler| == frame == TotalDuration(processedJobs)
      ensures forall t :: 0 <= t < |ruler| ==> ruler[t] == t % 10
    {
      var ran := processedJobs;
      var listing;
      ruler, listing := PrintList(ran);
      TotalDurationPermutation(ran, listing);
      processedJobs := listing;
    }
  }
}
