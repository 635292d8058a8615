/**
 * The feedback engine: a preemptive scheduler with three ready queues of
 * decreasing priority that runs one tick at a time. Each tick admits at most
 * one arrival into the first queue, takes the head of the highest-priority
 * non-empty queue, runs it for one tick while every other job waits, and puts
 * it back one level lower, or at its own level when nothing else competes for
 * the next tick, unless it has finished.
 */
module FeedbackEngine {
  import opened Jobs
  import opened Ordering
  import opened Schedulers
  import opened JobStates
  import Preemptive

  /**
   * The level a job that still has work left goes back to, from level
   * `current`, when `demote` says it should move down: one level down from
   * the first or the second queue, never up, and the third queue keeps its
   * jobs whatever `demote` says. A level other than 1 or 2 counts as the third.
   */
  function Level(current: int, demote: bool): (r: int)
    ensures 1 <= r <= 3
    ensures 1 <= current <= 3 ==> current <= r <= current + 1
    ensures r == current + 1 <==> demote && (current == 1 || current == 2)
    ensures current == 3 ==> r == 3
  {
    if current == 1 then (if demote then 2 else 1)
    else if current == 2 then (if demote then 3 else 2)
    else 3
  }

  /**
   * The three queues after `job` joins the end of the one numbered `level`:
   * together they hold one more job, `job`.
   */
  function Enqueued(q1: seq<Job>, q2: seq<Job>, q3: seq<Job>, job: Job, level: int): (r: (seq<Job>, seq<Job>, seq<Job>))
    requires 1 <= level <= 3
    ensures multiset(r.0 + r.1 + r.2) == multiset(q1 + q2 + q3) + multiset{job}
  {
    if level == 1 then (q1 + [job], q2, q3)
    else if level == 2 then (q1, q2 + [job], q3)
    else (q1, q2, q3 + [job])
  }

  /**
   * The rule the engine applies to an unfinished job after its tick: it moves
   * down when another job is in some queue or the head of the list arrives at
   * the next tick.
   */
  function Demotes(queued: seq<Job>, list: seq<Job>, frame: int): bool
  {
    queued != [] || (list != [] && list[0].arrivalTime == frame + 1)
  }

  /**
   * The rule as the comment above the placement step words it: the job keeps
   * its level when all queues are empty or when the head of the list is about
   * to be loaded, and moves down only when both fail.
   */
  predicate KeepsLevelAsCommented(queued: seq<Job>, list: seq<Job>, frame: int)
  {
    queued == [] || (list != [] && list[0].arrivalTime == frame + 1)
  }

  /**
   * The engine's rule and the commented rule disagree exactly when the head
   * of the list arrives at the next tick: the engine then moves the job down
   * where the comment keeps it. Otherwise the job moves down under one rule
   * precisely when it moves down under the other.
   */
  lemma DemotesVersusComment(queued: seq<Job>, list: seq<Job>, frame: int)
    ensures (Demotes(queued, list, frame) == KeepsLevelAsCommented(queued, list, frame)) <==>
            list != [] && list[0].arrivalTime == frame + 1
  {
  }

  /**
   * A job competing for the next tick, one already queued or one about to
   * arrive, is enough to move an unfinished job down; so the job moves down
   * even with every queue empty when the head of the list arrives at the
   * next tick.
   */
  lemma ArrivalNextDemotes(queued: seq<Job>, list: seq<Job>, frame: int)
    requires list != [] && list[0].arrivalTime == frame + 1
    ensures Demotes(queued, list, frame)
    ensures Level(1, Demotes(queued, list, frame)) == 2 && Level(2, Demotes(queued, list, frame)) == 3
  {
  }

  /** Admitting the head of the list into the first queue keeps the invariant. */
  lemma AdmitOne(input: seq<Job>, st: Snapshot, done: seq<Job>, q1: seq<Job>, q2: seq<Job>, q3: seq<Job>,
                 list: seq<Job>, f: int)
    requires Preemptive.InvariantByArrival(input, st, done, q1 + q2 + q3, list, f) && list != []
    ensures Preemptive.InvariantByArrival(input, st, done, q1 + [list[0]] + q2 + q3, list[1..], f)
  {
    assert multiset(q1 + [list[0]] + q2 + q3) == multiset(q1 + q2 + q3) + multiset{list[0]};
    Preemptive.AdmitHead(input, st, done, q1 + q2 + q3, list, f, q1 + [list[0]] + q2 + q3);
    assert forall i :: 0 <= i < |list| - 1 ==> list[1..][i] == list[i + 1];
  }

  /**
   * The first queue and the list after the admission step: the head of the
   * list moves to the end of the first queue when it has arrived by `frame`,
   * and nothing else moves, so the two taken end to end are unchanged.
   */
  function Admitted(q1: seq<Job>, list: seq<Job>, frame: int): (r: (seq<Job>, seq<Job>))
    ensures r.0 + r.1 == q1 + list
    ensures |r.0| == |q1| + (if list != [] && list[0].arrivalTime <= frame then 1 else 0)
  {
    if list != [] && list[0].arrivalTime <= frame then
      assert q1 + [list[0]] + list[1..] == q1 + list;
      (q1 + [list[0]], list[1..])
    else (q1, list)
  }

  /** The admission step keeps the invariant. */
  lemma AdmitKeepsInvariant(input: seq<Job>, st: Snapshot, done: seq<Job>, q1: seq<Job>, q2: seq<Job>, q3: seq<Job>,
                            list: seq<Job>, f: int)
    requires Preemptive.InvariantByArrival(input, st, done, q1 + q2 + q3, list, f)
    ensures var r := Admitted(q1, list, f); Preemptive.InvariantByArrival(input, st, done, r.0 + q2 + q3, r.1, f)
  {
    if list != [] && list[0].arrivalTime <= f {
      AdmitOne(input, st, done, q1, q2, q3, list, f);
    }
  }

  /**
   * What running the job taken from the queues relies on: it is a job of the
   * input with work left that occurs nowhere else, and the queues and the
   * list, position by position, are jobs of the input without repetitions or
   * overlap.
   */
  lemma Dispatchable(input: seq<Job>, st: Snapshot, done: seq<Job>, job: Job, q1: seq<Job>, q2: seq<Job>, q3: seq<Job>,
                     list: seq<Job>, f: int)
    requires Preemptive.Invariant(input, st, done, [job] + (q1 + q2 + q3), list, f)
    ensures job in input && job in st && st[job].runTime < job.duration
    ensures job !in q1 + q2 + q3 && job !in list && Distinct(q1 + q2 + q3) && Distinct(list)
    ensures forall j {:trigger j in q1 + q2 + q3} :: j in q1 + q2 + q3 ==> j !in list
    ensures forall i :: 0 <= i < |q1| ==> q1[i] in input
    ensures forall i :: 0 <= i < |q2| ==> q2[i] in input
    ensures forall i :: 0 <= i < |q3| ==> q3[i] in input
    ensures forall i :: 0 <= i < |list| ==> list[i] in input
  {
    var rest := q1 + q2 + q3;
    Preemptive.HeadDispatchable(input, st, done, job, rest, list, f);
    forall i | 0 <= i < |q1| ensures q1[i] in input {
      assert rest[i] == q1[i];
    }
    forall i | 0 <= i < |q2| ensures q2[i] in input {
      assert rest[|q1| + i] == q2[i];
    }
    forall i | 0 <= i < |q3| ensures q3[i] in input {
      assert rest[|q1| + |q2| + i] == q3[i];
    }
  }

  /**
   * The job the engine takes from its queues, with the number of its queue
   * and the queues it leaves: the head of the highest-priority non-empty
   * queue, so that the queues, taken together, lose exactly their first job.
   */
  function Dequeued(q1: seq<Job>, q2: seq<Job>, q3: seq<Job>): (r: (Job, int, seq<Job>, seq<Job>, seq<Job>))
    requires q1 + q2 + q3 != []
    ensures [r.0] + (r.2 + r.3 + r.4) == q1 + q2 + q3
    ensures r.1 == (if q1 != [] then 1 else if q2 != [] then 2 else 3)
    ensures r.1 == 1 ==> r.0 == q1[0] && r.3 == q2 && r.4 == q3
    ensures r.1 == 2 ==> q1 == [] && r.0 == q2[0] && r.2 == [] && r.4 == q3
    ensures r.1 == 3 ==> q1 == [] && q2 == [] && r.0 == q3[0] && r.2 == [] && r.3 == []
  {
    if q1 != [] then (q1[0], 1, q1[1..], q2, q3)
    else if q2 != [] then (q2[0], 2, [], q2[1..], q3)
    else (q3[0], 3, [], [], q3[1..])
  }

  /** Taking a job from the queues keeps the invariant, with the job back in front of them. */
  lemma TakeKeepsInvariant(input: seq<Job>, st: Snapshot, done: seq<Job>, q1: seq<Job>, q2: seq<Job>, q3: seq<Job>,
                           list: seq<Job>, f: int)
    requires Preemptive.InvariantByArrival(input, st, done, q1 + q2 + q3, list, f) && q1 + q2 + q3 != []
    ensures var r := Dequeued(q1, q2, q3);
            Preemptive.Invariant(input, st, done, [r.0] + (r.2 + r.3 + r.4), list, f) && ArrivalSorted(list)
  {
  }

  /**
   * One tick of the job taken from the queues, with everything else waiting,
   * keeps the invariant: an unfinished job goes back into one of the queues,
   * a finished one joins the processed jobs, and the clock moves on by one.
   */
  lemma TickKeepsInvariant(input: seq<Job>, st: Snapshot, done: seq<Job>, job: Job, q1: seq<Job>, q2: seq<Job>, q3: seq<Job>,
                           list: seq<Job>, f: int, done': seq<Job>, q1': seq<Job>, q2': seq<Job>, q3': seq<Job>)
    requires Preemptive.Invariant(input, st, done, [job] + (q1 + q2 + q3), list, f) && ArrivalSorted(list)
    requires job in st && st[job].runTime + 1 <= job.duration
    requires st[job].runTime + 1 < job.duration ==>
               done' == done && multiset(q1' + q2' + q3') == multiset(q1 + q2 + q3) + multiset{job}
    requires st[job].runTime + 1 == job.duration ==> done' == done + [job] && q1' == q1 && q2' == q2 && q3' == q3
    ensures Preemptive.InvariantByArrival(input, AfterSlice(st, job, 1, q1 + q2 + q3 + list), done', q1' + q2' + q3', list, f + 1)
    ensures f + 1 <= TotalDuration(input)
  {
    var rest := q1 + q2 + q3;
    var st' := AfterSlice(st, job, 1, rest + list);
    if st[job].runTime + 1 < job.duration {
      Preemptive.SliceKeepsInvariant(input, st, done, job, rest, list, f, 1, done, rest + [job]);
      Preemptive.ReorderQueue(input, st', done, rest + [job], list, f + 1, q1' + q2' + q3');
    } else {
      Preemptive.SliceKeepsInvariant(input, st, done, job, rest, list, f, 1, done + [job], rest);
    }
    Preemptive.WithinTotal(input, st', done', q1' + q2' + q3', list, f + 1);
  }

  /**
   * Where the job that ran one tick, taken from level `level`, ends up: with
   * `remaining` work left it goes back at the end of the queue `Level` names
   * on the demotion rule, and the processed jobs stay; otherwise it joins the
   * end of the processed jobs and the queues stay.
   */
  ghost predicate Placed(job: Job, level: int, remaining: int, q1: seq<Job>, q2: seq<Job>, q3: seq<Job>,
                         list: seq<Job>, f: int, done: seq<Job>, r1: seq<Job>, r2: seq<Job>, r3: seq<Job>, p: seq<Job>)
  {
    if remaining > 0 then
      p == done && (r1, r2, r3) == Enqueued(q1, q2, q3, job, Level(level, Demotes(q1 + q2 + q3, list, f)))
    else
      p == done + [job] && r1 == q1 && r2 == q2 && r3 == q3
  }

  class FeedbackScheduler {
    var listOfJobs: seq<Job>       // jobs not yet admitted, by arrival once the run starts
    var processedJobs: seq<Job>    // finished jobs, in the order they finished
    var frame: int                 // the clock
    var sortMode: int              // the comparator's mode
    var queue1: seq<Job>           // the ready queue of highest priority
    var queue2: seq<Job>           // the ready queue of middle priority
    var queue3: seq<Job>           // the ready queue of lowest priority

    /** A fresh engine over `jobs`, with three empty queues and the clock at 0. */
    constructor (jobs: seq<Job>)
      ensures listOfJobs == jobs && processedJobs == [] && queue1 == [] && queue2 == [] && queue3 == []
      ensures frame == 0 && sortMode == FirstComeFirstServe
    {
      listOfJobs := jobs;
      processedJobs := [];
      frame := 0;
      sortMode := FirstComeFirstServe;
      queue1 := [];
      queue2 := [];
      queue3 := [];
    }

    /** The invariant of a run over `input`, on the jobs' current states. */
    ghost predicate RunInvariant(input: seq<Job>)
      reads this`processedJobs, this`queue1, this`queue2, this`queue3, this`listOfJobs, this`frame, input
    {
      Preemptive.InvariantByArrival(input, States(input), processedJobs, queue1 + queue2 + queue3, listOfJobs, frame)
    }

    /** No job is ready: all three queues are empty. */
    function EmptyQueues(): (r: bool)
      reads this`queue1, this`queue2, this`queue3
      ensures r <==> queue1 + queue2 + queue3 == []
    {
      queue1 == [] && queue2 == [] && queue3 == []
    }

    /**
     * The start of a run: the list sorted by arrival (stably) and the clock
     * back at 0; no job changes.
     */
    method Start(ghost input: seq<Job>)
      modifies this`sortMode, this`listOfJobs, this`frame
      ensures sortMode == FirstComeFirstServe && frame == 0
      ensures listOfJobs == ArrivalOrder(old(listOfJobs))
      ensures States(input) == old(States(input))
    {
      sortMode := FirstComeFirstServe;
      var sorted := Sort(ByMode(sortMode, frame), listOfJobs);
      ArrivalOrderIsSort(frame, listOfJobs);
      listOfJobs := sorted;
      frame := 0;
    }

    /**
     * The admission step of a tick: the head of the list joins the end of the
     * first queue when its arrival time has come; at most one job per tick,
     * and no job changes.
     */
    method Admit(ghost input: seq<Job>)
      modifies this`listOfJobs, this`queue1
      ensures (queue1, listOfJobs) == old(Admitted(queue1, listOfJobs, frame))
      ensures States(input) == old(States(input))
    {
      if listOfJobs != [] && listOfJobs[0].arrivalTime <= frame {
        queue1 := queue1 + [listOfJobs[0]];
        listOfJobs := listOfJobs[1..];
      }
    }

    /** The admission step keeps the invariant of the run. */
    method AdmitArrival(ghost input: seq<Job>)
      requires RunInvariant(input)
      modifies this`listOfJobs, this`queue1
      ensures RunInvariant(input) && States(input) == old(States(input))
      ensures (queue1, listOfJobs) == old(Admitted(queue1, listOfJobs, frame))
    {
      ghost var st, r := States(input), Admitted(queue1, listOfJobs, frame);
      AdmitKeepsInvariant(input, st, processedJobs, queue1, queue2, queue3, listOfJobs, frame);
      Admit(input);
      assert States(input) == st && queue1 + queue2 + queue3 == r.0 + queue2 + queue3 && listOfJobs == r.1;
    }

    /**
     * Takes the head of the highest-priority non-empty queue, with the number
     * of its queue; no job changes.
     */
    method Dequeue(ghost input: seq<Job>) returns (job: Job, level: int)
      requires !EmptyQueues()
      modifies this`queue1, this`queue2, this`queue3
      ensures (job, level, queue1, queue2, queue3) == old(Dequeued(queue1, queue2, queue3))
      ensures States(input) == old(States(input))
    {
      if queue1 != [] {
        job := queue1[0];
        queue1 := queue1[1..];
        level := 1;
      } else if queue2 != [] {
        job := queue2[0];
        queue2 := queue2[1..];
        level := 2;
      } else {
        job := queue3[0];
        queue3 := queue3[1..];
        level := 3;
      }
    }

    /** The dequeue step keeps the invariant, with the job taken back in front of the queues. */
    method Take(ghost input: seq<Job>) returns (job: Job, level: int)
      requires RunInvariant(input) && !EmptyQueues()
      modifies this`queue1, this`queue2, this`queue3
      ensures (job, level, queue1, queue2, queue3) == old(Dequeued(queue1, queue2, queue3))
      ensures Preemptive.Invariant(input, States(input), processedJobs, [job] + (queue1 + queue2 + queue3), listOfJobs, frame)
      ensures ArrivalSorted(listOfJobs) && States(input) == old(States(input))
    {
      TakeKeepsInvariant(input, States(input), processedJobs, queue1, queue2, queue3, listOfJobs, frame);
      job, level := Dequeue(input);
    }

    /**
     * Every job not yet admitted and every job in the three queues waits one
     * tick; no other job changes.
     */
    method WaitJobs()
      requires Distinct(queue1 + queue2 + queue3) && Distinct(listOfJobs)
      requires forall j {:trigger j in queue1 + queue2 + queue3} :: j in queue1 + queue2 + queue3 ==> j !in listOfJobs
      modifies listOfJobs, queue1, queue2, queue3
      ensures forall j :: j in queue1 + queue2 + queue3 + listOfJobs ==>
                j.runStat == old(j.runStat) + Waits(1) && j.runTime == old(j.runTime)
    {
      DistinctParts(queue1, queue2, queue3);
      ghost var rest := queue1 + queue2 + queue3;
      WaitAll(listOfJobs, 1);
      WaitAll(queue1, 1);
      WaitAll(queue2, 1);
      WaitAll(queue3, 1);
      forall j | j in rest + listOfJobs
        ensures j.runStat == old(j.runStat) + Waits(1) && j.runTime == old(j.runTime)
      {
        if j in listOfJobs {
          assert j !in rest;
        } else if j in queue1 {
          assert j !in queue2 && j !in queue3 && j !in listOfJobs;
        } else if j in queue2 {
          assert j !in queue1 && j !in queue3 && j !in listOfJobs;
        } else {
          assert j in queue3;
          assert j !in queue1 && j !in queue2 && j !in listOfJobs;
        }
      }
    }

    /**
     * The chosen job runs one tick, then every other job waits one tick. The
     * clock does not move yet.
     */
    method Execute(job: Job, ghost input: seq<Job>)
      requires job in input && job !in queue1 + queue2 + queue3 && job !in listOfJobs
      requires Distinct(queue1 + queue2 + queue3) && Distinct(listOfJobs)
      requires forall j {:trigger j in queue1 + queue2 + queue3} :: j in queue1 + queue2 + queue3 ==> j !in listOfJobs
      modifies job, listOfJobs, queue1, queue2, queue3
      ensures States(input) == AfterSlice(old(States(input)), job, 1, queue1 + queue2 + queue3 + listOfJobs)
      ensures job.runTime == old(job.runTime) + 1 && unchanged(this)
    {
      ghost var st := States(input);
      job.RunSlice(1, 0);
      WaitJobs();
      ghost var waiting := queue1 + queue2 + queue3 + listOfJobs;
      ghost var st' := AfterSlice(st, job, 1, waiting);
      forall j | j in input ensures States(input)[j] == st'[j] {
        if j in waiting {
          assert j != job;
        }
      }
    }

    /**
     * Where the job that ran goes, as the queues and the processed jobs it
     * leaves behind: back at the end of the queue `Level` names, on the
     * demotion rule evaluated after the others have waited, when it still has
     * work left, and at the end of the processed jobs otherwise.
     */
    method Place(job: Job, level: int) returns (r1: seq<Job>, r2: seq<Job>, r3: seq<Job>, p: seq<Job>)
      ensures job.RemainingTime() > 0 ==>
                p == processedJobs &&
                (r1, r2, r3) == Enqueued(queue1, queue2, queue3, job, Level(level, Demotes(queue1 + queue2 + queue3, listOfJobs, frame)))
      ensures job.RemainingTime() <= 0 ==> p == processedJobs + [job] && r1 == queue1 && r2 == queue2 && r3 == queue3
    {
      r1, r2, r3, p := queue1, queue2, queue3, processedJobs;
      if job.RemainingTime() > 0 {
        var nextQueue := !EmptyQueues() || (listOfJobs != [] && listOfJobs[0].arrivalTime == frame + 1);
        var queues := Enqueued(r1, r2, r3, job, Level(level, nextQueue));
        r1, r2, r3 := queues.0, queues.1, queues.2;
      } else {
        p := p + [job];
      }
    }

    /**
     * The end of a tick: the job that ran is placed, then the clock advances
     * by one; the invariant of the run holds again.
     */
    method Retire(job: Job, level: int, ghost input: seq<Job>, ghost st: Snapshot, ghost done: seq<Job>,
                  ghost q1: seq<Job>, ghost q2: seq<Job>, ghost q3: seq<Job>, ghost list: seq<Job>, ghost f: int)
      requires Preemptive.Invariant(input, st, done, [job] + (q1 + q2 + q3), list, f) && ArrivalSorted(list)
      requires job in input && job in st && st[job].runTime + 1 <= job.duration
      requires States(input) == AfterSlice(st, job, 1, q1 + q2 + q3 + list) && job.runTime == st[job].runTime + 1
      requires processedJobs == done && queue1 == q1 && queue2 == q2 && queue3 == q3 && listOfJobs == list && frame == f
      modifies this`queue1, this`queue2, this`queue3, this`processedJobs, this`frame
      ensures RunInvariant(input) && listOfJobs == list && frame == f + 1 && frame <= TotalDuration(input)
      ensures Placed(job, level, job.RemainingTime(), q1, q2, q3, list, f, done, queue1, queue2, queue3, processedJobs)
      ensures States(input) == old(States(input))
    {
      var r1, r2, r3, p := Place(job, level);
      TickKeepsInvariant(input, st, done, job, q1, q2, q3, list, f, p, r1, r2, r3);
      assert Preemptive.InvariantByArrival(input, States(input), p, r1 + r2 + r3, listOfJobs, f + 1);
      Commit(r1, r2, r3, p, frame + 1, input);
    }

    /**
     * The queues, the processed jobs and the clock take their new values; no
     * job changes, so the run invariant they were chosen to keep holds.
     */
    method Commit(r1: seq<Job>, r2: seq<Job>, r3: seq<Job>, p: seq<Job>, f: int, ghost input: seq<Job>)
      requires Preemptive.InvariantByArrival(input, States(input), p, r1 + r2 + r3, listOfJobs, f)
      modifies this`queue1, this`queue2, this`queue3, this`processedJobs, this`frame
      ensures queue1 == r1 && queue2 == r2 && queue3 == r3 && processedJobs == p && frame == f
      ensures States(input) == old(States(input)) && RunInvariant(input)
    {
      queue1, queue2, queue3, processedJobs, frame := r1, r2, r3, p, f;
    }

    /**
     * One tick: take the head of the highest-priority non-empty queue, run it
     * for one tick while the others wait, then place it; the clock advances
     * by one.
     */
    method Tick(ghost input: seq<Job>) returns (job: Job, level: int)
      requires RunInvariant(input) && !EmptyQueues()
      modifies this`queue1, this`queue2, this`queue3, this`processedJobs, this`frame, input
      ensures RunInvariant(input) && listOfJobs == old(listOfJobs) && frame == old(frame) + 1
      ensures frame <= TotalDuration(input)
      ensures var d := old(Dequeued(queue1, queue2, queue3));
              job == d.0 && level == d.1 &&
              States(input) == AfterSlice(old(States(input)), job, 1, d.2 + d.3 + d.4 + listOfJobs) &&
              Placed(job, level, job.RemainingTime(), d.2, d.3, d.4, listOfJobs, old(frame), old(processedJobs),
                     queue1, queue2, queue3, processedJobs)
    {
      ghost var d := Dequeued(queue1, queue2, queue3);
      job, level := Take(input);
      ghost var st := States(input);
      ghost var f, done, q1, q2, q3, list := frame, processedJobs, queue1, queue2, queue3, listOfJobs;
      assert job == d.0 && level == d.1 && q1 == d.2 && q2 == d.3 && q3 == d.4 && st == old(States(input));
      Dispatchable(input, st, done, job, q1, q2, q3, list, f);
      Execute(job, input);
      assert processedJobs == done && queue1 == q1 && queue2 == q2 && queue3 == q3 && listOfJobs == list && frame == f;
      Retire(job, level, input, st, done, q1, q2, q3, list, f);
      assert listOfJobs == list;
    }

    /**
     * The engine loop: admit, then run one tick, until the list and all three
     * queues are empty. When the queues are all still empty after the
     * admission step, no job can be taken and the loop stops with `idle`.
     */
    method RunJobs(ghost input: seq<Job>) returns (idle: bool)
      requires RunInvariant(input)
      modifies this`listOfJobs, this`queue1, this`queue2, this`queue3, this`processedJobs, this`frame, input
      ensures RunInvariant(input)
      ensures !idle ==> listOfJobs == [] && EmptyQueues()
      ensures idle ==> EmptyQueues() && listOfJobs != [] && forall j :: j in listOfJobs ==> j.arrivalTime > frame
    {
      idle := false;
      Preemptive.WithinTotal(input, States(input), processedJobs, queue1 + queue2 + queue3, listOfJobs, frame);
      while listOfJobs != [] || !EmptyQueues()
        invariant RunInvariant(input) && frame <= TotalDuration(input)
        decreases TotalDuration(input) - frame
      {
        idle := Step(input);
        if idle {
          return;
        }
      }
    }

    /**
     * One pass of the engine loop: the admission step, then one tick unless
     * all three queues are still empty.
     */
    method Step(ghost input: seq<Job>) returns (idle: bool)
      requires RunInvariant(input) && (listOfJobs != [] || !EmptyQueues())
      modifies this`listOfJobs, this`queue1, this`queue2, this`queue3, this`processedJobs, this`frame, input
      ensures RunInvariant(input)
      ensures !idle ==> frame == old(frame) + 1 && frame <= TotalDuration(input)
      ensures idle ==> EmptyQueues() && listOfJobs != [] && forall j :: j in listOfJobs ==> j.arrivalTime > frame
      ensures idle ==> listOfJobs == old(listOfJobs) && frame == old(frame) && processedJobs == old(processedJobs)
      ensures var a := old(Admitted(queue1, listOfJobs, frame));
              !idle ==>
                listOfJobs == a.1 && a.0 + old(queue2) + old(queue3) != [] &&
                var d := Dequeued(a.0, old(queue2), old(queue3));
                States(input) == AfterSlice(old(States(input)), d.0, 1, d.2 + d.3 + d.4 + listOfJobs) &&
                Placed(d.0, d.1, d.0.RemainingTime(), d.2, d.3, d.4, listOfJobs, old(frame), old(processedJobs),
                       queue1, queue2, queue3, processedJobs)
    {
      ghost var list, a := listOfJobs, Admitted(queue1, listOfJobs, frame);
      AdmitArrival(input);
      assert queue1 == a.0 && listOfJobs == a.1 && States(input) == old(States(input));
      if EmptyQueues() {
        assert list != [] && list[0].arrivalTime > frame && listOfJobs == list;
        ArrivalsAfter(list, frame);
        return true;
      }
      var _, _ := Tick(input);
      return false;
    }

    /**
     * The whole run over a fresh engine whose jobs have not run: the list is
     * sorted by arrival, the clock starts at 0 and the engine loop runs. It
     * either finishes, with every job processed and the output step done, or
     * stops at a clock where no job is ready.
     */
    method Run() returns (result: RunResult)
      requires processedJobs == [] && queue1 == [] && queue2 == [] && queue3 == [] && Distinct(listOfJobs)
      requires forall j :: j in listOfJobs ==> j.runTime == 0 && j.runStat == []
      modifies this, listOfJobs
      ensures result.Finished? ==>
                listOfJobs == [] && EmptyQueues() &&
                multiset(processedJobs) == multiset(old(listOfJobs)) && Sorted(ByName, processedJobs) &&
                |result.ruler| == frame == TotalDuration(processedJobs) &&
                forall t :: 0 <= t < |result.ruler| ==> result.ruler[t] == t % 10
      ensures result.Finished? ==>
                forall j :: j in processedJobs ==>
                  j.runTime == j.duration && RunTicks(j.runStat) == j.duration &&
                  TaggedWith(j.runStat, j.name) && |j.runStat| <= frame
      ensures result.NoReadyJob? ==>
                result.frame == frame && EmptyQueues() && listOfJobs != [] &&
                forall j :: j in listOfJobs ==> j.arrivalTime > frame
    {
      ghost var input := listOfJobs;
      Begin(input);
      var idle := RunJobs(input);
      result := Conclude(input, idle);
    }

    /** How a run ends: idle with no job ready, or drained and put in name order. */
    method Conclude(ghost input: seq<Job>, idle: bool) returns (result: RunResult)
      requires RunInvariant(input)
      requires !idle ==> listOfJobs == [] && EmptyQueues()
      requires idle ==> EmptyQueues() && listOfJobs != [] && forall j :: j in listOfJobs ==> j.arrivalTime > frame
      modifies this`processedJobs
      ensures result.Finished? ==> processedJobs == Sort(ByName, old(processedJobs))
      ensures result.Finished? ==>
                listOfJobs == [] && EmptyQueues() &&
                multiset(processedJobs) == multiset(input) && Sorted(ByName, processedJobs) &&
                |result.ruler| == frame == TotalDuration(processedJobs) &&
                forall t :: 0 <= t < |result.ruler| ==> result.ruler[t] == t % 10
      ensures result.Finished? ==>
                forall j :: j in processedJobs ==>
                  j.runTime == j.duration && RunTicks(j.runStat) == j.duration &&
                  TaggedWith(j.runStat, j.name) && |j.runStat| <= frame
      ensures result.NoReadyJob? ==>
                result.frame == frame && EmptyQueues() && listOfJobs != [] &&
                forall j :: j in listOfJobs ==> j.arrivalTime > frame
    {
      if idle {
        return NoReadyJob(frame);
      }
      var ruler := Finish(input);
      return Finished(ruler);
    }

    /** The start of a run over pristine jobs establishes the invariant of the run. */
    method Begin(ghost input: seq<Job>)
      requires listOfJobs == input && processedJobs == [] && queue1 == [] && queue2 == [] && queue3 == []
      requires Distinct(input)
      requires forall j :: j in input ==> j.runTime == 0 && j.runStat == []
      modifies this`sortMode, this`listOfJobs, this`frame
      ensures RunInvariant(input) && listOfJobs == ArrivalOrder(input) && frame == 0
    {
      ghost var st := States(input);
      Start(input);
      Preemptive.ArrivalOrderAtStart(input, st);
      assert queue1 + queue2 + queue3 == [];
    }

    /**
     * The end of a run that drained the list and the queues: every job of the
     * input has been processed and has done all its work, and the output step
     * leaves the processed jobs in name order with a ruler as long as the clock.
     */
    method Finish(ghost input: seq<Job>) returns (ruler: seq<int>)
      requires RunInvariant(input) && listOfJobs == [] && EmptyQueues()
      modifies this`processedJobs
      ensures processedJobs == Sort(ByName, old(processedJobs))
      ensures multiset(processedJobs) == multiset(input) && Sorted(ByName, processedJobs)
      ensures |ruler| == frame == TotalDuration(processedJobs)
      ensures forall t :: 0 <= t < |ruler| ==> ruler[t] == t % 10
      ensures forall j :: j in processedJobs ==>
                j.runTime == j.duration && RunTicks(j.runStat) == j.duration &&
                TaggedWith(j.runStat, j.name) && |j.runStat| <= frame
    {
      ghost var st, done := States(input), processedJobs;
      Preemptive.InvariantAtEnd(input, st, done, frame);
      ruler := Report();
      assert States(input) == st;
      forall j | j in processedJobs
        ensures j.runTime == j.duration && RunTicks(j.runStat) == j.duration
        ensures TaggedWith(j.runStat, j.name) && |j.runStat| <= frame
      {
        assert j in multiset(done);
        assert j in done && j in multiset(input);
      }
    }

    /** The output step of a finished run: the ruler, then the processed jobs in name order. */
    method Report() returns (ruler: seq<int>)
      requires frame == TotalDuration(processedJobs)
      modifies this`processedJobs
      ensures processedJobs == Sort(ByName, old(processedJobs))
      ensures Sorted(ByName, processedJobs) && multiset(processedJobs) == multiset(old(processedJobs))
      ensures |ruler| == frame == TotalDuration(processedJobs)
      ensures forall t :: 0 <= t < |ruler| ==> ruler[t] == t % 10
    {
      var ran := processedJobs;
      var listing;
      ruler, listing := PrintList(ran);
      TotalDurationPermutation(ran, listing);
      processedJobs := listing;
    }
  }
}
