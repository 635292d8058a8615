/**
 * What the preemptive engines (round robin, shortest remaining time, feedback)
 * share: a run is a sequence of slices, each of which runs one job for a few
 * ticks while every other unfinished job waits. The invariant of such a run
 * relates the processed jobs, the ready queue and the jobs not yet admitted to
 * the input and to the clock, and each step of the engines keeps it.
 */
module Preemptive {
  import opened Jobs
  import opened Ordering
  import opened Schedulers
  import opened JobStates

  /**
   * The state of a run at clock `f`, with the job states `st`, the processed
   * jobs `done`, the ready queue `queue` (the queues, taken together, for an
   * engine with several) and the jobs not yet admitted `list`: together they
   * are the input; the clock has advanced by exactly the work done; finished
   * jobs have done all their work; queued jobs are traced up to the clock; the
   * jobs not yet admitted have only waited.
   */
  ghost predicate Invariant(input: seq<Job>, st: Snapshot, done: seq<Job>, queue: seq<Job>, list: seq<Job>, f: int)
  {
    Composed(input, done, queue, list) && Clocked(input, st, f) && Traced(st, done, queue, list, f)
  }

  /** Together the three lists are the input, which has no repetitions. */
  ghost predicate Composed(input: seq<Job>, done: seq<Job>, queue: seq<Job>, list: seq<Job>)
  {
    Distinct(input) && multiset(done + queue + list) == multiset(input)
  }

  /** The clock has advanced by exactly the work done. */
  predicate Clocked(input: seq<Job>, st: Snapshot, f: int)
  {
    0 <= f && f + WorkLeft(st, input) == TotalDuration(input)
  }

  /** Each list's jobs are in the state its part of the run calls for at clock `f`. */
  predicate Traced(st: Snapshot, done: seq<Job>, queue: seq<Job>, list: seq<Job>, f: int)
  {
    FinishedBy(st, done, f) && ReadyAt(st, queue, f) && UnstartedAt(st, list, f)
  }

  /**
   * Admitting the head of the list keeps the invariant, wherever the engine
   * puts it in the queue.
   */
  lemma AdmitHead(input: seq<Job>, st: Snapshot, done: seq<Job>, queue: seq<Job>, list: seq<Job>, f: int, queue': seq<Job>)
    requires Invariant(input, st, done, queue, list, f) && list != []
    requires multiset(queue') == multiset(queue) + multiset{list[0]}
    ensures Invariant(input, st, done, queue', list[1..], f)
  {
    var job := list[0];
    assert job in list;
    UnstartedAccounted(job, f);
    forall j | j in list[1..] ensures j in st && st[j] == JobState(0, Waits(f)) {
      assert j in list;
    }
    forall j | j in queue' ensures j in st && Accounted(j, st[j]) && |st[j].runStat| == f && st[j].runTime < j.duration {
      assert j in multiset(queue');
      if j != job {
        assert j in multiset(queue);
        assert j in queue;
      }
    }
    assert list == [job] + list[1..];
    assert multiset(done + queue' + list[1..]) == multiset(done + queue + list);
  }

  /** Reordering the queue keeps the invariant. */
  lemma ReorderQueue(input: seq<Job>, st: Snapshot, done: seq<Job>, queue: seq<Job>, list: seq<Job>, f: int, queue': seq<Job>)
    requires Invariant(input, st, done, queue, list, f) && multiset(queue') == multiset(queue)
    ensures Invariant(input, st, done, queue', list, f)
  {
    forall j | j in queue' ensures j in st && Accounted(j, st[j]) && |st[j].runStat| == f && st[j].runTime < j.duration {
      assert j in multiset(queue');
      assert j in queue;
    }
    assert multiset(done + queue' + list) == multiset(done + queue + list);
  }

  /** The invariant's three lists hold jobs of the input only. */
  lemma Members(input: seq<Job>, s: seq<Job>)
    requires multiset(s) == multiset(input)
    ensures forall j {:trigger j in s} :: j in s ==> j in input
  {
    forall j | j in s ensures j in input {
      assert j in multiset(s);
    }
  }

  /** Every job in the queue and in the list, position by position, is a job of the input. */
  lemma WaitingInInput(input: seq<Job>, done: seq<Job>, queue: seq<Job>, list: seq<Job>)
    requires multiset(done + queue + list) == multiset(input)
    ensures forall i :: 0 <= i < |queue| ==> queue[i] in input
    ensures forall i :: 0 <= i < |list| ==> list[i] in input
  {
    var s := done + queue + list;
    forall i | 0 <= i < |queue| ensures queue[i] in input {
      assert s[|done| + i] == queue[i];
      assert queue[i] in multiset(s);
    }
    forall i | 0 <= i < |list| ensures list[i] in input {
      assert s[|done| + |queue| + i] == list[i];
      assert list[i] in multiset(s);
    }
  }

  /**
   * The processed jobs, the queue and the list are jobs of the input, without
   * repetitions and without overlap.
   */
  lemma Partition(input: seq<Job>, done: seq<Job>, queue: seq<Job>, list: seq<Job>)
    requires Distinct(input) && multiset(done + queue + list) == multiset(input)
    ensures Distinct(done) && Distinct(queue) && Distinct(list)
    ensures forall j {:trigger j in done} :: j in done ==> j !in queue && j !in list && j in input
    ensures forall j {:trigger j in queue} :: j in queue ==> j !in list && j in input
    ensures forall j {:trigger j in list} :: j in list ==> j in input
  {
    var s := done + queue + list;
    Members(input, s);
    DistinctPermutation(input, s);
    DistinctParts(done, queue, list);
    assert forall j {:trigger j in done} :: j in done ==> j in s;
    assert forall j {:trigger j in queue} :: j in queue ==> j in s;
    assert forall j {:trigger j in list} :: j in list ==> j in s;
  }

  /**
   * The head of the queue is a job of the input with work left, traced up to
   * the clock, and it occurs nowhere else; the rest of the queue is still
   * ready, and the processed jobs, the rest of the queue and the list are
   * jobs of the input without repetitions or overlap.
   */
  lemma HeadReady(input: seq<Job>, st: Snapshot, done: seq<Job>, job: Job, rest: seq<Job>, list: seq<Job>, f: int)
    requires Invariant(input, st, done, [job] + rest, list, f)
    ensures job in input && job in st && Accounted(job, st[job]) && |st[job].runStat| == f && st[job].runTime < job.duration
    ensures job !in done && job !in rest && job !in list
    ensures Distinct(rest) && Distinct(list)
    ensures forall j {:trigger j in done} :: j in done ==> j !in rest && j !in list
    ensures forall j {:trigger j in rest} :: j in rest ==> j !in list && j in input
    ensures forall j {:trigger j in list} :: j in list ==> j in input
    ensures ReadyAt(st, rest, f)
  {
    var head := done + [job];
    assert head + rest + list == done + ([job] + rest) + list;
    Partition(input, head, rest, list);
    assert job in head;
    assert forall j {:trigger j in done} :: j in done ==> j in head;
    assert job !in done by {
      forall k | 0 <= k < |done| ensures done[k] != job {
        assert head[k] == done[k] && head[|done|] == job;
      }
    }
    assert job in [job] + rest;
    assert forall j {:trigger j in rest} :: j in rest ==> j in [job] + rest;
  }

  /**
   * What dispatching the head of the queue relies on: the head has work left
   * and occurs once, and the rest of the queue and the list, position by
   * position, are jobs of the input.
   */
  lemma HeadDispatchable(input: seq<Job>, st: Snapshot, done: seq<Job>, job: Job, rest: seq<Job>, list: seq<Job>, f: int)
    requires Invariant(input, st, done, [job] + rest, list, f)
    ensures job in input && job in st && st[job].runTime < job.duration
    ensures job !in rest && job !in list && Distinct(rest) && Distinct(list)
    ensures forall j {:trigger j in rest} :: j in rest ==> j !in list
    ensures forall i :: 0 <= i < |rest| ==> rest[i] in input
    ensures forall i :: 0 <= i < |list| ==> list[i] in input
  {
    HeadReady(input, st, done, job, rest, list, f);
    assert done + [job] + rest + list == done + ([job] + rest) + list;
    WaitingInInput(input, done + [job], rest, list);
  }

  /** After a slice, a job with work left goes back to the end of the queue and the invariant holds. */
  lemma RequeueKeepsInvariant(input: seq<Job>, st: Snapshot, done: seq<Job>, job: Job, rest: seq<Job>, list: seq<Job>, f: int)
    requires Distinct(input) && multiset(done + ([job] + rest) + list) == multiset(input)
    requires 0 <= f && f + WorkLeft(st, input) == TotalDuration(input)
    requires FinishedBy(st, done, f) && ReadyAt(st, rest, f) && UnstartedAt(st, list, f)
    requires job in st && Accounted(job, st[job]) && |st[job].runStat| == f && st[job].runTime < job.duration
    ensures Invariant(input, st, done, rest + [job], list, f)
  {
    assert multiset(done + (rest + [job]) + list) == multiset(done + ([job] + rest) + list);
    forall j | j in rest + [job] ensures j in st && Accounted(j, st[j]) && |st[j].runStat| == f && st[j].runTime < j.duration {
      if j != job {
        assert j in rest;
      }
    }
  }

  /** The same when the job has done all its work: it joins the processed jobs. */
  lemma FinishKeepsInvariant(input: seq<Job>, st: Snapshot, done: seq<Job>, job: Job, rest: seq<Job>, list: seq<Job>, f: int)
    requires Distinct(input) && multiset(done + ([job] + rest) + list) == multiset(input)
    requires 0 <= f && f + WorkLeft(st, input) == TotalDuration(input)
    requires FinishedBy(st, done, f) && ReadyAt(st, rest, f) && UnstartedAt(st, list, f)
    requires job in st && Accounted(job, st[job]) && |st[job].runStat| == f && st[job].runTime == job.duration
    ensures Invariant(input, st, done + [job], rest, list, f)
  {
    assert multiset(done + [job] + rest + list) == multiset(done + ([job] + rest) + list);
    forall j | j in done + [job] ensures j in st && Accounted(j, st[j]) && st[j].runTime == j.duration && |st[j].runStat| <= f {
      if j != job {
        assert j in done;
      }
    }
  }

  /**
   * One slice of `n` ticks of the head job, with everything else waiting,
   * keeps the invariant: the job goes back to the end of the queue when it
   * still has work left, and joins the processed jobs otherwise; the clock
   * moves on by `n`.
   */
  lemma SliceKeepsInvariant(input: seq<Job>, st: Snapshot, done: seq<Job>, job: Job, rest: seq<Job>, list: seq<Job>, f: int,
                            n: nat, done': seq<Job>, queue': seq<Job>)
    requires Invariant(input, st, done, [job] + rest, list, f)
    requires job in st && 0 < n && st[job].runTime + n <= job.duration
    requires st[job].runTime + n < job.duration ==> done' == done && queue' == rest + [job]
    requires st[job].runTime + n == job.duration ==> done' == done + [job] && queue' == rest
    ensures Invariant(input, AfterSlice(st, job, n, rest + list), done', queue', list, f + n)
  {
    var w := rest + list;
    HeadReady(input, st, done, job, rest, list, f);
    assert forall j {:trigger j in rest} :: j in rest ==> j in w;
    assert forall j {:trigger j in list} :: j in list ==> j in w;
    assert forall j {:trigger j in done} :: j in done ==> j !in w;
    ReadyAfterSlice(st, job, n, w, rest, f);
    UnstartedAfterSlice(st, job, n, w, list, f);
    FinishedAfterSlice(st, job, n, w, done, f);
    RanAfterSlice(st, job, n, w, f);
    WorkLeftAfterSlice(st, input, job, n, w);
    var st' := AfterSlice(st, job, n, w);
    if st'[job].runTime < job.duration {
      RequeueKeepsInvariant(input, st', done, job, rest, list, f + n);
    } else {
      FinishKeepsInvariant(input, st', done, job, rest, list, f + n);
    }
  }

  /** The invariant keeps the clock within the total duration. */
  lemma WithinTotal(input: seq<Job>, st: Snapshot, done: seq<Job>, queue: seq<Job>, list: seq<Job>, f: int)
    requires Invariant(input, st, done, queue, list, f)
    ensures 0 <= f <= TotalDuration(input)
  {
    forall j | j in input ensures j in st && st[j].runTime <= j.duration {
      assert j in multiset(done + queue + list);
      assert j in done || j in queue || j in list;
    }
    WorkLeftNonnegative(st, input);
  }

  /** Pristine jobs, all still to be admitted in the order `list`, satisfy the invariant at clock 0. */
  lemma InvariantAtStart(input: seq<Job>, st: Snapshot, list: seq<Job>)
    requires Distinct(input) && multiset(list) == multiset(input)
    requires forall j {:trigger j in input} :: j in input ==> j in st && st[j] == JobState(0, [])
    ensures Invariant(input, st, [], [], list, 0)
  {
    WorkLeftOfUnstarted(st, input);
    forall j | j in list ensures j in st && st[j] == JobState(0, Waits(0)) {
      assert j in multiset(list);
      assert j in input;
    }
    assert [] + [] + list == list;
  }

  /**
   * The invariant of an engine that admits from a list kept in arrival order
   * (round robin, feedback): the invariant above, and the list stays sorted
   * by arrival.
   */
  ghost predicate InvariantByArrival(input: seq<Job>, st: Snapshot, done: seq<Job>, queue: seq<Job>, list: seq<Job>, f: int)
  {
    Invariant(input, st, done, queue, list, f) && ArrivalSorted(list)
  }

  /** One slice keeps that invariant too: the list is left as it was. */
  lemma SliceKeepsInvariantByArrival(input: seq<Job>, st: Snapshot, done: seq<Job>, job: Job, rest: seq<Job>, list: seq<Job>,
                                     f: int, n: nat, done': seq<Job>, queue': seq<Job>)
    requires InvariantByArrival(input, st, done, [job] + rest, list, f)
    requires job in st && 0 < n && st[job].runTime + n <= job.duration
    requires st[job].runTime + n < job.duration ==> done' == done && queue' == rest + [job]
    requires st[job].runTime + n == job.duration ==> done' == done + [job] && queue' == rest
    ensures InvariantByArrival(input, AfterSlice(st, job, n, rest + list), done', queue', list, f + n)
  {
    SliceKeepsInvariant(input, st, done, job, rest, list, f, n, done', queue');
  }

  /** A pristine workload, sorted by arrival, satisfies that invariant at clock 0. */
  lemma ArrivalOrderAtStart(input: seq<Job>, st: Snapshot)
    requires Distinct(input)
    requires forall j {:trigger j in input} :: j in input ==> j in st && st[j] == JobState(0, [])
    ensures InvariantByArrival(input, st, [], [], ArrivalOrder(input), 0)
  {
    ArrivalOrderSorted(input);
    InvariantAtStart(input, st, ArrivalOrder(input));
  }

  /**
   * When both the list and the queue are empty, every job has been processed,
   * having done all its work by the clock, and the clock is the total
   * duration: no tick went idle.
   */
  lemma InvariantAtEnd(input: seq<Job>, st: Snapshot, done: seq<Job>, f: int)
    requires Invariant(input, st, done, [], [], f)
    ensures multiset(done) == multiset(input) && f == TotalDuration(done)
    ensures forall j {:trigger j in done} :: j in done ==>
              j in st && st[j].runTime == j.duration && RunTicks(st[j].runStat) == j.duration &&
              TaggedWith(st[j].runStat, j.name) && |st[j].runStat| <= f
  {
    assert done + [] + [] == done;
    TotalDurationPermutation(done, input);
    forall j | j in input ensures j in st && st[j].runTime == j.duration {
      assert j in multiset(done);
      assert j in done;
    }
    WorkLeftFinished(st, input);
  }
}
