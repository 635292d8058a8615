/**
 * The mutable part of the jobs (run counter and trace) taken as values, for
 * the engines that run jobs a slice at a time: what one slice does to them,
 * the work they have left, and the bookkeeping every slice keeps.
 */
module JobStates {
  import opened Jobs
  import opened Schedulers

  /** What a job has done so far: its run counter and its trace. */
  datatype JobState = JobState(runTime: int, runStat: seq<Marker>)

  /** The states of a set of jobs at one moment. */
  type Snapshot = map<Job, JobState>

  /** The current state of every job of `js`. */
  ghost function States(js: seq<Job>): (st: Snapshot)
    reads js
    ensures forall j {:trigger j in st} :: j in st ==> j in js
    ensures forall j {:trigger j in js} :: j in js ==> j in st && st[j] == JobState(j.runTime, j.runStat)
  {
    map j | j in js :: JobState(j.runTime, j.runStat)
  }

  /**
   * A state agrees with its trace: the run counter is the number of run ticks
   * in the trace, every run tick carries the job's own name, and the counter
   * stays between none and the whole duration.
   */
  predicate Accounted(j: Job, s: JobState)
  {
    RunTicks(s.runStat) == s.runTime && TaggedWith(s.runStat, j.name) && 0 <= s.runTime <= j.duration
  }

  /** Jobs admitted but unfinished at clock `f`: traced up to the clock, work left. */
  predicate ReadyAt(st: Snapshot, js: seq<Job>, f: int)
  {
    forall j {:trigger j in js} :: j in js ==>
      j in st && Accounted(j, st[j]) && |st[j].runStat| == f && st[j].runTime < j.duration
  }

  /** Jobs not yet admitted at clock `f`: they have done nothing but wait since 0. */
  predicate UnstartedAt(st: Snapshot, js: seq<Job>, f: int)
  {
    forall j {:trigger j in js} :: j in js ==> j in st && st[j] == JobState(0, Waits(f))
  }

  /** Jobs finished by clock `f`: all their work done, and their trace ends by the clock. */
  predicate FinishedBy(st: Snapshot, js: seq<Job>, f: int)
  {
    forall j {:trigger j in js} :: j in js ==>
      j in st && Accounted(j, st[j]) && st[j].runTime == j.duration && |st[j].runStat| <= f
  }

  /**
   * One slice of `n` ticks: `job` runs them and every job of `waiting` waits
   * them; every other job is left as it was.
   */
  function AfterSlice(st: Snapshot, job: Job, n: int, waiting: seq<Job>): (r: Snapshot)
    ensures r.Keys == st.Keys
  {
    map j | j in st ::
      if j == job then JobState(st[j].runTime + n, st[j].runStat + Runs(j.name, n))
      else if j in waiting then JobState(st[j].runTime, st[j].runStat + Waits(n))
      else st[j]
  }

  /** The work the jobs of `s` have left in `st`, added up. */
  function WorkLeft(st: Snapshot, s: seq<Job>): int
  {
    if s == [] then 0
    else
      var j := s[|s| - 1];
      WorkLeft(st, s[..|s| - 1]) + (if j in st then j.duration - st[j].runTime else j.duration)
  }

  /** A job that has only waited agrees with its trace. */
  lemma UnstartedAccounted(j: Job, f: int)
    ensures Accounted(j, JobState(0, Waits(f)))
  {
    RunTicksOfWaits(f);
  }

  /** Waiting keeps a state in agreement with its trace. */
  lemma WaitAccounted(j: Job, s: JobState, n: nat)
    requires Accounted(j, s)
    ensures Accounted(j, JobState(s.runTime, s.runStat + Waits(n)))
  {
    RunTicksAppend(s.runStat, Waits(n));
    RunTicksOfWaits(n);
  }

  /** Running no further than the duration keeps a state in agreement with its trace. */
  lemma RunAccounted(j: Job, s: JobState, n: nat)
    requires Accounted(j, s) && s.runTime + n <= j.duration
    ensures Accounted(j, JobState(s.runTime + n, s.runStat + Runs(j.name, n)))
  {
    RunTicksAppend(s.runStat, Runs(j.name, n));
    RunTicksOfRuns(j.name, n);
  }

  /** The work left only depends on the run counters of the jobs counted. */
  lemma {:induction false} WorkLeftAgree(st: Snapshot, st': Snapshot, s: seq<Job>)
    requires forall j {:trigger j in s} :: j in s ==> (j in st <==> j in st') && (j in st ==> st[j].runTime == st'[j].runTime)
    ensures WorkLeft(st, s) == WorkLeft(st', s)
  {
    if s != [] {
      var n := |s|;
      assert forall j {:trigger j in s[..n - 1]} :: j in s[..n - 1] ==> j in s;
      WorkLeftAgree(st, st', s[..n - 1]);
      assert s[n - 1] in s;
    }
  }

  /** A slice of `n` ticks of one job of `s` takes `n` off the work the jobs of `s` have left. */
  lemma {:induction false} WorkLeftAfterSlice(st: Snapshot, s: seq<Job>, job: Job, n: int, waiting: seq<Job>)
    requires Distinct(s) && job in s && job in st
    ensures WorkLeft(AfterSlice(st, job, n, waiting), s) == WorkLeft(st, s) - n
  {
    var st' := AfterSlice(st, job, n, waiting);
    var m := |s|;
    var front := s[..m - 1];
    if s[m - 1] == job {
      assert job !in front by {
        forall k | 0 <= k < m - 1 ensures front[k] != job {
          assert front[k] == s[k];
        }
      }
      assert forall j {:trigger j in front} :: j in front ==> j != job;
      WorkLeftAgree(st, st', front);
    } else {
      var i :| 0 <= i < m && s[i] == job;
      assert front[i] == job;
      assert Distinct(front) by {
        forall a, b | 0 <= a < b < |front| ensures front[a] != front[b] {
          assert front[a] == s[a] && front[b] == s[b];
        }
      }
      WorkLeftAfterSlice(st, front, job, n, waiting);
    }
  }

  /** Before any job has run, the work left is the total duration. */
  lemma {:induction false} WorkLeftOfUnstarted(st: Snapshot, s: seq<Job>)
    requires forall j {:trigger j in s} :: j in s ==> j in st && st[j].runTime == 0
    ensures WorkLeft(st, s) == TotalDuration(s)
  {
    if s != [] {
      var n := |s|;
      assert forall j {:trigger j in s[..n - 1]} :: j in s[..n - 1] ==> j in s;
      WorkLeftOfUnstarted(st, s[..n - 1]);
      assert s[n - 1] in s;
    }
  }

  /** With no job past its duration, no work left is negative. */
  lemma {:induction false} WorkLeftNonnegative(st: Snapshot, s: seq<Job>)
    requires forall j {:trigger j in s} :: j in s ==> j in st && st[j].runTime <= j.duration
    ensures WorkLeft(st, s) >= 0
  {
    if s != [] {
      var n := |s|;
      assert forall j {:trigger j in s[..n - 1]} :: j in s[..n - 1] ==> j in s;
      WorkLeftNonnegative(st, s[..n - 1]);
      assert s[n - 1] in s;
    }
  }

  /** Once every job has done all its work, there is no work left. */
  lemma {:induction false} WorkLeftFinished(st: Snapshot, s: seq<Job>)
    requires forall j {:trigger j in s} :: j in s ==> j in st && st[j].runTime == j.duration
    ensures WorkLeft(st, s) == 0
  {
    if s != [] {
      var n := |s|;
      assert forall j {:trigger j in s[..n - 1]} :: j in s[..n - 1] ==> j in s;
      WorkLeftFinished(st, s[..n - 1]);
      assert s[n - 1] in s;
    }
  }

  /**
   * After a slice of `n` ticks (with `n` no more than the running job needs),
   * the jobs that wait through it stay ready, the jobs not yet admitted have
   * still only waited, and the finished jobs stay finished; the job that ran
   * is one slice further.
   */
  lemma ReadyAfterSlice(st: Snapshot, job: Job, n: nat, waiting: seq<Job>, queue: seq<Job>, f: nat)
    requires ReadyAt(st, queue, f) && job !in queue && forall j {:trigger j in queue} :: j in queue ==> j in waiting
    ensures ReadyAt(AfterSlice(st, job, n, waiting), queue, f + n)
  {
    var st' := AfterSlice(st, job, n, waiting);
    forall j | j in queue
      ensures j in st' && Accounted(j, st'[j]) && |st'[j].runStat| == f + n && st'[j].runTime < j.duration
    {
      WaitAccounted(j, st[j], n);
    }
  }

  /** A slice keeps every job of the list unstarted, with its waits grown to the new clock. */
  lemma UnstartedAfterSlice(st: Snapshot, job: Job, n: nat, waiting: seq<Job>, list: seq<Job>, f: nat)
    requires UnstartedAt(st, list, f) && job !in list && forall j {:trigger j in list} :: j in list ==> j in waiting
    ensures UnstartedAt(AfterSlice(st, job, n, waiting), list, f + n)
  {
    WaitsAppend(f, n);
  }

  /** A slice does not touch the processed jobs, so they stay finished by the later clock. */
  lemma FinishedAfterSlice(st: Snapshot, job: Job, n: nat, waiting: seq<Job>, done: seq<Job>, f: nat)
    requires FinishedBy(st, done, f) && job !in done && forall j {:trigger j in done} :: j in done ==> j !in waiting
    ensures FinishedBy(AfterSlice(st, job, n, waiting), done, f + n)
  {
  }

  /** The job that runs the slice stays accounted, its trace and counter grown by the slice. */
  lemma RanAfterSlice(st: Snapshot, job: Job, n: nat, waiting: seq<Job>, f: nat)
    requires job in st && Accounted(job, st[job]) && |st[job].runStat| == f && st[job].runTime + n <= job.duration
    ensures var s := AfterSlice(st, job, n, waiting)[job];
            Accounted(job, s) && |s.runStat| == f + n && s.runTime == st[job].runTime + n
  {
    RunAccounted(job, st[job], n);
  }
}
