/**
 * Round robin: first come first serve with a clock time-out. The job at the
 * head of the ready queue runs for at most one quantum, every other job waits
 * that long, and an unfinished job goes to the back of the queue.
 */
module RoundRobin {
  import opened Jobs
  import opened Ordering
  import opened Schedulers
  import opened JobStates
  import Preemptive

  /**
   * One arrival joining the ready queue, with the flag that says a job has
   * just finished: at the back when the queue is empty or the flag is up (the
   * flag then comes down), otherwise just in front of the queue's last job.
   */
  function Enqueue(queue: seq<Job>, jobDone: bool, job: Job): (r: (seq<Job>, bool))
    ensures |r.0| == |queue| + 1 && !r.1
  {
    if queue == [] || jobDone then (queue + [job], false)
    else (queue[..|queue| - 1] + [job] + [queue[|queue| - 1]], jobDone)
  }

  /**
   * The arrivals of one admission phase joining the queue one after another:
   * the queue grows by one job per arrival, and the flag ends down as soon as
   * one job has been admitted.
   */
  function AdmitAll(queue: seq<Job>, jobDone: bool, arrivals: seq<Job>): (r: (seq<Job>, bool))
    ensures |r.0| == |queue| + |arrivals|
    ensures arrivals != [] ==> !r.1
  {
    if arrivals == [] then (queue, jobDone)
    else
      var prior := AdmitAll(queue, jobDone, arrivals[..|arrivals| - 1]);
      Enqueue(prior.0, prior.1, arrivals[|arrivals| - 1])
  }

  /**
   * What one admission phase does to the queue. The flag always ends down. If
   * the queue was non-empty and no job had just finished, the arrivals keep
   * their order and all go in front of the job at the back, the one that was
   * just preempted. Otherwise the first arrival goes to the back and the others
   * line up in front of it.
   */
  lemma {:induction false} AdmitAllShape(queue: seq<Job>, jobDone: bool, arrivals: seq<Job>)
    requires arrivals != []
    ensures !AdmitAll(queue, jobDone, arrivals).1
    ensures queue != [] && !jobDone ==>
              AdmitAll(queue, jobDone, arrivals).0 == queue[..|queue| - 1] + arrivals + [queue[|queue| - 1]]
    ensures queue == [] || jobDone ==>
              AdmitAll(queue, jobDone, arrivals).0 == queue + arrivals[1..] + [arrivals[0]]
  {
    if queue != [] && !jobDone {
      AdmitAllInFront(queue, arrivals);
    } else {
      AdmitAllAtBack(queue, jobDone, arrivals);
    }
  }

  /** With a job just preempted at the back, the arrivals line up in front of it. */
  lemma {:induction false} AdmitAllInFront(queue: seq<Job>, arrivals: seq<Job>)
    requires queue != []
    ensures AdmitAll(queue, false, arrivals) == (queue[..|queue| - 1] + arrivals + [queue[|queue| - 1]], false)
  {
    var n := |arrivals|;
    var k := |queue| - 1;
    if n == 0 {
      assert queue == queue[..k] + [] + [queue[k]];
    } else {
      var front := arrivals[..n - 1];
      AdmitAllInFront(queue, front);
      var prior := queue[..k] + front + [queue[k]];
      assert AdmitAll(queue, false, arrivals) == Enqueue(prior, false, arrivals[n - 1]);
      FrontInsertion(queue, arrivals);
    }
  }

  /** The sequence step behind the previous lemma: one more arrival lines up behind the others. */
  lemma FrontInsertion(queue: seq<Job>, arrivals: seq<Job>)
    requires queue != [] && arrivals != []
    ensures var n, k := |arrivals|, |queue| - 1;
            var prior := queue[..k] + arrivals[..n - 1] + [queue[k]];
            prior[..|prior| - 1] + [arrivals[n - 1]] + [prior[|prior| - 1]] == queue[..k] + arrivals + [queue[k]]
  {
    var n, k := |arrivals|, |queue| - 1;
    var front := arrivals[..n - 1];
    var prior := queue[..k] + front + [queue[k]];
    assert prior[..|prior| - 1] == queue[..k] + front;
    assert queue[..k] + front + [arrivals[n - 1]] == queue[..k] + arrivals;
  }

  /**
   * With an empty queue or a job just finished, the first arrival goes to the
   * back and the later ones line up in front of it.
   */
  lemma {:induction false} AdmitAllAtBack(queue: seq<Job>, jobDone: bool, arrivals: seq<Job>)
    requires arrivals != [] && (queue == [] || jobDone)
    ensures AdmitAll(queue, jobDone, arrivals) == (queue + arrivals[1..] + [arrivals[0]], false)
  {
    var n := |arrivals|;
    var front, x := arrivals[..n - 1], arrivals[n - 1];
    if n == 1 {
      assert front == [] && arrivals[1..] == [];
      assert AdmitAll(queue, jobDone, arrivals) == Enqueue(queue, jobDone, x);
      assert queue + arrivals[1..] + [arrivals[0]] == queue + [x];
    } else {
      AdmitAllAtBack(queue, jobDone, front);
      var prior := queue + front[1..] + [front[0]];
      assert AdmitAll(queue, jobDone, arrivals) == Enqueue(prior, false, x);
      BackRotation(queue, arrivals);
    }
  }

  /** The sequence step behind the previous lemma: one more arrival lines up in front of the first. */
  lemma BackRotation(queue: seq<Job>, arrivals: seq<Job>)
    requires |arrivals| >= 2
    ensures var n := |arrivals|;
            var prior := queue + arrivals[..n - 1][1..] + [arrivals[0]];
            prior[..|prior| - 1] + [arrivals[n - 1]] + [prior[|prior| - 1]] == queue + arrivals[1..] + [arrivals[0]]
  {
    var n := |arrivals|;
    var front, x := arrivals[..n - 1], arrivals[n - 1];
    var prior := queue + front[1..] + [front[0]];
    assert prior[..|prior| - 1] == queue + front[1..] && prior[|prior| - 1] == arrivals[0];
    assert front[1..] + [x] == arrivals[1..];
  }

  /** The slice a job gets: the quantum, or less when the job needs less. */
  function SliceLength(quantum: int, remaining: int): (r: int)
    ensures r <= quantum && r <= remaining
    ensures r == quantum || r == remaining
  {
    if quantum < remaining then quantum else remaining
  }

  /** An arrival joins the queue and nothing else changes in it. */
  lemma EnqueueMultiset(queue: seq<Job>, jobDone: bool, job: Job)
    ensures multiset(Enqueue(queue, jobDone, job).0) == multiset(queue) + multiset{job}
  {
    if queue != [] && !jobDone {
      assert queue == queue[..|queue| - 1] + [queue[|queue| - 1]];
    }
  }

  /** Admitting the head of the list keeps the invariant. */
  lemma AdmitOne(input: seq<Job>, st: Snapshot, done: seq<Job>, queue: seq<Job>, jobDone: bool, list: seq<Job>, f: int)
    requires Preemptive.InvariantByArrival(input, st, done, queue, list, f) && list != []
    ensures Preemptive.InvariantByArrival(input, st, done, Enqueue(queue, jobDone, list[0]).0, list[1..], f)
  {
    EnqueueMultiset(queue, jobDone, list[0]);
    Preemptive.AdmitHead(input, st, done, queue, list, f, Enqueue(queue, jobDone, list[0]).0);
    assert forall i :: 0 <= i < |list| - 1 ==> list[1..][i] == list[i + 1];
  }

  /** A whole admission phase keeps the invariant. */
  lemma {:induction false} AdmitKeepsInvariant(input: seq<Job>, st: Snapshot, done: seq<Job>, queue: seq<Job>, jobDone: bool,
                                               admitted: seq<Job>, list: seq<Job>, f: int)
    requires Preemptive.InvariantByArrival(input, st, done, queue, admitted + list, f)
    ensures Preemptive.InvariantByArrival(input, st, done, AdmitAll(queue, jobDone, admitted).0, list, f)
    decreases |admitted|
  {
    var n := |admitted|;
    if n > 0 {
      var front, x := admitted[..n - 1], admitted[n - 1];
      var rest := [x] + list;
      assert admitted + list == front + rest;
      AdmitKeepsInvariant(input, st, done, queue, jobDone, front, rest, f);
      var prior := AdmitAll(queue, jobDone, front);
      AdmitOne(input, st, done, prior.0, prior.1, rest, f);
      assert rest[0] == x && rest[1..] == list;
      assert AdmitAll(queue, jobDone, admitted) == Enqueue(prior.0, prior.1, x);
    } else {
      assert admitted + list == list && AdmitAll(queue, jobDone, admitted) == (queue, jobDone);
    }
  }
}
