/**
 * What every engine shares: the workload bookkeeping (no job twice, total
 * duration, remaining work), letting a list of jobs wait, and the output step
 * (the ruler and the name-ordered listing).
 */
module Schedulers {
  import opened Jobs
  import opened Ordering

  /** How a run ends: every job processed, or a dequeue from an empty ready queue. */
  datatype RunResult = Finished(ruler: seq<int>) | NoReadyJob(frame: int)

  /** No job occurs twice. */
  ghost predicate Distinct(s: seq<Job>)
  {
    forall i, k :: 0 <= i < k < |s| ==> s[i] != s[k]
  }

  /** A job at two positions is counted at least twice. */
  lemma CountTwice(s: seq<Job>, i: int, k: int)
    requires 0 <= i < k < |s| && s[i] == s[k]
    ensures multiset(s)[s[i]] >= 2
  {
    var x := s[i];
    assert s == s[..i] + [x] + s[i + 1..k] + [x] + s[k + 1..];
  }

  /** Without repetitions every job is counted at most once. */
  lemma {:induction false} DistinctCount(s: seq<Job>, x: Job)
    requires Distinct(s)
    ensures multiset(s)[x] <= 1
  {
    if s != [] {
      var rest := s[1..];
      assert s == [s[0]] + rest;
      assert Distinct(rest) by {
        forall i, k | 0 <= i < k < |rest| ensures rest[i] != rest[k] {
          assert rest[i] == s[i + 1] && rest[k] == s[k + 1];
        }
      }
      DistinctCount(rest, x);
      if x == s[0] {
        assert forall k :: 0 <= k < |rest| ==> rest[k] == s[k + 1] && s[k + 1] != s[0];
        assert x !in rest;
      }
    }
  }

  /** In a list without repetitions, no job of the back part occurs in the front part. */
  lemma DistinctDisjoint(front: seq<Job>, back: seq<Job>, x: Job)
    requires Distinct(front + back) && x in back
    ensures x !in front
  {
    var i :| 0 <= i < |back| && back[i] == x;
    forall k | 0 <= k < |front| ensures front[k] != x {
      assert (front + back)[k] == front[k] && (front + back)[|front| + i] == x;
    }
  }

  /** Reordering a list gives a list without repetitions. */
  lemma DistinctPermutation(s: seq<Job>, t: seq<Job>)
    requires Distinct(s) && multiset(s) == multiset(t)
    ensures Distinct(t)
  {
    forall i, k | 0 <= i < k < |t| ensures t[i] != t[k] {
      DistinctCount(s, t[i]);
      if t[i] == t[k] {
        CountTwice(t, i, k);
      }
    }
  }

  /**
   * A job still waiting in a run over a list without repetitions has not been
   * processed yet, and comes from the input.
   */
  lemma WaitingIsFresh(input: seq<Job>, done: seq<Job>, waiting: seq<Job>, job: Job)
    requires Distinct(input) && multiset(done + waiting) == multiset(input) && job in waiting
    ensures job !in done && job in input
  {
    DistinctPermutation(input, done + waiting);
    DistinctDisjoint(done, waiting, job);
    assert job in multiset(done + waiting);
  }

  /** The durations added up: the length of the output ruler. */
  function TotalDuration(s: seq<Job>): int
  {
    if s == [] then 0 else TotalDuration(s[..|s| - 1]) + s[|s| - 1].duration
  }

  /** The trace of each job of `s`, position by position. */
  ghost function Traces(s: seq<Job>): (r: seq<seq<Marker>>)
    reads s`runStat
    ensures |r| == |s| && forall i :: 0 <= i < |s| ==> r[i] == s[i].runStat
  {
    if s == [] then [] else [s[0].runStat] + Traces(s[1..])
  }

  /** Recording the traces of `s` and then the trace of one more job. */
  lemma TracesSnoc(s: seq<Job>, x: Job, before: seq<seq<Marker>>)
    requires |before| == |s| && forall k :: 0 <= k < |s| ==> s[k].runStat == before[k]
    ensures Traces(s + [x]) == before + [x.runStat]
  {
  }

  lemma {:induction false} TotalDurationAppend(s: seq<Job>, t: seq<Job>)
    ensures TotalDuration(s + t) == TotalDuration(s) + TotalDuration(t)
    decreases |t|
  {
    if t == [] {
      assert s + t == s;
    } else {
      assert (s + t)[..|s + t| - 1] == s + t[..|t| - 1];
      TotalDurationAppend(s, t[..|t| - 1]);
    }
  }

  /** Taking out the job at `k` takes out its duration. */
  lemma TotalDurationRemove(t: seq<Job>, k: int)
    requires 0 <= k < |t|
    ensures TotalDuration(t) == TotalDuration(t[..k] + t[k + 1..]) + t[k].duration
  {
    var front, x, back := t[..k], t[k], t[k + 1..];
    assert t == front + [x] + back;
    TotalDurationAppend(front + [x], back);
    TotalDurationAppend(front, back);
    assert (front + [x])[..|front|] == front;
    assert TotalDuration(front + [x]) == TotalDuration(front) + x.duration;
  }

  /** Taking out the job at `k` takes one occurrence out of the multiset. */
  lemma MultisetRemove<T>(t: seq<T>, k: int)
    requires 0 <= k < |t|
    ensures multiset(t[..k] + t[k + 1..]) == multiset(t) - multiset{t[k]}
  {
    assert t == t[..k] + [t[k]] + t[k + 1..];
  }

  /** Taking the last job out of `s` and the same job out of a reordering `t` leaves reorderings. */
  lemma PermutationRemove(s: seq<Job>, t: seq<Job>) returns (k: int)
    requires multiset(s) == multiset(t) && s != []
    ensures 0 <= k < |t| && t[k] == s[|s| - 1]
    ensures multiset(s[..|s| - 1]) == multiset(t[..k] + t[k + 1..])
  {
    var n := |s|;
    assert s[n - 1] in multiset(t);
    k :| 0 <= k < |t| && t[k] == s[n - 1];
    MultisetRemove(s, n - 1);
    MultisetRemove(t, k);
    assert s[..n - 1] + s[n..] == s[..n - 1];
  }

  /** Reordering the jobs does not change the total duration. */
  lemma {:induction false} TotalDurationPermutation(s: seq<Job>, t: seq<Job>)
    requires multiset(s) == multiset(t)
    ensures TotalDuration(s) == TotalDuration(t)
    decreases |s|
  {
    if s != [] {
      var k := PermutationRemove(s, t);
      TotalDurationPermutation(s[..|s| - 1], t[..k] + t[k + 1..]);
      TotalDurationRemove(t, k);
    }
  }

  /** Three lists whose concatenation has no repetition are each repetition-free and pairwise disjoint. */
  lemma DistinctParts(a: seq<Job>, b: seq<Job>, c: seq<Job>)
    requires Distinct(a + b + c)
    ensures Distinct(a) && Distinct(b) && Distinct(c)
    ensures forall x {:trigger x in a} :: x in a ==> x !in b && x !in c
    ensures forall x {:trigger x in b} :: x in b ==> x !in c
  {
    var s := a + b + c;
    forall i, k | 0 <= i < k < |a| ensures a[i] != a[k] {
      assert s[i] == a[i] && s[k] == a[k];
    }
    forall i, k | 0 <= i < k < |b| ensures b[i] != b[k] {
      assert s[|a| + i] == b[i] && s[|a| + k] == b[k];
    }
    forall i, k | 0 <= i < k < |c| ensures c[i] != c[k] {
      assert s[|a| + |b| + i] == c[i] && s[|a| + |b| + k] == c[k];
    }
    forall x | x in a ensures x !in b && x !in c {
      var i :| 0 <= i < |a| && a[i] == x;
      forall k | 0 <= k < |b| ensures b[k] != x {
        assert s[i] == x && s[|a| + k] == b[k];
      }
      forall k | 0 <= k < |c| ensures c[k] != x {
        assert s[i] == x && s[|a| + |b| + k] == c[k];
      }
    }
    forall x | x in b ensures x !in c {
      var i :| 0 <= i < |b| && b[i] == x;
      forall k | 0 <= k < |c| ensures c[k] != x {
        assert s[|a| + i] == x && s[|a| + |b| + k] == c[k];
      }
    }
  }

  /** Every job of `js` waits `wait` ticks; nothing else changes. */
  method WaitAll(js: seq<Job>, wait: int)
    requires Distinct(js)
    modifies js
    ensures forall j :: j in js ==> j.runStat == old(j.runStat) + Waits(wait) && j.runTime == old(j.runTime)
  {
    var i := 0;
    while i < |js|
      invariant 0 <= i <= |js|
      invariant forall k :: 0 <= k < i ==> js[k].runStat == old(js[k].runStat) + Waits(wait) && js[k].runTime == old(js[k].runTime)
      invariant forall k :: i <= k < |js| ==> js[k].runStat == old(js[k].runStat) && js[k].runTime == old(js[k].runTime)
    {
      js[i].RunSlice(0, wait);
      assert Runs(js[i].name, 0) == [];
      i := i + 1;
    }
  }

  /**
   * The output step: a ruler of digits `t % 10` as long as the processed jobs'
   * durations added up, and the processed jobs in case-insensitive name order.
   */
  method PrintList(processedJobs: seq<Job>) returns (ruler: seq<int>, listing: seq<Job>)
    ensures |ruler| == TotalDuration(processedJobs)
    ensures forall t :: 0 <= t < |ruler| ==> ruler[t] == t % 10
    ensures listing == Sort(ByName, processedJobs)
    ensures multiset(listing) == multiset(processedJobs)
    ensures Sorted(ByName, listing)
  {
    var totalTime := 0;
    var i := 0;
    while i < |processedJobs|
      invariant 0 <= i <= |processedJobs|
      invariant totalTime == TotalDuration(processedJobs[..i])
    {
      assert processedJobs[..i + 1][..i] == processedJobs[..i];
      totalTime := totalTime + processedJobs[i].duration;
      i := i + 1;
    }
    assert processedJobs[..i] == processedJobs;
    ruler := [];
    var t := 0;
    while t < totalTime
      invariant 0 <= t && |ruler| == t && (totalTime >= 0 ==> t <= totalTime)
      invariant forall k :: 0 <= k < t ==> ruler[k] == k % 10
    {
      ruler := ruler + [t % 10];
      t := t + 1;
    }
    TotalDurationNonnegative(processedJobs);
    listing := Sort(ByName, processedJobs);
    SortPermutation(ByName, processedJobs);
    SortSorted(ByName, processedJobs);
  }

  lemma {:induction false} TotalDurationNonnegative(s: seq<Job>)
    ensures TotalDuration(s) >= 0
  {
    if s != [] {
      TotalDurationNonnegative(s[..|s| - 1]);
    }
  }
}
