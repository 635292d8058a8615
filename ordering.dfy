/**
 * The orders jobs are sorted by, and the list sort itself: a stable sort, as the
 * library's list sort is, written as insertion sort and proved to return a sorted
 * permutation whose head is the first minimum of its input.
 */
module Ordering {
  import opened Jobs

  /**
   * A comparator handed to the list sort: the job comparator under a sort mode
   * and clock, or the output's case-insensitive order on names.
   */
  datatype Order = ByMode(sortMode: int, frame: int) | ByName

  /** The comparators that are total preorders. */
  predicate IsOrder(o: Order)
  {
    o.ByName? || IsSortMode(o.sortMode)
  }

  /** ASCII case folding. */
  function ToLower(c: char): char
  {
    if 'A' <= c <= 'Z' then (c as int + 32) as char else c
  }

  /**
   * Case-insensitive lexicographic comparison: the first differing folded
   * character decides, and a proper prefix comes first.
   */
  function CompareIgnoreCase(s: string, t: string): (r: int)
    ensures -1 <= r <= 1
    ensures r == 0 <==> |s| == |t| && forall i :: 0 <= i < |s| ==> ToLower(s[i]) == ToLower(t[i])
  {
    if s == [] && t == [] then 0
    else if s == [] then -1
    else if t == [] then 1
    else if ToLower(s[0]) < ToLower(t[0]) then -1
    else if ToLower(s[0]) > ToLower(t[0]) then 1
    else
      assert forall i :: 0 < i < |s| && i < |t| ==> s[i] == s[1..][i - 1] && t[i] == t[1..][i - 1];
      CompareIgnoreCase(s[1..], t[1..])
  }

  lemma {:induction false} CompareIgnoreCaseReflexive(s: string)
    ensures CompareIgnoreCase(s, s) == 0
  {
    if s != [] {
      CompareIgnoreCaseReflexive(s[1..]);
    }
  }

  lemma {:induction false} CompareIgnoreCaseAntisymmetric(s: string, t: string)
    ensures CompareIgnoreCase(s, t) == -CompareIgnoreCase(t, s)
  {
    if s != [] && t != [] && ToLower(s[0]) == ToLower(t[0]) {
      CompareIgnoreCaseAntisymmetric(s[1..], t[1..]);
    }
  }

  lemma {:induction false} CompareIgnoreCaseTransitive(s: string, t: string, u: string)
    requires CompareIgnoreCase(s, t) <= 0 && CompareIgnoreCase(t, u) <= 0
    ensures CompareIgnoreCase(s, u) <= 0
  {
    if s != [] && t != [] && u != [] &&
       ToLower(s[0]) == ToLower(t[0]) && ToLower(t[0]) == ToLower(u[0]) {
      CompareIgnoreCaseTransitive(s[1..], t[1..], u[1..]);
    }
  }

  /** The comparator an order stands for: negative when `a` goes first. */
  function Cmp(o: Order, a: Job, b: Job): int
    reads a`runTime, b`runTime
  {
    match o
    case ByMode(mode, frame) => a.CompareTo(b, mode, frame)
    case ByName => CompareIgnoreCase(a.name, b.name)
  }

  lemma CmpReflexive(o: Order, a: Job)
    requires IsOrder(o)
    ensures Cmp(o, a, a) == 0
  {
    if o.ByName? {
      CompareIgnoreCaseReflexive(a.name);
    } else {
      CompareToReflexive(a, o.sortMode, o.frame);
    }
  }

  lemma CmpAntisymmetric(o: Order, a: Job, b: Job)
    requires IsOrder(o)
    ensures Cmp(o, a, b) == -Cmp(o, b, a)
  {
    if o.ByName? {
      CompareIgnoreCaseAntisymmetric(a.name, b.name);
    } else {
      CompareToAntisymmetric(a, b, o.sortMode, o.frame);
    }
  }

  lemma CmpTransitive(o: Order, a: Job, b: Job, c: Job)
    requires IsOrder(o)
    requires Cmp(o, a, b) <= 0 && Cmp(o, b, c) <= 0
    ensures Cmp(o, a, c) <= 0
  {
    if o.ByName? {
      CompareIgnoreCaseTransitive(a.name, b.name, c.name);
    } else {
      CompareToTransitive(a, b, c, o.sortMode, o.frame);
    }
  }

  /** Every element goes no later than every element after it. */
  ghost predicate Sorted(o: Order, s: seq<Job>)
    reads s`runTime
  {
    forall i, j :: 0 <= i < j < |s| ==> Cmp(o, s[i], s[j]) <= 0
  }

  /**
   * `s[i]` goes no later than any element of `s`, and every element before it
   * goes strictly later: the minimum that comes first in list order.
   */
  ghost predicate IsFirstMin(o: Order, s: seq<Job>, i: int)
    reads s`runTime
  {
    && 0 <= i < |s|
    && (forall k :: 0 <= k < |s| ==> Cmp(o, s[i], s[k]) <= 0)
    && (forall k :: 0 <= k < i ==> Cmp(o, s[k], s[i]) > 0)
  }

  /** Puts `x` in front of the first element it goes no later than. */
  function Insert(o: Order, x: Job, s: seq<Job>): (r: seq<Job>)
    reads x`runTime, s`runTime
    ensures |r| == |s| + 1 && forall i :: 0 <= i < |r| ==> r[i] == x || r[i] in s
  {
    if s == [] then [x]
    else if Cmp(o, x, s[0]) <= 0 then [x] + s
    else [s[0]] + Insert(o, x, s[1..])
  }

  /** The list sort: stable, so jobs that compare equal keep their list order (`SortStable`). */
  function Sort(o: Order, s: seq<Job>): (r: seq<Job>)
    reads s`runTime
    ensures |r| == |s| && forall i :: 0 <= i < |r| ==> r[i] in s
  {
    if s == [] then [] else Insert(o, s[0], Sort(o, s[1..]))
  }

  lemma {:induction false} InsertPermutation(o: Order, x: Job, s: seq<Job>)
    ensures multiset(Insert(o, x, s)) == multiset(s) + multiset{x}
    ensures |Insert(o, x, s)| == |s| + 1
  {
    if s != [] && Cmp(o, x, s[0]) > 0 {
      InsertPermutation(o, x, s[1..]);
      assert s == [s[0]] + s[1..];
    }
  }

  /** Sorting neither adds nor removes jobs. */
  lemma {:induction false} SortPermutation(o: Order, s: seq<Job>)
    ensures multiset(Sort(o, s)) == multiset(s)
    ensures |Sort(o, s)| == |s|
  {
    if s != [] {
      SortPermutation(o, s[1..]);
      InsertPermutation(o, s[0], Sort(o, s[1..]));
      assert s == [s[0]] + s[1..];
    }
  }

  lemma {:induction false} InsertSorted(o: Order, x: Job, s: seq<Job>)
    requires IsOrder(o) && Sorted(o, s)
    ensures Sorted(o, Insert(o, x, s))
  {
    if s == [] {
    } else if Cmp(o, x, s[0]) <= 0 {
      InsertFront(o, x, s);
    } else {
      CmpAntisymmetric(o, x, s[0]);
      SortedSuffix(o, s, 1);
      InsertSorted(o, x, s[1..]);
      InsertBehind(o, x, s);
    }
  }

  /** A job that goes no later than the head of a sorted list can go in front of it. */
  lemma InsertFront(o: Order, x: Job, s: seq<Job>)
    requires IsOrder(o) && Sorted(o, s) && s != [] && Cmp(o, x, s[0]) <= 0
    ensures Sorted(o, [x] + s)
  {
    var r := [x] + s;
    forall i, j | 0 <= i < j < |r| ensures Cmp(o, r[i], r[j]) <= 0 {
      if i == 0 && j > 1 {
        CmpTransitive(o, x, s[0], s[j - 1]);
      }
    }
  }

  /** The head of a sorted list stays in front when a later job is inserted behind it. */
  lemma InsertBehind(o: Order, x: Job, s: seq<Job>)
    requires IsOrder(o) && Sorted(o, s) && s != [] && Cmp(o, s[0], x) <= 0
    requires Sorted(o, Insert(o, x, s[1..]))
    ensures Sorted(o, [s[0]] + Insert(o, x, s[1..]))
  {
    var s' := s[1..];
    var t := Insert(o, x, s');
    forall j | 0 <= j < |t| ensures Cmp(o, s[0], t[j]) <= 0 {
      if t[j] != x {
        var k :| 0 <= k < |s'| && s'[k] == t[j];
        assert s[k + 1] == t[j];
      }
    }
    SortedCons(o, s[0], t);
  }

  /** A job that goes no later than every job of a sorted list can go in front of it. */
  lemma SortedCons(o: Order, a: Job, t: seq<Job>)
    requires Sorted(o, t) && forall j :: 0 <= j < |t| ==> Cmp(o, a, t[j]) <= 0
    ensures Sorted(o, [a] + t)
  {
    var r := [a] + t;
    forall i, j | 0 <= i < j < |r| ensures Cmp(o, r[i], r[j]) <= 0 {
      assert r[j] == t[j - 1];
      if i > 0 {
        assert r[i] == t[i - 1];
      }
    }
  }

  /** The sort's result is in order. */
  lemma {:induction false} SortSorted(o: Order, s: seq<Job>)
    requires IsOrder(o)
    ensures Sorted(o, Sort(o, s))
  {
    if s != [] {
      SortSorted(o, s[1..]);
      InsertSorted(o, s[0], Sort(o, s[1..]));
    }
  }

  /** The jobs of `s` that compare equal to `x`, in list order. */
  ghost function Ties(o: Order, x: Job, s: seq<Job>): seq<Job>
    reads x`runTime, s`runTime
  {
    if s == [] then []
    else if Cmp(o, x, s[0]) == 0 then [s[0]] + Ties(o, x, s[1..])
    else Ties(o, x, s[1..])
  }

  /** Two jobs that both compare equal to a third compare equal to each other. */
  lemma TiedTogether(o: Order, x: Job, a: Job, b: Job)
    requires IsOrder(o)
    ensures Cmp(o, x, a) == 0 && Cmp(o, x, b) == 0 ==> Cmp(o, a, b) == 0
  {
    if Cmp(o, x, a) == 0 && Cmp(o, x, b) == 0 {
      CmpAntisymmetric(o, x, a);
      CmpTransitive(o, a, x, b);
      CmpAntisymmetric(o, x, b);
      CmpTransitive(o, b, x, a);
      CmpAntisymmetric(o, a, b);
    }
  }

  /**
   * Inserting `x` puts it in front of every job already tied with it: among
   * the jobs tied with any `y`, `x` comes first when it is one of them, and
   * the others keep their order.
   */
  lemma {:induction false} InsertTies(o: Order, y: Job, x: Job, s: seq<Job>)
    requires IsOrder(o)
    ensures Ties(o, y, Insert(o, x, s)) == if Cmp(o, y, x) == 0 then [x] + Ties(o, y, s) else Ties(o, y, s)
  {
    if s == [] {
      assert Insert(o, x, s) == [x];
      assert [x][1..] == [];
    } else if Cmp(o, x, s[0]) <= 0 {
      assert ([x] + s)[1..] == s;
    } else {
      InsertTies(o, y, x, s[1..]);
      InsertTiesBehind(o, y, x, s);
    }
  }

  /** The step of the previous lemma where `x` goes behind the head of the list. */
  lemma InsertTiesBehind(o: Order, y: Job, x: Job, s: seq<Job>)
    requires IsOrder(o) && s != [] && Cmp(o, x, s[0]) > 0
    requires var t := Ties(o, y, s[1..]);
             Ties(o, y, Insert(o, x, s[1..])) == if Cmp(o, y, x) == 0 then [x] + t else t
    ensures Ties(o, y, Insert(o, x, s)) == if Cmp(o, y, x) == 0 then [x] + Ties(o, y, s) else Ties(o, y, s)
  {
    var r := Insert(o, x, s[1..]);
    assert Insert(o, x, s) == [s[0]] + r && ([s[0]] + r)[1..] == r;
    TiedTogether(o, y, x, s[0]);
  }

  /**
   * The sort is stable: for every job `x`, the jobs that compare equal to it
   * come out of the sort in the order they had in the list.
   */
  lemma {:induction false} SortStable(o: Order, s: seq<Job>, x: Job)
    requires IsOrder(o)
    ensures Ties(o, x, Sort(o, s)) == Ties(o, x, s)
  {
    if s != [] {
      SortStable(o, s[1..], x);
      InsertTies(o, x, s[0], Sort(o, s[1..]));
    }
  }

  /** Sorting a list that is already in order leaves it as it is. */
  lemma {:induction false} SortOfSorted(o: Order, s: seq<Job>)
    requires Sorted(o, s)
    ensures Sort(o, s) == s
  {
    if s != [] {
      SortedSuffix(o, s, 1);
      SortOfSorted(o, s[1..]);
      if |s| > 1 {
        assert Cmp(o, s[0], s[1]) <= 0;
        assert s[1..][0] == s[1];
      }
      assert [s[0]] + s[1..] == s;
    }
  }

  /** A suffix of a list in order is in order. */
  lemma SortedSuffix(o: Order, s: seq<Job>, n: nat)
    requires Sorted(o, s) && n <= |s|
    ensures Sorted(o, s[n..])
  {
    forall i, j | 0 <= i < j < |s[n..]| ensures Cmp(o, s[n..][i], s[n..][j]) <= 0 {
      assert s[n..][i] == s[n + i] && s[n..][j] == s[n + j];
    }
  }

  /**
   * The head of the sorted list is the first minimum of the input: a job that
   * goes no later than any other, ahead of every other such job in list order.
   */
  lemma {:induction false} SortHead(o: Order, s: seq<Job>) returns (i: int)
    requires IsOrder(o) && s != []
    ensures IsFirstMin(o, s, i) && Sort(o, s)[0] == s[i]
  {
    if |s| == 1 {
      i := 0;
      CmpReflexive(o, s[0]);
    } else {
      var t := s[1..];
      var i' := SortHead(o, t);
      var m := t[i'];
      assert Sort(o, t)[0] == m;
      assert Sort(o, s) == Insert(o, s[0], Sort(o, t));
      SortPermutation(o, t);
      if Cmp(o, s[0], m) <= 0 {
        i := 0;
        forall k | 0 <= k < |s| ensures Cmp(o, s[0], s[k]) <= 0 {
          if k == 0 {
            CmpReflexive(o, s[0]);
          } else {
            assert s[k] == t[k - 1];
            CmpTransitive(o, s[0], m, s[k]);
          }
        }
      } else {
        i := i' + 1;
        CmpAntisymmetric(o, s[0], m);
        assert Sort(o, s)[0] == m;
        forall k | 0 <= k < |s| ensures Cmp(o, m, s[k]) <= 0 {
          if k > 0 {
            assert s[k] == t[k - 1];
          }
        }
        forall k | 0 <= k < i ensures Cmp(o, s[k], m) > 0 {
          if k > 0 {
            assert s[k] == t[k - 1];
          }
        }
      }
    }
  }

  /**
   * What taking the head of the sorted list leaves: the head is a first minimum
   * of `s`, the rest is in order, and together they are `s` reordered.
   */
  lemma SortSplit(o: Order, s: seq<Job>)
    requires s != []
    ensures var r := Sort(o, s); multiset(r[1..]) + multiset{r[0]} == multiset(s)
    ensures IsOrder(o) ==> Sorted(o, Sort(o, s)[1..])
    ensures IsOrder(o) ==> exists i :: IsFirstMin(o, s, i) && s[i] == Sort(o, s)[0]
  {
    var r := Sort(o, s);
    SortPermutation(o, s);
    assert r == [r[0]] + r[1..];
    if IsOrder(o) {
      var i := SortHead(o, s);
      SortSorted(o, s);
      SortedSuffix(o, r, 1);
    }
  }

  /** The sorted list is its head followed by the rest. */
  lemma SortHeadTail(o: Order, s: seq<Job>)
    requires s != []
    ensures Sort(o, s) == [Sort(o, s)[0]] + Sort(o, s)[1..]
  {
  }

  /** Which of two jobs sorts first does not depend on the clock outside the ratio mode. */
  lemma {:induction false} SortIgnoresFrame(mode: int, f1: int, f2: int, s: seq<Job>)
    requires mode != HighestResponseRatioNext
    ensures Sort(ByMode(mode, f1), s) == Sort(ByMode(mode, f2), s)
  {
    if s != [] {
      SortIgnoresFrame(mode, f1, f2, s[1..]);
      InsertIgnoresFrame(mode, f1, f2, s[0], Sort(ByMode(mode, f1), s[1..]));
    }
  }

  lemma {:induction false} InsertIgnoresFrame(mode: int, f1: int, f2: int, x: Job, s: seq<Job>)
    requires mode != HighestResponseRatioNext
    ensures Insert(ByMode(mode, f1), x, s) == Insert(ByMode(mode, f2), x, s)
  {
    if s != [] {
      InsertIgnoresFrame(mode, f1, f2, x, s[1..]);
    }
  }

  /** Puts `x` in front of the first job of `s` that arrives no earlier than it. */
  function InsertByArrival(x: Job, s: seq<Job>): seq<Job>
  {
    if s == [] then [x]
    else if x.arrivalTime <= s[0].arrivalTime then [x] + s
    else [s[0]] + InsertByArrival(x, s[1..])
  }

  /**
   * The jobs of `s` in the order first come first serve runs them: by arrival,
   * and in list order among jobs that arrive together.
   */
  function ArrivalOrder(s: seq<Job>): seq<Job>
  {
    if s == [] then [] else InsertByArrival(s[0], ArrivalOrder(s[1..]))
  }

  lemma {:induction false} InsertByArrivalIsInsert(f: int, x: Job, s: seq<Job>)
    ensures Insert(ByMode(FirstComeFirstServe, f), x, s) == InsertByArrival(x, s)
  {
    if s != [] {
      InsertByArrivalIsInsert(f, x, s[1..]);
    }
  }

  /** The list sort under first come first serve, at any clock, is the arrival order. */
  lemma {:induction false} ArrivalOrderIsSort(f: int, s: seq<Job>)
    ensures Sort(ByMode(FirstComeFirstServe, f), s) == ArrivalOrder(s)
  {
    if s != [] {
      ArrivalOrderIsSort(f, s[1..]);
      InsertByArrivalIsInsert(f, s[0], ArrivalOrder(s[1..]));
    }
  }

  /** No job of `s` arrives before a job listed ahead of it. */
  predicate ArrivalSorted(s: seq<Job>)
  {
    forall i, k :: 0 <= i < k < |s| ==> s[i].arrivalTime <= s[k].arrivalTime
  }

  /** When the first job of a list sorted by arrival arrives after `f`, every job of it does. */
  lemma ArrivalsAfter(s: seq<Job>, f: int)
    requires ArrivalSorted(s) && s != [] && s[0].arrivalTime > f
    ensures forall j :: j in s ==> j.arrivalTime > f
  {
    forall j | j in s ensures j.arrivalTime > f {
      var k :| 0 <= k < |s| && s[k] == j;
      assert k == 0 || s[0].arrivalTime <= s[k].arrivalTime;
    }
  }

  /** The arrival order is a reordering of the jobs, by nondecreasing arrival. */
  lemma ArrivalOrderSorted(s: seq<Job>)
    ensures ArrivalSorted(ArrivalOrder(s)) && multiset(ArrivalOrder(s)) == multiset(s)
  {
    var fcfs := ByMode(FirstComeFirstServe, 0);
    ArrivalOrderIsSort(0, s);
    SortSorted(fcfs, s);
    SortPermutation(fcfs, s);
    var r := ArrivalOrder(s);
    forall i, k | 0 <= i < k < |r| ensures r[i].arrivalTime <= r[k].arrivalTime {
      assert Cmp(fcfs, r[i], r[k]) <= 0;
    }
  }
}
