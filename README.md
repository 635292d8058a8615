# CPU scheduler simulator, modelled in Dafny

This project models the core of a small CPU-scheduling simulator. A workload is
a list of jobs. Each job has a name, an arrival time and a duration. One of six
disciplines runs the workload on a discrete clock:

- first come first serve;
- shortest process next;
- highest response ratio next;
- round robin with a quantum;
- shortest remaining time;
- a three-level feedback queue.

Every job keeps a per-tick trace of ticks run (its name) and ticks waited (a
blank). After the run, the engine prints a ruler of digits `t % 10`, as long as
the processed jobs' durations added up, and then the traces in case-insensitive
name order.

Modules:

| module | file | what it holds |
|---|---|---|
| `Jobs` | `jobs.dfy` | The job record as a class: immutable name, arrival and duration; a run counter and a trace that the engines update in place. Also `RunSlice`, `RunComplete` and the comparator in its four sort modes, with the comparator of the earlier single-file copy beside it. |
| `Ordering` | `ordering.dfy` | The library list sort as a stable insertion sort, proved to return a sorted permutation whose head is the first minimum of its input. Also the case-insensitive name order and the arrival order. |
| `Schedulers` | `scheduler.dfy` | What every engine shares: the run result, total duration, letting a list of jobs wait, and the output step `PrintList`. |
| `JobStates` | `job_states.dfy` | The jobs' mutable fields taken as values (`Snapshot`), what one slice does to them, and the work left. |
| `Preemptive` | `preemptive.dfy` | The invariant every preemptive run keeps, and one lemma per step that keeps it. |
| `Nonpreemptive` | `nonpreemptive.dfy` | The run-to-completion engine shared by first come first serve, shortest process next and highest response ratio next, with its sort-mode rule. |
| `RoundRobin`, `RoundRobinEngine` | `round_robin.dfy`, `round_robin_engine.dfy` | The round-robin admission rule as functions, and the engine class. |
| `ShortestRemainingTimeEngine` | `srt.dfy` | The shortest-remaining-time engine. |
| `FeedbackEngine` | `feedback.dfy` | The three-queue feedback engine. |

## Modelling decisions

- **Classes and pure functions.** Jobs and engines are classes, because the
  program updates their fields in place. Each engine's `run` is a method
  with a loop.
  - The loop's invariant for the preemptive engines is `Preemptive.Invariant`.
    It ties the processed jobs, the ready queue(s) and the jobs not yet
    admitted to the input, to the clock and to every job's trace.
  - The queues and lists are `seq<Job>` fields that the methods reassign.
  - The sort, the admission rules and the demotion rule are pure functions.
    Each method is proved against them.
- **Statics become fields.** The comparator's sort mode and the clock are
  static fields in the program. Here they are fields of each engine.
  - The comparator takes the mode and the clock as parameters.
  - Creating a job resets the static mode to first come first serve. That is
    modelled as each engine's constructor setting its own `sortMode` to that
    mode.
- **Exact ratios.** The response ratio is computed with exact `real` division.
  `Jobs.ResponseRatioCrossMultiply` shows that comparing two ratios is
  comparing integer cross products.
- **Fresh inputs.** Each run takes pristine jobs without repetitions: run counter
  0 and empty trace. This is what the driver builds, one workload per run.
- **Empty ready queue.** In round robin, shortest remaining time and feedback,
  the loop can reach a tick where the ready queue is empty but the list is
  not: the head of the list has not arrived yet. The program then takes the
  first element of an empty list and throws. The model returns
  `NoReadyJob(frame)` instead.
  - Round robin and feedback keep the list in arrival order. For them the
    model proves that no job of the list has arrived by that clock.
  - Shortest remaining time keeps the list in input order and admits only its
    head. For it the model proves only that the head has not arrived. A later
    job may already have arrived. With the list [A (arrival 5, duration 1),
    B (arrival 0, duration 1)] the engine stops at clock 0: A has not arrived,
    so nothing is admitted, although B has (see "Departures" below).
- **Old copy of the code.** `src/Job.java` and `src/Scheduler.java` are an
  earlier single-file copy of the same program.
  - Its engines are line for line those of the `src/schedulers/` files:
    - round robin at `src/Scheduler.java:241-304`;
    - shortest remaining time at 347-391;
    - feedback at 444-554;
    - the non-preemptive engine at 144-199.
  - The same members model both copies. The table cites the newer files.
  - The old comparator, written with explicit less/equal/greater tests, is
    modelled separately as `Jobs.Job.LegacyCompareTo`. It is proved to agree
    with the newer one.

### Departures and points to note

In each case the model follows the code.

- **Sort mode for shortest process next and highest response ratio next.**
  - The comment at `src/schedulers/NonpreemptiveScheduler.java:55-57` says
    arrival time decides when only one job waits.
  - In the code, the pick sorts under the mode currently in force. Only after
    the pick is the mode updated (`src/schedulers/NonpreemptiveScheduler.java:54-87`):
    - it becomes first come first serve when fewer than two jobs remain;
    - it becomes the discipline's mode when more than one waiting job arrives
      strictly inside the picked job's run;
    - otherwise it stays as it was.
  - So once switched, the mode is sticky (`Nonpreemptive.NextSortModeStaysWithin`).
- **Shortest remaining time admission.**
  - The engine admits at most one job per tick: the head of the list, once
    its arrival time is at or before the clock
    (`src/schedulers/ShortestRemainingTimeScheduler.java:37-39`).
  - The list is never sorted by arrival. A job behind a later-arriving head
    waits for that head, and the run can stop idle while it has arrived.
- **Shortest remaining time ties.**
  - The running job does not keep the processor on a tie. An unfinished job
    is appended at the back of the queue
    (`src/schedulers/ShortestRemainingTimeScheduler.java:58-60`).
  - The next pick sorts the queue stably
    (`src/schedulers/ShortestRemainingTimeScheduler.java:72`), so any job ahead
    of it with equal remaining time goes first.
  - `ShortestRemainingTimeEngine.ShortestRemainingTimeScheduler.Tick` puts the
    job at the back of the rest, and `ShortestRemainingTimeEngine.SortedHead`
    takes the frontmost job of least remaining time.
- **Feedback demotion.**
  - The comment at `src/schedulers/FeedbackScheduler.java:121-128` says an
    unfinished job stays at its level when the queues are empty *or* the next
    arrival is due at the next tick. `FeedbackEngine.KeepsLevelAsCommented`
    states that rule.
  - The code demotes the job when the queues are not empty *or* the head of
    the list arrives at the next tick (`src/schedulers/FeedbackScheduler.java:129-132`).
    `FeedbackEngine.Demotes` states that.
  - The two disagree exactly when the head of the list arrives at the next
    tick: the comment keeps the level, the code demotes
    (`FeedbackEngine.DemotesVersusComment`, `FeedbackEngine.ArrivalNextDemotes`).
  - Feedback also admits at most one arrival per tick.
- **Round robin's done flag.**
  - The flag goes up when a slice finishes its job.
  - It comes down only when an arrival is admitted while it is up
    (`src/schedulers/RoundRobinScheduler.java:50-55`). A slice that does not
    finish its job leaves it as it was.
- **Job validation.**
  - The job constructor (`src/driver/Job.java:27-34`) accepts any arrival
    time and duration.
  - The model types arrival times as `nat` and durations as positive (see
    "Left out").

## Model

| member | source | states |
|---|---|---|
| Jobs.Runs | src/driver/Job.java:66-68 | `n` markers, none when `n <= 0`, each a run of the named job |
| Jobs.Job.RemainingTime | src/driver/Job.java:56-58 | work is left exactly while the job has run less than its duration, and never more than the duration |
| Jobs.Job.ResponseRatio | src/driver/Job.java:113-118 | the ratio is exactly 1 at the arrival time and above 1 exactly once the job has waited |
| Jobs.Waits | src/driver/Job.java:86-88 | `n` wait markers, none when `n <= 0` |
| Jobs.RunTicksAppend | src/driver/Job.java:78-89 | the run ticks of a trace add up over concatenation |
| Jobs.RunTicksOfRuns | src/driver/Job.java:65-69 | a block of `n` run markers counts `n` run ticks |
| Jobs.RunTicksOfWaits | src/driver/Job.java:86-88 | a block of wait markers counts no run tick |
| Jobs.IntCompare | src/driver/Job.java:104 | three-way integer comparison: negative iff less, zero iff equal, within -1..1 |
| Jobs.RatioCompare | src/driver/Job.java:121 | the same for two exact ratios |
| Jobs.Job.constructor | src/driver/Job.java:27-34 | the given name, arrival and duration; run counter 0; empty trace; remaining time equals the duration |
| Jobs.Job.RunComplete | src/driver/Job.java:65-69 | appends exactly `duration` run markers; the run counter is untouched; the counted run ticks grow by the duration |
| Jobs.Job.RunSlice | src/driver/Job.java:78-89 | appends `timeSlice` runs then `wait` waits; the run counter grows by `timeSlice` and the remaining time shrinks by it |
| Jobs.Job.CompareTo | src/driver/Job.java:99-130 | per sort mode, negative iff this job goes first and zero iff tied: earlier arrival; shorter duration; higher response ratio; less remaining time. Any other mode answers 1 |
| Jobs.Job.LegacyCompareTo | src/Job.java:104-155 | the same per-mode meaning for the old comparator's explicit tests |
| Jobs.LegacyCompareToAgrees | src/Job.java:108-154 | the old and the new comparator answer the same for all jobs, modes and clocks |
| Jobs.CompareToReflexive | src/driver/Job.java:103-126 | in the four sort modes a job compares equal to itself |
| Jobs.CompareToAntisymmetric | src/driver/Job.java:103-126 | swapping the jobs negates the answer |
| Jobs.CompareToTransitive | src/driver/Job.java:103-126 | "goes no later than" is transitive in every sort mode |
| Jobs.CompareToOutsideSortModes | src/driver/Job.java:127-129 | outside the four sort modes every comparison, even of a job with itself, answers 1 |
| Jobs.ResponseRatioAtArrival | src/driver/Job.java:113-114 | a job with zero wait has ratio exactly 1 |
| Jobs.ResponseRatioMonotone | src/driver/Job.java:113-118 | for fixed arrival and duration the ratio never decreases as the clock advances |
| Jobs.ResponseRatioCrossMultiply | src/driver/Job.java:113-121 | ratio order and equality are integer cross-product order and equality |
| Jobs.QuotientsCompare | src/driver/Job.java:113-121 | quotients with positive denominators compare, and are equal, as their cross products |
| Jobs.CompareToByResponseRatio | src/driver/Job.java:111-122 | under the ratio mode the comparator answers by the cross products, the higher ratio first |
| Ordering.CompareIgnoreCaseReflexive | src/schedulers/Scheduler.java:59 | case-insensitive name comparison: a name equals itself |
| Ordering.CompareIgnoreCase | src/schedulers/Scheduler.java:59 | within -1..1, and zero exactly when the names have equal length and agree character by character after case folding |
| Ordering.CompareIgnoreCaseAntisymmetric | src/schedulers/Scheduler.java:59 | swapping the names negates the answer |
| Ordering.CompareIgnoreCaseTransitive | src/schedulers/Scheduler.java:59 | the name order is transitive |
| Ordering.Sort | src/schedulers/Scheduler.java:82 | the sorted list has the input's length and only input jobs |
| Ordering.SortPermutation | src/schedulers/Scheduler.java:82 | sorting neither adds nor drops jobs (same multiset) |
| Ordering.SortSorted | src/schedulers/Scheduler.java:82 | under any comparator that is a total preorder the result is in order |
| Ordering.SortOfSorted | src/schedulers/Scheduler.java:82 | a list already in order is left unchanged |
| Ordering.InsertTies | src/schedulers/Scheduler.java:82 | inserting a job puts it in front of the jobs already tied with it and keeps their order |
| Ordering.SortStable | src/schedulers/Scheduler.java:82 | the sort is stable: the jobs tied with any job come out in the order they had in the list |
| Ordering.SortHead | src/schedulers/Scheduler.java:81-84 | the head of the sorted list is the first minimum of the input in list order |
| Ordering.SortSplit | src/schedulers/Scheduler.java:81-84 | after sort and remove-first, the head plus the rest are the input reordered, the rest is in order, and the head is a first minimum |
| Ordering.SortIgnoresFrame | src/driver/Job.java:103-126 | only the ratio mode's sort depends on the clock |
| Ordering.ArrivalOrderIsSort | src/schedulers/RoundRobinScheduler.java:32-33 | the first come first serve sort, at any clock, is the arrival order |
| Ordering.ArrivalOrderSorted | src/schedulers/RoundRobinScheduler.java:32-33 | the arrival order is a reordering of the input by nondecreasing arrival |
| Ordering.ArrivalsAfter | src/schedulers/FeedbackScheduler.java:98-99 | in a list sorted by arrival whose head has not arrived, no job has arrived |
| Schedulers.TotalDurationAppend | src/schedulers/Scheduler.java:50-52 | total duration is additive over concatenation |
| Schedulers.TotalDurationPermutation | src/schedulers/Scheduler.java:50-59 | reordering the jobs keeps the total, so the ruler does not depend on the name sort |
| Schedulers.WaitAll | src/schedulers/RoundRobinScheduler.java:69-74 | every job of the list gains exactly `wait` wait markers; no run counter moves |
| Schedulers.PrintList | src/schedulers/Scheduler.java:48-62 | the ruler has total-duration length with `ruler[t] == t % 10`; the listing is the stable sort by case-insensitive name, a permutation, and in order |
| JobStates.WaitAccounted | src/driver/Job.java:86-88 | waiting keeps a job's run counter equal to the run ticks of its trace |
| JobStates.RunAccounted | src/driver/Job.java:78-89 | running at most the remaining time keeps the counter equal to the run ticks, within 0..duration |
| JobStates.WorkLeftAfterSlice | src/schedulers/RoundRobinScheduler.java:66-74 | a slice of `n` ticks of one job takes `n` off the work the input has left |
| JobStates.WorkLeftOfUnstarted | src/schedulers/RoundRobinScheduler.java:31-34 | before anything runs, the work left is the total duration |
| JobStates.WorkLeftFinished | src/schedulers/RoundRobinScheduler.java:37 | once every job has done its duration no work is left |
| Preemptive.AdmitHead | src/schedulers/ShortestRemainingTimeScheduler.java:37-39 | admitting the head of the list anywhere into the ready queue keeps the run invariant |
| Preemptive.ReorderQueue | src/schedulers/ShortestRemainingTimeScheduler.java:72 | reordering the ready queue keeps the run invariant |
| Preemptive.HeadDispatchable | src/schedulers/RoundRobinScheduler.java:62 | the queue head is an input job with work left that occurs nowhere else; the other jobs are input jobs without overlap |
| Preemptive.SliceKeepsInvariant | src/schedulers/RoundRobinScheduler.java:66-86 | one slice of `n` ticks keeps the invariant: the head is requeued at the end or finished, everyone else waits, the clock moves `n` |
| Preemptive.SliceKeepsInvariantByArrival | src/schedulers/RoundRobinScheduler.java:66-86 | the same slice step keeps the invariant of the engines whose list stays in arrival order |
| Preemptive.WithinTotal | src/schedulers/RoundRobinScheduler.java:37 | the clock stays within the total duration, the bound that makes every loop terminate |
| Preemptive.InvariantAtStart | src/schedulers/RoundRobinScheduler.java:28-34 | pristine jobs, none admitted, satisfy the invariant at clock 0 |
| Preemptive.ArrivalOrderAtStart | src/schedulers/RoundRobinScheduler.java:31-34 | pristine jobs sorted by arrival, none admitted, satisfy that invariant at clock 0 (also `src/schedulers/FeedbackScheduler.java:85-88`) |
| Preemptive.InvariantAtEnd | src/schedulers/RoundRobinScheduler.java:37-89 | with list and queue empty, every input job is processed, did its whole duration, has a trace tagged with its name and no longer than the clock, and the clock is the total duration |
| Nonpreemptive.ArrivingWithinCountsPositions | src/schedulers/NonpreemptiveScheduler.java:69-81 | the scan counts exactly the waiting jobs arriving strictly inside the window |
| Nonpreemptive.NextSortMode | src/schedulers/NonpreemptiveScheduler.java:54-87 | fewer than two jobs remaining gives first come first serve; otherwise two or more waiting jobs arriving strictly inside the window give the discipline's mode, and fewer leave the mode as it was |
| Nonpreemptive.NextSortModeStaysWithin | src/schedulers/NonpreemptiveScheduler.java:59-86 | the mode stays first come first serve or the discipline's mode, and once switched it stays while two or more jobs wait |
| Nonpreemptive.NarrowWindowKeepsMode | src/schedulers/NonpreemptiveScheduler.java:63-85 | a picked job of duration 1 never changes the mode while two or more jobs wait |
| Nonpreemptive.ArrivalPick | src/schedulers/FirstComeFirstServeScheduler.java:24-27 | each first come first serve pick extends a prefix of the input's arrival order |
| Nonpreemptive.BackToBackAt | src/schedulers/NonpreemptiveScheduler.java:36-42 | in a back-to-back run the k-th job waits the durations before it, then runs its own |
| Nonpreemptive.TracesFollowSchedule | src/schedulers/NonpreemptiveScheduler.java:38-41 | traces that follow the schedule are, job by job, waits up to the start then the whole duration in runs |
| Nonpreemptive.NonpreemptiveScheduler.constructor | src/schedulers/Scheduler.java:31-35 | the list as given, nothing processed, clock 0, mode first come first serve |
| Nonpreemptive.NonpreemptiveScheduler.NextInOrder | src/schedulers/Scheduler.java:81-84 | takes the head of the stable sort under the current mode and clock and leaves the rest of the sorted list; one job fewer, the same multiset (`Ordering.SortSplit` shows the job is a first minimum and the rest sorted) |
| Nonpreemptive.NonpreemptiveScheduler.UpdateSortMode | src/schedulers/NonpreemptiveScheduler.java:54-87 | the new mode is `NextSortMode` of the old mode, the remaining jobs and the picked job's window |
| Nonpreemptive.NonpreemptiveScheduler.Next | src/schedulers/ShortestProcessNextScheduler.java:24-28 | first come first serve forces its mode and sorts; the other two sort under the current mode and pick the head, then the mode becomes `NextSortMode` of the old mode, the rest of the list and the picked job's run (`ModeAfterPick`) |
| Nonpreemptive.NonpreemptiveScheduler.Execute | src/schedulers/NonpreemptiveScheduler.java:37-41 | the job waits until the clock, then runs its whole duration; it is appended to the processed jobs; the clock advances by its duration |
| Nonpreemptive.NonpreemptiveScheduler.Pick | src/schedulers/FirstComeFirstServeScheduler.java:24-27 | the job is the head of the stable sort of the old list, under first come first serve for that discipline and under the old mode for the other two, at the clock; the list becomes the rest of that sort; the new mode is `ModeAfterPick` of the old mode, the rest and the picked job's run, and so stays within its two values; for first come first serve the processed jobs, the job and the rest are the arrival order of the input |
| Nonpreemptive.NonpreemptiveScheduler.Complete | src/schedulers/NonpreemptiveScheduler.java:38-41 | running a not yet processed job appends it to the processed jobs, advances the clock by its duration, gives it a trace of waits up to the old clock then its whole duration in runs, and keeps the back-to-back record |
| Nonpreemptive.NonpreemptiveScheduler.Step | src/schedulers/NonpreemptiveScheduler.java:36-42 | one loop pass keeps the run invariant: the job is the head of the stable sort of the old list under the mode in force at the old clock, the list is the rest, the new mode is `NextSortMode` over the picked job's run for shortest process next and highest response ratio next (`ModeAfterPick`), the job is appended to the processed jobs with a trace of waits up to the old clock then its whole duration, and the clock advances by its duration |
| Nonpreemptive.NonpreemptiveScheduler.Advance | src/schedulers/NonpreemptiveScheduler.java:38-42 | running the picked job restores the run invariant, appends it to the processed jobs, gives it its back-to-back trace and advances the clock by its duration; the list and the mode stay |
| Nonpreemptive.NonpreemptiveScheduler.InvariantAtStart | src/schedulers/Scheduler.java:31-35 | a fresh engine over pristine jobs satisfies the run invariant |
| Nonpreemptive.NonpreemptiveScheduler.InvariantAtEnd | src/schedulers/NonpreemptiveScheduler.java:36-44 | with the list empty, every input job is processed once, the clock is the total duration, the traces are back to back, and first come first serve ran the arrival order |
| Nonpreemptive.NonpreemptiveScheduler.RunJobs | src/schedulers/NonpreemptiveScheduler.java:34-43 | the engine loop processes every input job exactly once, back to back from clock 0; for first come first serve in stable arrival order |
| Nonpreemptive.NonpreemptiveScheduler.Run | src/schedulers/NonpreemptiveScheduler.java:34-45 | after the loop and the output step: all jobs processed, listed as the stable name sort of the run order, ruler as long as the clock; the run order, before the name sort, has back-to-back traces and is the arrival order for first come first serve |
| Nonpreemptive.NonpreemptiveScheduler.Report | src/schedulers/Scheduler.java:48-62 | the output step leaves the processed jobs equal to their stable sort by name (jobs whose names are equal ignoring case keep their processing order), keeps the multiset and returns the ruler |
| RoundRobin.AdmitAllShape | src/schedulers/RoundRobinScheduler.java:47-59 | one admission phase lowers the done flag; the arrivals go in front of the just-preempted last job, or the first of them goes last when the queue was empty or a job had just finished |
| RoundRobin.Enqueue | src/schedulers/RoundRobinScheduler.java:48-58 | one admission lengthens the queue by one and leaves the flag down |
| RoundRobin.AdmitAll | src/schedulers/RoundRobinScheduler.java:47-59 | an admission phase adds every arrival to the queue, and lowers the flag when there was at least one |
| RoundRobin.AdmitAllInFront | src/schedulers/RoundRobinScheduler.java:56-58 | with a job just preempted at the back, the arrivals keep their order in front of it and the flag stays down |
| RoundRobin.AdmitAllAtBack | src/schedulers/RoundRobinScheduler.java:50-55 | with an empty queue or a job just finished, the first arrival goes last, the later ones line up in front of it, and the flag comes down |
| RoundRobin.SliceLength | src/schedulers/RoundRobinScheduler.java:63 | the slice is the quantum or the remaining time, whichever is smaller |
| RoundRobin.EnqueueMultiset | src/schedulers/RoundRobinScheduler.java:50-58 | one admission adds the arrival to the queue and changes nothing else in it |
| RoundRobin.AdmitOne | src/schedulers/RoundRobinScheduler.java:48-58 | admitting the list's head keeps the round-robin invariant |
| RoundRobin.AdmitKeepsInvariant | src/schedulers/RoundRobinScheduler.java:47-59 | a whole admission phase keeps the round-robin invariant |
| RoundRobinEngine.RoundRobinScheduler.constructor | src/schedulers/RoundRobinScheduler.java:18-21 | the list and quantum as given, nothing processed, clock 0 |
| RoundRobinEngine.RoundRobinScheduler.Start | src/schedulers/RoundRobinScheduler.java:28-34 | the queue empty, the flag down, the list in arrival order, the clock 0, no job changed |
| RoundRobinEngine.RoundRobinScheduler.Admit | src/schedulers/RoundRobinScheduler.java:47-59 | the admitted jobs are the longest arrived prefix of the list, and they join the queue as `AdmitAll` says |
| RoundRobinEngine.RoundRobinScheduler.AdmitArrivals | src/schedulers/RoundRobinScheduler.java:47-59 | the admission phase keeps the run invariant; the admitted jobs are a prefix of the old list, all arrived, and the queue and flag become `AdmitAll` of their old values and those jobs; the new head of the list has not arrived |
| RoundRobinEngine.RoundRobinScheduler.Dispatch | src/schedulers/RoundRobinScheduler.java:62-63 | takes the queue head, with the slice `SliceLength` gives it |
| RoundRobinEngine.RoundRobinScheduler.Execute | src/schedulers/RoundRobinScheduler.java:66-74 | the job states become `AfterSlice`: the head runs the slice, the queue and the list wait it |
| RoundRobinEngine.RoundRobinScheduler.Take | src/schedulers/RoundRobinScheduler.java:62-63 | the job is the old queue head and the queue its tail; the invariant holds with the job set apart; the slice is `SliceLength` of its remaining time |
| RoundRobinEngine.RoundRobinScheduler.Slice | src/schedulers/RoundRobinScheduler.java:61-86 | the old queue head runs `SliceLength` of its remaining time, between 1 and the quantum, while the rest of the queue and the list wait; the clock advances by the slice; an unfinished job goes to the back and the flag is unchanged, a finished one is processed and raises the flag; the run invariant holds |
| RoundRobinEngine.RoundRobinScheduler.Retire | src/schedulers/RoundRobinScheduler.java:76-86 | an unfinished job goes to the back of the queue and leaves the flag as it was; a finished one is processed and raises the flag; the clock advances by the slice; no job changes; the run invariant holds again |
| RoundRobinEngine.RoundRobinScheduler.Commit | src/schedulers/RoundRobinScheduler.java:76-86 | the new queue, processed jobs, flag and clock take effect; no job changes, so the run invariant they keep holds |
| RoundRobinEngine.RoundRobinScheduler.RunJobs | src/schedulers/RoundRobinScheduler.java:37-87 | the loop keeps the run invariant and ends with list and queue empty, or idle with no listed job arrived |
| RoundRobinEngine.RoundRobinScheduler.Run | src/schedulers/RoundRobinScheduler.java:25-91 | a finished run processed every input job in full, with traces tagged by name and no longer than the clock; name order; ruler as long as the clock. Otherwise `NoReadyJob` with nothing arrived |
| RoundRobinEngine.RoundRobinScheduler.Conclude | src/schedulers/RoundRobinScheduler.java:37-89 | a drained run is processed in full and left as its stable sort by name, with its ruler; an idle one reports its clock with no listed job arrived |
| RoundRobinEngine.RoundRobinScheduler.Begin | src/schedulers/RoundRobinScheduler.java:28-34 | the start of a run sorts the list by arrival, empties the queue, lowers the flag, sets the clock to 0, and establishes the run invariant |
| RoundRobinEngine.RoundRobinScheduler.Finish | src/schedulers/RoundRobinScheduler.java:89 | a drained run has processed every input job in full, and the output step leaves them as their stable sort by name |
| RoundRobinEngine.RoundRobinScheduler.Report | src/schedulers/Scheduler.java:48-62 | the output step leaves the processed jobs equal to their stable sort by name (jobs whose names are equal ignoring case keep their processing order), keeps the multiset and returns the ruler |
| ShortestRemainingTimeEngine.ByRemainingTime | src/schedulers/ShortestRemainingTimeScheduler.java:71-72 | the queue's order is a total preorder |
| ShortestRemainingTimeEngine.SortedHead | src/schedulers/ShortestRemainingTimeScheduler.java:70-74 | the job taken has the least remaining time and is the frontmost such job; the rest is in order of remaining time |
| ShortestRemainingTimeEngine.SortKeepsInvariant | src/schedulers/ShortestRemainingTimeScheduler.java:72-73 | sorting the queue and taking its head keeps the invariant |
| ShortestRemainingTimeEngine.ShortestRemainingTimeScheduler.constructor | src/schedulers/ShortestRemainingTimeScheduler.java:16-21 | the list as given, queue empty, nothing processed, clock 0 |
| ShortestRemainingTimeEngine.ShortestRemainingTimeScheduler.Admit | src/schedulers/ShortestRemainingTimeScheduler.java:37-39 | at most the list's head joins the end of the queue, exactly when it has arrived |
| ShortestRemainingTimeEngine.ShortestRemainingTimeScheduler.AdmitArrival | src/schedulers/ShortestRemainingTimeScheduler.java:37-39 | the admission step keeps the run invariant |
| ShortestRemainingTimeEngine.ShortestRemainingTimeScheduler.Next | src/schedulers/ShortestRemainingTimeScheduler.java:70-74 | the mode becomes shortest remaining time; the job is the head of the stably sorted queue and the rest stays |
| ShortestRemainingTimeEngine.ShortestRemainingTimeScheduler.Execute | src/schedulers/ShortestRemainingTimeScheduler.java:44-52 | the job states become `AfterSlice` for one tick |
| ShortestRemainingTimeEngine.ShortestRemainingTimeScheduler.Choose | src/schedulers/ShortestRemainingTimeScheduler.java:41 | the job is the head of the old queue stably sorted by remaining time and the queue is the rest; the mode is shortest remaining time; no job changes; the invariant holds with the job set apart |
| ShortestRemainingTimeEngine.ShortestRemainingTimeScheduler.Tick | src/schedulers/ShortestRemainingTimeScheduler.java:41-62 | the head of the sorted queue runs one tick while the rest of the queue and the list wait; an unfinished job goes to the back of the rest, a finished one is processed; the list stays, the clock advances by one, and the run invariant holds |
| ShortestRemainingTimeEngine.ShortestRemainingTimeScheduler.Retire | src/schedulers/ShortestRemainingTimeScheduler.java:55-62 | a finished job is processed, an unfinished one goes to the back of the queue; the clock advances by one; no job changes; the run invariant holds again |
| ShortestRemainingTimeEngine.ShortestRemainingTimeScheduler.Commit | src/schedulers/ShortestRemainingTimeScheduler.java:55-62 | the new queue, processed jobs and clock take effect; no job changes |
| ShortestRemainingTimeEngine.ShortestRemainingTimeScheduler.RunJobs | src/schedulers/ShortestRemainingTimeScheduler.java:31-63 | the loop keeps the run invariant and ends drained, or idle with the list's head not arrived |
| ShortestRemainingTimeEngine.ShortestRemainingTimeScheduler.Run | src/schedulers/ShortestRemainingTimeScheduler.java:25-67 | a finished run processed every input job in full, named traces, name order, ruler as long as the clock; otherwise `NoReadyJob` |
| ShortestRemainingTimeEngine.ShortestRemainingTimeScheduler.Conclude | src/schedulers/ShortestRemainingTimeScheduler.java:31-65 | a drained run is processed in full and left as its stable sort by name, with its ruler; an idle one reports its clock with the list's head not arrived |
| ShortestRemainingTimeEngine.ShortestRemainingTimeScheduler.Begin | src/schedulers/ShortestRemainingTimeScheduler.java:27 | the clock at 0 over pristine jobs establishes the run invariant |
| ShortestRemainingTimeEngine.ShortestRemainingTimeScheduler.Finish | src/schedulers/ShortestRemainingTimeScheduler.java:65 | a drained run has processed every input job in full, and the output step leaves them as their stable sort by name |
| ShortestRemainingTimeEngine.ShortestRemainingTimeScheduler.Report | src/schedulers/Scheduler.java:48-62 | the output step leaves the processed jobs equal to their stable sort by name (jobs whose names are equal ignoring case keep their processing order), keeps the multiset and returns the ruler |
| FeedbackEngine.Level | src/schedulers/FeedbackScheduler.java:61-77 | the next level is 1..3, one down from 1 or 2 exactly when demoted, never up, and 3 stays 3 |
| FeedbackEngine.Enqueued | src/schedulers/FeedbackScheduler.java:61-77 | the three queues together gain exactly the job |
| FeedbackEngine.DemotesVersusComment | src/schedulers/FeedbackScheduler.java:121-132 | the code's demotion rule and the rule of the comment above it disagree exactly when the head of the list arrives at the next tick |
| FeedbackEngine.ArrivalNextDemotes | src/schedulers/FeedbackScheduler.java:129-132 | an arrival due at the next tick demotes the job even with all queues empty |
| FeedbackEngine.AdmitOne | src/schedulers/FeedbackScheduler.java:98-99 | admitting the list's head into the first queue keeps the invariant |
| FeedbackEngine.Admitted | src/schedulers/FeedbackScheduler.java:98-99 | the head moves to the first queue exactly when it has arrived; first queue and list, end to end, are unchanged |
| FeedbackEngine.AdmitKeepsInvariant | src/schedulers/FeedbackScheduler.java:98-99 | the admission step keeps the invariant |
| FeedbackEngine.Dispatchable | src/schedulers/FeedbackScheduler.java:115-119 | the job taken is an input job with work left found nowhere else; the queues and list are input jobs without overlap |
| FeedbackEngine.Dequeued | src/schedulers/FeedbackScheduler.java:101-113 | the head of the highest-priority non-empty queue, with its level; the queues together lose exactly their first job |
| FeedbackEngine.TakeKeepsInvariant | src/schedulers/FeedbackScheduler.java:101-113 | taking a job keeps the invariant with the job set apart |
| FeedbackEngine.TickKeepsInvariant | src/schedulers/FeedbackScheduler.java:115-139 | one tick with the job requeued anywhere or finished keeps the invariant, and the clock stays within the total duration |
| FeedbackEngine.FeedbackScheduler.constructor | src/schedulers/FeedbackScheduler.java:20-25 | the list as given, three empty queues, nothing processed, clock 0 |
| FeedbackEngine.FeedbackScheduler.EmptyQueues | src/schedulers/FeedbackScheduler.java:33-35 | true iff the three queues together hold no job |
| FeedbackEngine.FeedbackScheduler.Start | src/schedulers/FeedbackScheduler.java:85-88 | the list in arrival order, the clock 0, no job changed |
| FeedbackEngine.FeedbackScheduler.Admit | src/schedulers/FeedbackScheduler.java:98-99 | the first queue and the list become `Admitted` of their old values |
| FeedbackEngine.FeedbackScheduler.AdmitArrival | src/schedulers/FeedbackScheduler.java:98-99 | the first queue and the list become `Admitted` of their old values; no job changes; the run invariant holds |
| FeedbackEngine.FeedbackScheduler.Dequeue | src/schedulers/FeedbackScheduler.java:101-113 | the job, its level and the queues are `Dequeued` of the old queues |
| FeedbackEngine.FeedbackScheduler.Take | src/schedulers/FeedbackScheduler.java:101-113 | the job, its level and the three queues are `Dequeued` of the old queues; no job changes; the invariant holds with the job set apart |
| FeedbackEngine.FeedbackScheduler.WaitJobs | src/schedulers/FeedbackScheduler.java:42-51 | every job in the list and the queues gains one wait marker; no run counter moves |
| FeedbackEngine.FeedbackScheduler.Execute | src/schedulers/FeedbackScheduler.java:115-119 | the job states become `AfterSlice` for one tick |
| FeedbackEngine.FeedbackScheduler.Place | src/schedulers/FeedbackScheduler.java:129-136 | an unfinished job goes to the end of the queue `Level` names on the `Demotes` rule; a finished one is appended to the processed jobs; nothing else moves |
| FeedbackEngine.FeedbackScheduler.Retire | src/schedulers/FeedbackScheduler.java:129-139 | an unfinished job goes to the end of the queue `Level` names on the `Demotes` rule, a finished one to the processed jobs, and nothing else moves; the clock advances by one; the run invariant holds again |
| FeedbackEngine.FeedbackScheduler.Commit | src/schedulers/FeedbackScheduler.java:129-139 | the new queues, processed jobs and clock take effect; no job changes, so the run invariant they keep holds |
| FeedbackEngine.FeedbackScheduler.Tick | src/schedulers/FeedbackScheduler.java:101-139 | the job and level are `Dequeued` of the old queues; the job runs one tick while the other queued and listed jobs wait; it is then placed by `Level` and `Demotes` or processed; the list stays, the clock advances by one within the total duration, and the run invariant holds |
| FeedbackEngine.FeedbackScheduler.Step | src/schedulers/FeedbackScheduler.java:91-140 | one loop pass admits as `Admitted` says, then either finds every queue empty with no listed job arrived and changes nothing else, or ticks the job `Dequeued` gives, as `Tick` states; the run invariant holds |
| FeedbackEngine.FeedbackScheduler.RunJobs | src/schedulers/FeedbackScheduler.java:91-140 | the loop keeps the run invariant and ends drained, or idle with no listed job arrived |
| FeedbackEngine.FeedbackScheduler.Run | src/schedulers/FeedbackScheduler.java:80-143 | a finished run processed every input job in full, named traces, name order, ruler as long as the clock; otherwise `NoReadyJob` with nothing arrived |
| FeedbackEngine.FeedbackScheduler.Conclude | src/schedulers/FeedbackScheduler.java:91-142 | a drained run is processed in full and left as its stable sort by name, with its ruler; an idle one reports its clock with no listed job arrived |
| FeedbackEngine.FeedbackScheduler.Begin | src/schedulers/FeedbackScheduler.java:85-88 | the start of a run sorts the list by arrival, sets the clock to 0 and establishes the run invariant |
| FeedbackEngine.FeedbackScheduler.Finish | src/schedulers/FeedbackScheduler.java:142 | a drained run has processed every input job in full, and the output step leaves them as their stable sort by name |
| FeedbackEngine.FeedbackScheduler.Report | src/schedulers/Scheduler.java:48-62 | the output step leaves the processed jobs equal to their stable sort by name (jobs whose names are equal ignoring case keep their processing order), keeps the multiset and returns the ruler |

## Left out

- Printing is not modelled. `PrintList` returns the ruler and the name-ordered listing instead of printing them. `Job.print`, the discipline banners and the run's line breaks are left out.
- The driver `src/driver/OS.java` is left out: the menu, reading the workload file and prompting for the quantum. The quantum's lower bound of 1 from that prompt is kept as the type `Positive`.
- `src/schedulers/PreemptiveScheduler.java` is left out: it is an empty base class.
- Java's 32-bit `int` is not modelled. The clock, arrival times, durations and counters are unbounded integers, so overflow on huge workloads is outside the model.
- Floating point is not modelled. `Jobs.Job.CompareTo` compares response ratios exactly. `Double.compare` on rounded doubles can call two nearly equal ratios unequal, or the other way round.
- Jobs.Job.constructor: takes arrival times as `nat` and durations as positive. The program accepts any `int`, and the model says nothing about how the engines treat zero or negative values.
- `Nonpreemptive.NonpreemptiveScheduler.Run` and the preemptive `Run` methods take pristine jobs without repetitions. A workload that reuses a job object, or one that already ran, is outside the model.
- Every preemptive `Run` returns `NoReadyJob(frame)` where the program throws on an empty ready queue. The idle ticks the program never reaches are not modelled.
- `addToQueue` of the feedback engine is not a method of its own. It is `FeedbackEngine.Level` plus `FeedbackEngine.Enqueued`, applied by `Place` and made effective by `Commit`. So the in-place append to one of three lists is modelled as new values for all three.
- Ordering.CompareIgnoreCase: folds only the ASCII letters A-Z, where Java's `compareToIgnoreCase` folds every Unicode letter; it also answers only -1, 0 or 1, where Java returns the difference of the first unequal folded characters or of the lengths. Only the sign is used by the sort, so the name order agrees on ASCII names.
- Java's sort, which is a merge sort, is modelled by a stable insertion sort. They agree on every comparator that is a total preorder. They may not agree in a mode where the comparator always answers 1, but no engine sorts in such a mode.
- `Scheduler.getFrame`, `Job.setSortMode` and the job getters have no members of their own. They become reads and writes of the engine's `frame` and `sortMode` fields and of the job's constant fields.
