# TaskScheduler dispatch bookkeeping in Dafny

This project models the sequential core of `thread::Scheduler`, a fixed-size worker-thread
pool. The scheduler keeps a worker count, a round-robin cursor (`mThreadSchedId`), one FIFO
job queue per worker (`mJobs`) and one lifecycle state per worker (`mThreadState`, either
`Active` or `Terminate`). Most changes to this state happen inside the scheduler's mutex;
the cursor update in `schedule` and the state fill in `~Scheduler` do not (see
"## Left out"). The model treats each operation as one atomic step, and an arbitrary
sequence of calls stands for an interleaving of the caller thread and the worker threads.

Files:

- `unsigned.dfy` (module `Unsigned`): `unsigned int` subtraction and addition with 32-bit
  wrap-around, and `std::min`.
- `round_robin.dfy` (module `RoundRobin`): `Dispatched(h, t, q)` is the part of a dispatch
  history `h` that a cursor cycling over `t` workers sends to worker `q`. Lemmas give its
  size, where each job lands, and how scheduling and taking a job change the queues.
- `scheduler.dfy` (module `Thread`): `ThreadCount`, and the class `Scheduler<Job>` with
  its constructor, `Schedule`, `WorkerStep` (one iteration of `runner` after its wait) and
  `Shutdown` (the state change made by `~Scheduler`). Two ghost fields record every job
  ever scheduled (`scheduled`) and how many jobs each worker has taken (`taken`). The
  invariant `Valid()` says that each queue holds its worker's round-robin share of the
  history, in scheduling order, minus the jobs that worker has already taken.
- `scenarios.dfy` (module `Scenarios`): client methods that walk through example runs. With
  two workers and four jobs, worker 0 runs the 1st and 3rd job and worker 1 runs the 2nd
  and 4th. With 4 hardware threads and 1000 requested, 3 workers are created. Queued jobs
  are dropped at teardown.

Jobs are opaque values of the type parameter `Job`. Running a job, and the promise/future
that carries its result, are not modelled.

Two behaviours of the code that the model reproduces as written:

- `std::thread::hardware_concurrency() - 1` is computed in `unsigned int` and is not
  clamped. A hardware count of 0 wraps around to 2^32 - 1 and grants the full request. A
  hardware count of 1 gives zero workers, after which `schedule` indexes an empty vector
  and reduces the cursor modulo 0. `ThreadCount` states both outcomes, and `Schedule`
  requires at least one worker.
- A job that throws is not caught.

## Model

| member | source | states |
|---|---|---|
| `Unsigned.Sub` | include/scheduler.hh:75-76 | the `unsigned int` difference is the unique 32-bit value congruent to the mathematical difference modulo 2^32 |
| `Unsigned.Add` | include/scheduler.hh:118 | the `unsigned int` sum is the unique 32-bit value congruent to the mathematical sum modulo 2^32 |
| `Unsigned.Min` | include/scheduler.hh:78 | `std::min` returns one of its arguments, and that argument is no larger than either |
| `Thread.ThreadCount` | include/scheduler.hh:75-78 | the worker count never exceeds the request; hardware 0 wraps around and grants the full request; for hardware >= 1 it is the mathematical min(hardware - 1, requested); it is 0 exactly when hardware is 1 or nothing is requested |
| `Thread.Scheduler.constructor` | include/scheduler.hh:74-88 | creates `ThreadCount(hardware, requested)` workers, each with an empty queue and the `Active` state; the cursor starts at 0 and nothing has been scheduled |
| `Thread.Scheduler.Schedule` | include/scheduler.hh:108-119 | requires at least one worker; appends the job to the back of the queue at the cursor, and that queue is the one for job number `|scheduled| mod T`; no other queue and no state changes; the cursor becomes `(old + 1) mod T`; the invariant is kept |
| `Thread.Scheduler.WorkerStep` | include/scheduler.hh:46-60 | a terminated worker exits and leaves every queue as it was, even a non-empty one; an active worker with an empty queue stays blocked; otherwise the worker removes exactly the front of its own queue, which is the next job of its round-robin share; no other queue, state or the cursor changes |
| `Thread.Scheduler.Shutdown` | include/scheduler.hh:127-128 | every worker's state becomes `Terminate`; no queue, the cursor and the worker count are unchanged; a second call changes nothing |
| `Thread.Scheduler.QueuedAt` | include/scheduler.hh:108-119 | on any reachable state, the i-th scheduled job went to worker `i mod T`; unless that worker has already taken it, the job sits in that worker's queue at position `i / T - taken` |
| `RoundRobin.Dispatched` | include/scheduler.hh:110 | a worker's share of the history is never longer than the history |
| `RoundRobin.DispatchedAppend` | include/scheduler.hh:110-119 | scheduling one more job appends it to the share of worker `|h| mod T` and to no other share |
| `RoundRobin.DispatchedLength` | include/scheduler.hh:110-119 | after n jobs, worker q has received `n / T` jobs, plus one more if `q < n mod T` |
| `RoundRobin.DispatchedBalanced` | include/scheduler.hh:110-119 | the numbers of jobs any two workers have received differ by at most one |
| `RoundRobin.DispatchedPlacement` | include/scheduler.hh:110-119 | the i-th scheduled job (0-indexed) is job number `i / T` of worker `i mod T` |
| `RoundRobin.DispatchedElement` | include/scheduler.hh:110-119 | conversely, job k of worker q is the job scheduled at position `q + k * T` |
| `RoundRobin.PendingSchedule` | include/scheduler.hh:110-114 | appending the next job to queue `|h| mod T` keeps every queue equal to its share minus the jobs already taken |
| `RoundRobin.PendingTake` | include/scheduler.hh:58-59 | popping a non-empty queue yields the next untaken job of that worker's share, in scheduling order, and keeps every queue equal to its share minus the jobs taken |
| `RoundRobin.CursorNext` | include/scheduler.hh:118-119 | a cursor kept at `n mod T` and advanced by one modulo T is `(n + 1) mod T`, so it follows the count of scheduled jobs |
| `Scenarios.ScheduleOneAndTwo` | include/scheduler.hh:108-119 | with two workers and the cursor at 0, jobs 1 and 2 go to workers 0 and 1, and the cursor wraps back to 0 |
| `Scenarios.ScheduleThreeAndFour` | include/scheduler.hh:108-119 | the next two jobs go behind them, giving queues `[1, 3]` and `[2, 4]` |

## Left out

- Thread creation and joining (`mThreads`, `std::thread`, `join`): these are operating-system concurrency. The model keeps no list of threads.
- The mutex, the condition variable's `wait`, `notify_all` and spurious wakeups: each method is one atomic step. The wait predicate becomes the `Blocked` case of `WorkerStep`, which changes nothing.
- Three unlocked accesses are idealised away because a sequential model cannot express them. The cursor is advanced outside the lock (include/scheduler.hh:118-119). The loop condition reads `mThreadState` without the lock (include/scheduler.hh:47). `~Scheduler` writes `mThreadState` with `std::fill` and calls `notify_all` without taking the lock (include/scheduler.hh:128-129). `WorkerStep` folds the loop check into the check made under the lock, and `Shutdown` makes the fill one atomic step; both give the same answers when steps are atomic.
- A possible hang at teardown (not executed). Because the fill and the `notify_all` at include/scheduler.hh:128-129 run without the lock, a worker that has just found its wait predicate false under the lock (include/scheduler.hh:51-54) but has not yet started waiting can miss the notification and block for ever; the `join` at include/scheduler.hh:130-131 then never returns. The atomic-step model cannot show this lost wakeup.
- Running a job (`job()`, include/scheduler.hh:61) and delivering its result through `std::promise`/`std::future`: jobs are opaque values, and `WorkerStep` returns the job it takes instead of running it.
- Type erasure and variadic forwarding (`std::function`, `Args&&...`, `invoke_result_t`): template machinery with no behaviour to state.
- Exceptions thrown by a job: the code does not handle them.
- `std::thread::hardware_concurrency()`: it becomes the constructor parameter `hardware`.
- `vector::reserve` calls: they affect capacity only, not contents.
- main.cc: a demo driver made of console output, sleeps and one blocking `get()`, with no logic of its own.
