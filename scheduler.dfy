/**
 * The dispatch bookkeeping of `thread::Scheduler`: the worker count, the round-robin
 * cursor, one FIFO job queue per worker and one lifecycle state per worker. Every method
 * is one atomic step of the critical section guarded by the scheduler's mutex; an
 * arbitrary sequence of calls stands for an interleaving of the caller and the workers.
 */
module Thread {
  import opened Unsigned
  import opened RoundRobin

  /** A worker's lifecycle state: it runs jobs until the scheduler tells it to terminate. */
  datatype ThreadState = Active | Terminate

  /** What one iteration of a worker's loop does after its wait: leave the loop, stay
      blocked (the wait predicate is false), or take the front job of its own queue. */
  datatype Step<Job> = Exit | Blocked | Run(job: Job)

  /**
   * The number of workers: `std::min(hardware - 1, requested)` in `unsigned int`
   * arithmetic, one hardware thread being left to the caller. The subtraction is not
   * clamped, so a hardware count of 0 wraps around to 2^32 - 1 and every request is
   * granted in full, while a hardware count of 1 gives no workers at all.
   */
  function ThreadCount(hardware: u32, requested: u32): (t: u32)
    ensures t <= requested
    ensures hardware == 0 ==> t == requested
    ensures hardware >= 1 ==> t == (if hardware - 1 < requested then hardware - 1 else requested)
    ensures t == 0 <==> hardware == 1 || requested == 0
  {
    var available := Sub(hardware, 1);
    Min(available, requested)
  }

  class Scheduler<Job> {
    /** The number of workers; fixed for the scheduler's lifetime. */
    var threadCount: u32
    /** The round-robin cursor: the worker that receives the next job. */
    var schedId: u32
    /** One lifecycle state per worker. */
    var states: seq<ThreadState>
    /** One FIFO queue per worker; the front of a queue is its element 0. */
    var jobs: seq<seq<Job>>

    /** Every job ever scheduled, in scheduling order. */
    ghost var scheduled: seq<Job>
    /** For each worker, how many jobs it has taken from its queue. */
    ghost var taken: seq<nat>

    /**
     * The object invariant. There is a queue, a state and a count of taken jobs per worker;
     * the cursor points at the worker that receives job number `|scheduled|`; and worker
     * `q`'s queue holds exactly its round-robin share of the history, less the jobs it has
     * already taken, in scheduling order.
     */
    ghost predicate Valid()
      reads this
    {
      && |states| == threadCount
      && (threadCount > 0 ==> schedId == |scheduled| % threadCount)
      && Pending(jobs, taken, scheduled, threadCount)
    }

    /**
     * The round-robin law on the live state: the `i`-th scheduled job went to worker
     * `i % threadCount`, and unless that worker has already taken it, it sits in that
     * worker's queue behind exactly the earlier jobs of the same worker not yet taken.
     */
    lemma QueuedAt(i: nat)
      requires Valid()
      requires threadCount > 0 && i < |scheduled|
      requires taken[i % threadCount] <= i / threadCount
      ensures i / threadCount - taken[i % threadCount] < |jobs[i % threadCount]|
      ensures jobs[i % threadCount][i / threadCount - taken[i % threadCount]] == scheduled[i]
    {
      DispatchedPlacement(scheduled, threadCount, i);
    }

    /** Builds the pool: `ThreadCount(hardware, requested)` workers, each with an empty
        queue and the `Active` state, and the cursor at worker 0. */
    constructor (hardware: u32, requested: u32)
      ensures Valid()
      ensures threadCount == ThreadCount(hardware, requested)
      ensures schedId == 0
      ensures |jobs| == threadCount && forall q :: 0 <= q < |jobs| ==> jobs[q] == []
      ensures |states| == threadCount && forall q :: 0 <= q < |states| ==> states[q] == Active
      ensures scheduled == []
    {
      schedId := 0;
      threadCount := ThreadCount(hardware, requested);
      states := [];
      jobs := [];
      scheduled := [];
      taken := [];
      new;
      var id: u32 := 0;
      while id < threadCount
        invariant id <= threadCount == ThreadCount(hardware, requested)
        invariant schedId == 0 && scheduled == []
        invariant |jobs| == |states| == |taken| == id
        invariant forall q :: 0 <= q < id ==> jobs[q] == [] && states[q] == Active && taken[q] == 0
      {
        jobs := jobs + [[]];
        states := states + [Active];
        taken := taken + [0];
        id := id + 1;
      }
    }

    /**
     * Schedules `job`: appends it to the back of the queue the cursor points at, leaves
     * every other queue and every state as it was, and advances the cursor cyclically.
     * The source divides by the worker count here, so there must be at least one worker.
     */
    method Schedule(job: Job)
      requires Valid()
      requires threadCount > 0
      modifies this
      ensures Valid()
      ensures threadCount == old(threadCount) && states == old(states) && taken == old(taken)
      ensures old(schedId) == |old(scheduled)| % threadCount
      ensures jobs == old(jobs)[old(schedId) := old(jobs)[old(schedId)] + [job]]
      ensures schedId == (old(schedId) + 1) % threadCount
      ensures scheduled == old(scheduled) + [job]
    {
      PendingSchedule(jobs, taken, scheduled, threadCount, job);
      CursorNext(|scheduled|, threadCount);
      jobs := jobs[schedId := jobs[schedId] + [job]];
      schedId := Add(schedId, 1);
      schedId := schedId % threadCount;
      scheduled := scheduled + [job];
    }

    /**
     * One iteration of worker `id`'s loop, after its wait on the condition variable.
     * A worker told to terminate exits without looking at its queue, even when jobs are
     * still queued there. An active worker with an empty queue stays blocked. Otherwise
     * it removes the front job of its own queue, and of no other, and runs it; that job
     * is the next one of its round-robin share, so a worker runs its jobs in the order
     * they were scheduled.
     */
    method WorkerStep(id: u32) returns (step: Step<Job>)
      requires Valid()
      requires id < threadCount
      modifies this
      ensures Valid()
      ensures threadCount == old(threadCount) && schedId == old(schedId)
      ensures states == old(states) && scheduled == old(scheduled)
      ensures old(states)[id] == Terminate ==>
                step == Exit && jobs == old(jobs) && taken == old(taken)
      ensures old(states)[id] == Active && old(jobs)[id] == [] ==>
                step == Blocked && jobs == old(jobs) && taken == old(taken)
      ensures old(states)[id] == Active && old(jobs)[id] != [] ==>
                && step == Run(old(jobs)[id][0])
                && step.job == Dispatched(scheduled, threadCount, id)[old(taken)[id]]
                && jobs == old(jobs)[id := old(jobs)[id][1..]]
                && taken == old(taken)[id := old(taken)[id] + 1]
    {
      var ready := |jobs[id]| > 0 || states[id] == Terminate;
      if !ready {
        return Blocked;
      }
      if states[id] == Terminate {
        return Exit;
      }
      PendingTake(jobs, taken, scheduled, threadCount, id);
      step := Run(jobs[id][0]);
      jobs := jobs[id := jobs[id][1..]];
      taken := taken[id := taken[id] + 1];
    }

    /**
     * The destructor's state change: every worker is told to terminate. No queue and
     * no other field changes, so a second call changes nothing.
     */
    method Shutdown()
      requires Valid()
      modifies this
      ensures Valid()
      ensures |states| == |old(states)| && forall q :: 0 <= q < |states| ==> states[q] == Terminate
      ensures (forall q :: 0 <= q < |old(states)| ==> old(states)[q] == Terminate) ==> states == old(states)
      ensures jobs == old(jobs) && schedId == old(schedId) && threadCount == old(threadCount)
      ensures scheduled == old(scheduled) && taken == old(taken)
    {
      var i := 0;
      while i < |states|
        invariant 0 <= i <= |states| == |old(states)|
        invariant forall q :: 0 <= q < i ==> states[q] == Terminate
        invariant forall q :: i <= q < |states| ==> states[q] == old(states)[q]
        invariant jobs == old(jobs) && schedId == old(schedId) && threadCount == old(threadCount)
        invariant scheduled == old(scheduled) && taken == old(taken)
      {
        states := states[i := Terminate];
        i := i + 1;
      }
    }
  }
}
