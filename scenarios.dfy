/** Example client runs of the scheduler, step by step. */
module Scenarios {
  import opened Thread

  /** The worker count on a few machines: 4 hardware threads leave 3 workers; a
      hardware count of 0 wraps around and grants the request; 1 leaves none. */
  method WorkerCounts() {
    assert ThreadCount(4, 1000) == 3;
    assert ThreadCount(0, 8) == 8;
    assert ThreadCount(1, 8) == 0;
    var s := new Scheduler<int>(1, 8);
    assert s.threadCount == 0 && s.jobs == [];
  }

  /** Two workers, four jobs: worker 0 gets the 1st and 3rd, worker 1 the 2nd and 4th,
      and each runs its own in scheduling order, whoever goes first. */
  method TwoWorkers() {
    var s := new Scheduler<int>(3, 2);
    assert s.threadCount == 2 && s.jobs == [[], []] && s.states == [Active, Active];
    ScheduleOneAndTwo(s);
    ScheduleThreeAndFour(s);
    RunTwoWorkers(s);
  }

  /** The first round of `TwoWorkers`: one job per worker, and the cursor wraps around. */
  method ScheduleOneAndTwo(s: Scheduler<int>)
    requires s.Valid() && s.threadCount == 2 && s.schedId == 0
    requires s.jobs == [[], []]
    modifies s
    ensures s.Valid() && s.threadCount == 2 && s.schedId == 0 && s.states == old(s.states)
    ensures s.jobs == [[1], [2]]
  {
    s.Schedule(1);
    assert s.schedId == 1 && s.jobs == [[1], []];
    s.Schedule(2);
  }

  /** The second round of `TwoWorkers`: the cursor has wrapped back to worker 0. */
  method ScheduleThreeAndFour(s: Scheduler<int>)
    requires s.Valid() && s.threadCount == 2 && s.schedId == 0
    requires s.jobs == [[1], [2]]
    modifies s
    ensures s.Valid() && s.threadCount == 2 && s.states == old(s.states)
    ensures s.jobs == [[1, 3], [2, 4]]
  {
    s.Schedule(3);
    assert [1] + [3] == [1, 3];
    assert s.schedId == 1 && s.jobs == [[1, 3], [2]];
    s.Schedule(4);
    assert [2] + [4] == [2, 4];
  }

  /** The run half of `TwoWorkers`: each worker takes its own jobs front first. */
  method RunTwoWorkers(s: Scheduler<int>)
    requires s.Valid() && s.threadCount == 2
    requires s.jobs == [[1, 3], [2, 4]] && s.states == [Active, Active]
    modifies s
  {
    var r := s.WorkerStep(1);
    assert r == Run(2);
    r := s.WorkerStep(0);
    assert r == Run(1);
    r := s.WorkerStep(0);
    assert r == Run(3);
    r := s.WorkerStep(0);
    assert r == Blocked;
    r := s.WorkerStep(1);
    assert r == Run(4);
  }

  /** Jobs still queued when the scheduler is torn down are dropped: the worker exits
      with its queue non-empty. Tearing down twice changes nothing more. */
  method ShutdownDropsQueuedJobs() {
    var s := new Scheduler<int>(5, 8);
    assert s.threadCount == 4;
    s.Schedule(7);
    s.Shutdown();
    var states := s.states;
    s.Shutdown();
    assert s.states == states;
    var r := s.WorkerStep(0);
    assert r == Exit && s.jobs[0] == [7];
  }
}
