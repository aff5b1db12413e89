/** Two runs that show what the scheduler does not meet: CPU time that is never charged, and a wrapped goodness. */
module SchedExamples {
  import opened SchedModel
  import opened SchedSelection
  import opened SchedRuns
  import opened SchedWaiting
  import opened SchedAccounting

  /** The run that goes on with one more event. */
  function Then<T>(run: Run<T>, event: Event<T>, now: nat, r: Sched<T>): Run<T> {
    Run(run.states + [r], run.events + [event], run.times + [now])
  }

  lemma ThenIsRun<T>(run: Run<T>, event: Event<T>, now: nat, r: Sched<T>)
    requires IsRun(run)
    requires run.times[|run.events|] <= now <= ULLONG_MAX
    requires WellFormed(run.states[|run.events|]) && AllFit(run.states[|run.events|], now)
    requires StepBy(run.states[|run.events|], event, now, r)
    ensures IsRun(Then(run, event, now, r))
  {
    hide WellFormed, AllFit, StepBy;
    var next := Then(run, event, now, r);
    forall n | 0 <= n < |next.events| ensures Follows(next, n) {
      if n < |run.events| {
        assert Follows(run, n);
      }
    }
  }

  /** The task that the choice falls on, with the fields that the choice sees. */
  lemma RescheduleTo<T>(s: Sched<T>, now: nat, i: nat, tasks: map<T, TaskData>)
    requires WellFormed(s) && AllFit(s, now)
    requires 0 < i < |s.ring| && tasks == BeforePick(s, now) && IsPick(s.ring, tasks, i)
    ensures Reschedule(s, now, Switch(s, tasks, s.ring[i], now))
  {
    assert Picks(s, now, i, Switch(s, tasks, s.ring[i], now));
  }

  /** The only task besides the head is picked. */
  lemma OnlyOnePicked<T>(ring: seq<T>, tasks: map<T, TaskData>)
    requires |ring| == 2 && ring[0] in tasks && ring[1] in tasks
    ensures IsPick(ring, tasks, 1)
  {
    hide GoodnessAt;
  }

  // ------------------------------------------------------------- time that is lost

  /** Task `t` is forked, queued and chosen at time 0. */
  function Started(t: nat): Sched<nat> {
    Sched([0, t], t, map[0 := NewTask, t := NewTask])
  }

  function StartedRun(t: nat): Run<nat> {
    var s := Boot(0, NewTask);
    Then(Then(Then(Run([s], [], [0]),
                   Forks(t), 0, Fork(s, t)),
              Enqueues(t), 0, Enqueue(Fork(s, t), t, 0)),
         Reschedules, 0, Started(t))
  }

  lemma StartedIsRun(t: nat)
    requires t > 0
    ensures IsRun(StartedRun(t))
  {
    hide IsPick;
    var s := Boot(0, NewTask);
    var run0 := Run([s], [], [0]);
    var run1 := Then(run0, Forks(t), 0, Fork(s, t));
    var run2 := Then(run1, Enqueues(t), 0, Enqueue(Fork(s, t), t, 0));
    ThenIsRun(run0, Forks(t), 0, Fork(s, t));
    ThenIsRun(run1, Enqueues(t), 0, Enqueue(Fork(s, t), t, 0));
    var q := Enqueue(Fork(s, t), t, 0);
    assert q.ring == [0, t] && q.tasks == map[0 := NewTask, t := NewTask];
    OnlyOnePicked(q.ring, BeforePick(q, 0));
    RescheduleTo(q, 0, 1, BeforePick(q, 0));
    assert Switch(q, BeforePick(q, 0), t, 0) == Started(t);
    ThenIsRun(run2, Reschedules, 0, Started(t));
  }

  /** A lone task runs from 0 to 1000 and goes to sleep: it is charged nothing. */
  lemma LoneTaskIsNotCharged() returns (run: Run<nat>)
    ensures IsRun(run) && |run.states| == 6
    ensures 1 in run.states[5].tasks && run.states[5].tasks[1].totalExecutionTime == 0
    ensures CpuTime(run, 5, 1) == 1000 && LostTime(run, 5, 1) == 1000
  {
    hide IsPick, BeforePick, AfterBurst, Inv;
    StartedIsRun(1);
    var s := Started(1);
    var asleep := Dequeue(s, 1);
    var r := asleep.(current := 0);
    var run4 := Then(StartedRun(1), Dequeues(1), 1000, asleep);
    ThenIsRun(StartedRun(1), Dequeues(1), 1000, asleep);
    assert asleep.ring == [0];
    ThenIsRun(run4, Reschedules, 1000, r);
    run := Then(run4, Reschedules, 1000, r);
    assert run.times == [0, 0, 0, 0, 1000, 1000];
    assert run.states[0].current == run.states[1].current == run.states[2].current == 0;
    assert run.states[3].current == run.states[4].current == 1;
    assert CpuTime(run, 3, 1) == CpuTime(run, 2, 1) == CpuTime(run, 1, 1) == CpuTime(run, 0, 1) == 0;
    assert CpuTime(run, 5, 1) == CpuTime(run, 4, 1) == 1000;
    TaskTimeAccounted(run, 5, 1);
  }

  // ------------------------------------------------------------ a goodness that wraps

  const NOW: nat := 0x1_7FFF_FFFF

  /** Task 3 has run since time 0; task 2 was queued 2^32 - 1 before now, task 1 just now. */
  function WaitingQueue(): Sched<nat> {
    Sched([0, 1, 2, 3], 3, map[
      0 := NewTask,
      1 := NewTask.(lastRunOrInQueue := NOW),
      2 := NewTask.(lastRunOrInQueue := NOW - HALF),
      3 := NewTask])
  }

  /** The run in which `t` is forked and queued next. */
  ghost function Joined(run: Run<nat>, t: nat, now: nat): Run<nat>
    requires |run.states| == |run.events| + 1
    requires run.states[|run.events|].ring != []
  {
    var s := run.states[|run.events|];
    Then(Then(run, Forks(t), now, Fork(s, t)), Enqueues(t), now, Enqueue(Fork(s, t), t, now))
  }

  lemma JoinedIsRun(run: Run<nat>, t: nat, now: nat)
    requires IsRun(run) && run.times[|run.events|] <= now <= ULLONG_MAX
    requires t !in run.states[|run.events|].tasks
    ensures run.states[|run.events|].ring != [] && IsRun(Joined(run, t, now))
  {
    hide IsRun, Inv, AllFit;
    RunShape(run);
    LastState(run, now);
    var s := run.states[|run.events|];
    var forked := Then(run, Forks(t), now, Fork(s, t));
    ThenIsRun(run, Forks(t), now, Fork(s, t));
    LastState(forked, now);
    assert forall i | 0 <= i < |s.ring| :: s.ring[i] in s.tasks;
    ThenIsRun(forked, Enqueues(t), now, Enqueue(Fork(s, t), t, now));
  }

  lemma LastState(run: Run<nat>, now: nat)
    requires IsRun(run) && run.times[|run.events|] <= now <= ULLONG_MAX
    ensures |run.states| == |run.times| == |run.events| + 1
    ensures WellFormed(run.states[|run.events|]) && AllFit(run.states[|run.events|], now)
  {
    RunsKeepInv(run, |run.events|);
  }

  lemma WaitingIsRun() returns (run: Run<nat>)
    ensures IsRun(run) && |run.events| == 7 && run.states[7] == WaitingQueue() && run.times[7] == NOW
  {
    hide IsRun, WellFormed, AllFit, StepBy;
    StartedIsRun(3);
    JoinedIsRun(StartedRun(3), 2, NOW - HALF);
    var run5 := Joined(StartedRun(3), 2, NOW - HALF);
    var s := run5.states[5];
    assert s.ring == [0, 2, 3];
    JoinedIsRun(run5, 1, NOW);
    run := Joined(run5, 1, NOW);
    assert run.states[7].ring == [0, 1, 2, 3];
    assert run.states[7].tasks == WaitingQueue().tasks;
  }

  /** What the choice at time NOW sees is the queue on which the bound fails. */
  lemma WaitingIsRated()
    ensures WellFormed(WaitingQueue()) && AllFit(WaitingQueue(), NOW)
    ensures RatedAlike(StarvingRing, BeforePick(WaitingQueue(), NOW), StarvingTasks(HALF, 0, HALF))
  {
    var s := WaitingQueue();
    assert s.ring[1..] == [1, 2, 3];
    var d := AfterBurst(s, NOW);
    assert 3 in s.ring;
    assert d.nextBurstPred == HALF;
    var m := BeforePick(s, NOW);
    assert m[1] == Waited(s, 1, s.tasks[1], NOW) && m[2] == Waited(s, 2, s.tasks[2], NOW) && m[3] == Waited(s, 3, d, NOW);
  }

  /** A run of the scheduler reaches a choice at which the task that just ran is picked over one that has starved. */
  lemma WrapIsReached() returns (run: Run<nat>)
    ensures IsRun(run) && Chooses(run, 7) && run.states[7].current == run.states[8].current == 3
    ensures AllFit(run.states[7], run.times[8]) && WellFormed(run.states[7])
    ensures var tasks := BeforePick(run.states[7], run.times[8]);
            Longest(run.states[7].ring, tasks, 2) && IsPick(run.states[7].ring, tasks, 3)
            && !WaitInProportion(run.states[7].ring, tasks, 3, 2)
  {
    hide IsRun, IsPick, BeforePick, NoWrap;
    var before := WaitingIsRun();
    RunShape(before);
    WaitingIsRated();
    var s := WaitingQueue();
    var m, tasks := BeforePick(s, NOW), StarvingTasks(HALF, 0, HALF);
    WrapBreaksBound();
    ExtremesAlike(StarvingRing, m, tasks, 4);
    PickAlike(StarvingRing, m, tasks, 3);
    RescheduleTo(s, NOW, 3, m);
    var r := Switch(s, m, 3, NOW);
    ThenIsRun(before, Reschedules, NOW, r);
    run := Then(before, Reschedules, NOW, r);
  }
}
