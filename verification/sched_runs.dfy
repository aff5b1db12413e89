/**
 Runs of the scheduler: what every event keeps, how CPU time is accounted, how waiting times relate to
 the events, and why a queued task is not starved.
 */
module SchedRuns {
  import opened Sums
  import opened SchedModel

  datatype Event<+T> =
    | Forks(task: T)          // sched_fork
    | Enqueues(task: T)       // wake_up_new_task, activate_task
    | Dequeues(task: T)       // deactivate_task
    | Reschedules             // schedule, scheduler_tick

  // --------------------------------------------------------------- time accounting

  ghost function ExecutionTimes<T>(s: Sched<T>): map<T, nat> {
    map t | t in s.tasks :: s.tasks[t].totalExecutionTime
  }

  ghost function TotalExecution<T>(s: Sched<T>): nat {
    SumSet(s.tasks.Keys, ExecutionTimes(s))
  }

  /** What the task on the CPU has not been charged for yet; the head is never charged. */
  ghost function Uncharged<T>(s: Sched<T>, now: nat): nat
    requires WellFormed(s)
  {
    if s.current == s.ring[0] || now < s.tasks[s.current].timeStarted then 0 else now - s.tasks[s.current].timeStarted
  }

  /** Every recorded time lies in the past, and a burst is part of the execution time. */
  ghost predicate Past(d: TaskData, now: nat) {
    && d.timeStarted <= now && d.lastRunOrInQueue <= now && d.waitingInRQ <= now
    && d.nextBurstPred <= now && d.lastBurstTime <= d.totalExecutionTime <= now
  }

  /**
   The ring is in order, all recorded times lie in the past, and the CPU time charged to all tasks, with what the
   running task is still to be charged for, is at most the time since the boot.
   */
  ghost predicate Inv<T>(s: Sched<T>, boot: nat, now: nat) {
    && boot <= now <= ULLONG_MAX
    && WellFormed(s)
    && (forall t | t in s.tasks :: Past(s.tasks[t], now))
    && TotalExecution(s) + Uncharged(s, now) <= now - boot
  }

  lemma InvFits<T>(s: Sched<T>, boot: nat, now: nat)
    requires Inv(s, boot, now)
    ensures AllFit(s, now)
  {}

  /** Time passing keeps the invariant. */
  lemma InvLater<T>(s: Sched<T>, boot: nat, now: nat, later: nat)
    requires Inv(s, boot, now) && now <= later <= ULLONG_MAX
    ensures Inv(s, boot, later)
  {
    hide TotalExecution;
  }

  lemma BootInv<T>(seed: T, now: nat)
    requires now <= ULLONG_MAX
    ensures Inv(Boot(seed, NewTask), now, now)
  {
    var s := Boot(seed, NewTask);
    SumSetConstant(s.tasks.Keys, ExecutionTimes(s), 0);
  }

  lemma ForkKeepsInv<T>(s: Sched<T>, boot: nat, now: nat, p: T)
    requires Inv(s, boot, now) && p !in s.tasks
    ensures Inv(Fork(s, p), boot, now)
    ensures TotalExecution(Fork(s, p)) == TotalExecution(s) && Fork(s, p).tasks[p].totalExecutionTime == 0
  {
    var r := Fork(s, p);
    assert r.tasks.Keys == s.tasks.Keys + {p};
    SumSetInsert(s.tasks.Keys, ExecutionTimes(r), p);
    SumSetAgree(s.tasks.Keys, ExecutionTimes(s), ExecutionTimes(r));
  }

  lemma EnqueueKeepsInv<T>(s: Sched<T>, boot: nat, now: nat, p: T)
    requires Inv(s, boot, now) && p in s.tasks && p !in s.ring
    ensures Inv(Enqueue(s, p, now), boot, now) && TotalExecution(Enqueue(s, p, now)) == TotalExecution(s)
  {
    hide SumSet;
    var r := Enqueue(s, p, now);
    assert r.tasks.Keys == s.tasks.Keys;
    SumSetAgree(s.tasks.Keys, ExecutionTimes(s), ExecutionTimes(r));
  }

  lemma DequeueKeepsInv<T>(s: Sched<T>, boot: nat, now: nat, i: nat)
    requires Inv(s, boot, now) && 0 < i < |s.ring|
    ensures Inv(Dequeue(s, i), boot, now) && TotalExecution(Dequeue(s, i)) == TotalExecution(s)
  {
    hide SumSet;
    var r := Dequeue(s, i);
    assert ExecutionTimes(r) == ExecutionTimes(s);
  }

  // -------------------------------------------------------------- rescheduling

  /** Without wrap-around the running task is charged exactly what it ran. */
  lemma AfterBurstCharges<T>(s: Sched<T>, boot: nat, now: nat)
    requires Inv(s, boot, now)
    ensures AllFit(s, now)
    ensures var d, r := s.tasks[s.current], AfterBurst(s, now);
            && r.totalExecutionTime == d.totalExecutionTime + Uncharged(s, now)
            && r.lastBurstTime <= r.totalExecutionTime && r.nextBurstPred <= now
            && r.timeStarted == d.timeStarted && r.lastRunOrInQueue == d.lastRunOrInQueue && r.waitingInRQ == d.waitingInRQ
  {
    hide TotalExecution;
    CurrentTotal(s);
  }

  lemma CurrentTotal<T>(s: Sched<T>)
    requires WellFormed(s)
    ensures s.tasks[s.current].totalExecutionTime <= TotalExecution(s)
  {
    SumSetRemove(s.tasks.Keys, ExecutionTimes(s), s.current);
  }

  lemma BeforePickPast<T>(s: Sched<T>, boot: nat, now: nat)
    requires Inv(s, boot, now)
    ensures AllFit(s, now)
    ensures var m := BeforePick(s, now);
            && m.Keys == s.tasks.Keys
            && (forall t | t in m :: Past(m[t], now))
            && (forall t | t in m && t != s.current :: m[t].totalExecutionTime == s.tasks[t].totalExecutionTime)
            && m[s.current].totalExecutionTime == s.tasks[s.current].totalExecutionTime + Uncharged(s, now)
  {
    hide TotalExecution, AfterBurst;
    AfterBurstCharges(s, boot, now);
    CurrentTotal(s);
  }

  lemma SwitchKeepsInv<T>(s: Sched<T>, boot: nat, now: nat, i: nat)
    requires Inv(s, boot, now) && AllFit(s, now) && 0 < i < |s.ring|
    ensures Inv(Switch(s, BeforePick(s, now), s.ring[i], now), boot, now)
    ensures TotalExecution(Switch(s, BeforePick(s, now), s.ring[i], now)) == TotalExecution(s) + Uncharged(s, now)
  {
    hide SumSet, BeforePick;
    BeforePickPast(s, boot, now);
    var m := BeforePick(s, now);
    var r := Switch(s, m, s.ring[i], now);
    assert r.tasks.Keys == s.tasks.Keys;
    var f := ExecutionTimes(s)[s.current := m[s.current].totalExecutionTime];
    SumSetUpdate(s.tasks.Keys, ExecutionTimes(s), s.current, m[s.current].totalExecutionTime);
    SumSetAgree(s.tasks.Keys, f, ExecutionTimes(r));
  }

  lemma RescheduleKeepsInv<T>(s: Sched<T>, boot: nat, now: nat, r: Sched<T>)
    requires Inv(s, boot, now) && AllFit(s, now) && Reschedule(s, now, r)
    ensures Inv(r, boot, now)
  {
    hide BeforePick, IsPick, Switch, SumSet;
    if |s.ring| == 1 {
      assert ExecutionTimes(r) == ExecutionTimes(s);
    } else {
      var i: nat :| Picks(s, now, i, r);
      SwitchKeepsInv(s, boot, now, i);
    }
  }

  // ------------------------------------------------------------------------ runs

  ghost predicate StepBy<T>(s: Sched<T>, event: Event<T>, now: nat, r: Sched<T>)
    requires WellFormed(s) && AllFit(s, now)
  {
    match event
    case Forks(p) => p !in s.tasks && r == Fork(s, p)
    case Enqueues(p) => p in s.tasks && p !in s.ring && r == Enqueue(s, p, now)
    case Dequeues(p) => exists i | 0 < i < |s.ring| :: s.ring[i] == p && r == Dequeue(s, i)
    case Reschedules => Reschedule(s, now, r)
  }

  /** The scheduler boots at times[0]; event `n` happens at times[n + 1] and leads from state `n` to state `n + 1`. */
  datatype Run<T> = Run(states: seq<Sched<T>>, events: seq<Event<T>>, times: seq<nat>)

  ghost predicate Follows<T>(run: Run<T>, n: nat)
    requires n < |run.events| && |run.states| == |run.times| == |run.events| + 1
  {
    && run.times[n] <= run.times[n + 1] <= ULLONG_MAX
    && WellFormed(run.states[n]) && AllFit(run.states[n], run.times[n + 1])
    && StepBy(run.states[n], run.events[n], run.times[n + 1], run.states[n + 1])
  }

  /** A run of the scheduler, from a seed task with cleared fields on. */
  ghost predicate IsRun<T>(run: Run<T>) {
    && |run.states| == |run.times| == |run.events| + 1
    && run.states[0] == Boot(run.states[0].current, NewTask)
    && run.times[0] <= ULLONG_MAX
    && forall n | 0 <= n < |run.events| :: Follows(run, n)
  }

  lemma RunShape<T>(run: Run<T>)
    requires IsRun(run)
    ensures |run.states| == |run.times| == |run.events| + 1
  {}

  lemma StepKeepsInv<T>(s: Sched<T>, boot: nat, now: nat, event: Event<T>, r: Sched<T>)
    requires Inv(s, boot, now) && AllFit(s, now) && StepBy(s, event, now, r)
    ensures Inv(r, boot, now)
  {
    hide Inv, AllFit, Reschedule, Fork, Enqueue, Dequeue;
    match event {
      case Forks(p) => ForkKeepsInv(s, boot, now, p);
      case Enqueues(p) => EnqueueKeepsInv(s, boot, now, p);
      case Dequeues(p) =>
        var i :| 0 < i < |s.ring| && s.ring[i] == p && r == Dequeue(s, i);
        DequeueKeepsInv(s, boot, now, i);
      case Reschedules => RescheduleKeepsInv(s, boot, now, r);
    }
  }

  /**
   In every state of every run the ring is in order, every recorded time lies in the past, and the execution times
   of all tasks together do not exceed the time since the boot; so no addition or subtraction has wrapped.
   */
  lemma {:induction false} RunsKeepInv<T>(run: Run<T>, n: nat)
    requires IsRun(run) && n < |run.states|
    ensures Inv(run.states[n], run.times[0], run.times[n])
    ensures n < |run.events| ==> Inv(run.states[n], run.times[0], run.times[n + 1])
  {
    hide Inv, WellFormed, AllFit, StepBy;
    if n == 0 {
      BootInv(run.states[0].current, run.times[0]);
    } else {
      RunsKeepInv(run, n - 1);
      assert Follows(run, n - 1);
      StepKeepsInv(run.states[n - 1], run.times[0], run.times[n], run.events[n - 1], run.states[n]);
    }
    if n < |run.events| {
      assert Follows(run, n);
      InvLater(run.states[n], run.times[0], run.times[n], run.times[n + 1]);
    }
  }

  /** The state before event `n`, at the time of the event. */
  lemma RunAt<T>(run: Run<T>, n: nat)
    requires IsRun(run) && n < |run.events|
    ensures Inv(run.states[n], run.times[0], run.times[n + 1]) && AllFit(run.states[n], run.times[n + 1])
    ensures StepBy(run.states[n], run.events[n], run.times[n + 1], run.states[n + 1])
    ensures run.times[n] <= run.times[n + 1] <= ULLONG_MAX
  {
    RunsKeepInv(run, n);
    assert Follows(run, n);
  }

  lemma {:induction false} TimesGrow<T>(run: Run<T>, m: nat, n: nat)
    requires IsRun(run) && m <= n < |run.times|
    ensures run.times[m] <= run.times[n]
  {
    if m < n {
      TimesGrow(run, m, n - 1);
      assert Follows(run, n - 1);
    }
  }
}
