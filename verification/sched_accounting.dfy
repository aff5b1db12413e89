/**
 Where CPU time goes over runs. Execution times do not account for all of it: a task that has left the queue and
 hands the CPU to the head, alone on the ring, is not charged for its last round.
 */
module SchedAccounting {
  import opened SchedModel
  import opened SchedRuns

  // --------------------------------------------------------------------- the head

  lemma StepKeepsHead<T>(s: Sched<T>, now: nat, event: Event<T>, r: Sched<T>)
    requires WellFormed(s) && AllFit(s, now) && StepBy(s, event, now, r)
    ensures r.ring != [] && r.ring[0] == s.ring[0]
  {
    hide AllFit, BeforePick, IsPick;
  }

  /** The seed task is the head for good. */
  lemma {:induction false} HeadStays<T>(run: Run<T>, n: nat)
    requires IsRun(run) && n < |run.states|
    ensures run.states[n].ring != [] && run.states[n].ring[0] == run.states[0].current
  {
    hide Inv, AllFit, WellFormed, StepBy;
    if n > 0 {
      HeadStays(run, n - 1);
      assert Follows(run, n - 1);
      StepKeepsHead(run.states[n - 1], run.times[n], run.events[n - 1], run.states[n]);
    }
  }

  // ------------------------------------------------------------------ one task

  /** Execution time of a task, 0 before it is forked. */
  ghost function Executed<T>(s: Sched<T>, t: T): nat {
    if t in s.tasks then s.tasks[t].totalExecutionTime else 0
  }

  /** What task `t` has not been charged for yet. */
  ghost function UnchargedTo<T>(s: Sched<T>, now: nat, t: T): nat
    requires WellFormed(s)
  {
    if s.current == t then Uncharged(s, now) else 0
  }

  /** Event `n` is a rescheduling that finds the head alone on the ring. */
  ghost predicate FindsHeadAlone<T>(run: Run<T>, n: nat) {
    n < |run.events| && |run.states| == |run.events| + 1 && run.events[n] == Reschedules && |run.states[n].ring| == 1
  }

  /** How long `t` was on the CPU up to state `n`: read off the states and the clock, not off the task's fields. */
  ghost function CpuTime<T>(run: Run<T>, n: nat, t: T): nat
    requires IsRun(run) && n < |run.states|
  {
    if n == 0 then 0
    else
      assert Follows(run, n - 1);
      CpuTime(run, n - 1, t) + if run.states[n - 1].current == t then run.times[n] - run.times[n - 1] else 0
  }

  /** What `t` was to be charged for at the reschedulings that found the head alone. */
  ghost function LostTime<T>(run: Run<T>, n: nat, t: T): nat
    requires IsRun(run) && n < |run.states|
  {
    if n == 0 then 0
    else
      assert Follows(run, n - 1);
      LostTime(run, n - 1, t) + if FindsHeadAlone(run, n - 1) then UnchargedTo(run.states[n - 1], run.times[n], t) else 0
  }

  /** One event moves what is to be charged to the execution time, except if it finds the head alone. */
  lemma StepCharges<T>(s: Sched<T>, boot: nat, now: nat, event: Event<T>, r: Sched<T>, t: T)
    requires Inv(s, boot, now) && AllFit(s, now) && StepBy(s, event, now, r) && Inv(r, boot, now)
    requires t != s.ring[0]
    ensures Executed(r, t) + UnchargedTo(r, now, t)
            + (if event == Reschedules && |s.ring| == 1 then UnchargedTo(s, now, t) else 0)
         == Executed(s, t) + UnchargedTo(s, now, t)
  {
    hide TotalExecution, Reschedule;
    match event {
      case Reschedules => RescheduleCharges(s, boot, now, r, t);
      case Forks(p) =>
      case Enqueues(p) =>
      case Dequeues(p) =>
    }
  }

  lemma RescheduleCharges<T>(s: Sched<T>, boot: nat, now: nat, r: Sched<T>, t: T)
    requires Inv(s, boot, now) && AllFit(s, now) && Reschedule(s, now, r) && WellFormed(r)
    requires t != s.ring[0]
    ensures Executed(r, t) + UnchargedTo(r, now, t) + (if |s.ring| == 1 then UnchargedTo(s, now, t) else 0)
         == Executed(s, t) + UnchargedTo(s, now, t)
  {
    hide TotalExecution, IsPick, BeforePick;
    if |s.ring| > 1 {
      BeforePickPast(s, boot, now);
      var i: nat :| Picks(s, now, i, r);
      assert r.tasks[r.current].timeStarted == now;
    }
  }

  /** The CPU time of every task but the head is what it was charged for, what it is to be charged for, and what was lost. */
  lemma {:induction false} TaskTimeAccounted<T>(run: Run<T>, n: nat, t: T)
    requires IsRun(run) && n < |run.states| && t != run.states[0].current
    ensures WellFormed(run.states[n])
    ensures Executed(run.states[n], t) + UnchargedTo(run.states[n], run.times[n], t) + LostTime(run, n, t) == CpuTime(run, n, t)
  {
    hide IsRun, AllFit, StepBy, TotalExecution;
    RunsKeepInv(run, n);
    RunShape(run);
    if n == 0 {
      NothingAtBoot(run, t);
    } else {
      TaskTimeAccounted(run, n - 1, t);
      HeadStays(run, n - 1);
      RunsKeepInv(run, n - 1);
      RunAt(run, n - 1);
      StepCharges(run.states[n - 1], run.times[0], run.times[n], run.events[n - 1], run.states[n], t);
    }
  }

  lemma NothingAtBoot<T>(run: Run<T>, t: T)
    requires IsRun(run) && t != run.states[0].current
    ensures run.states[0].current == run.states[0].ring[0]
    ensures Executed(run.states[0], t) == 0 && TotalExecution(run.states[0]) == 0
  {
    BootInv(run.states[0].current, run.times[0]);
  }

  // ------------------------------------------------------------------ all tasks

  /** How long tasks other than the head were on the CPU up to state `n`. */
  ghost function OnCpu<T>(run: Run<T>, n: nat): nat
    requires IsRun(run) && n < |run.states|
  {
    if n == 0 then 0
    else
      assert Follows(run, n - 1);
      var s := run.states[n - 1];
      OnCpu(run, n - 1) + if s.current != s.ring[0] then run.times[n] - run.times[n - 1] else 0
  }

  /** What tasks were to be charged for at the reschedulings that found the head alone. */
  ghost function Lost<T>(run: Run<T>, n: nat): nat
    requires IsRun(run) && n < |run.states|
  {
    if n == 0 then 0
    else
      assert Follows(run, n - 1);
      Lost(run, n - 1) + if FindsHeadAlone(run, n - 1) then Uncharged(run.states[n - 1], run.times[n]) else 0
  }

  lemma StepChargesAll<T>(s: Sched<T>, boot: nat, now: nat, event: Event<T>, r: Sched<T>)
    requires Inv(s, boot, now) && AllFit(s, now) && StepBy(s, event, now, r) && Inv(r, boot, now)
    ensures TotalExecution(r) + Uncharged(r, now) + (if event == Reschedules && |s.ring| == 1 then Uncharged(s, now) else 0)
         == TotalExecution(s) + Uncharged(s, now)
  {
    hide TotalExecution, BeforePick, IsPick;
    match event {
      case Forks(p) => ForkKeepsInv(s, boot, now, p);
      case Enqueues(p) => EnqueueKeepsInv(s, boot, now, p);
      case Dequeues(p) =>
        var i :| 0 < i < |s.ring| && s.ring[i] == p && r == Dequeue(s, i);
        DequeueKeepsInv(s, boot, now, i);
      case Reschedules =>
        if |s.ring| == 1 {
          SameTotal(s, r);
        } else {
          var i: nat :| Picks(s, now, i, r);
          SwitchKeepsInv(s, boot, now, i);
          assert r.tasks[r.current].timeStarted == now;
        }
    }
  }

  lemma SameTotal<T>(s: Sched<T>, r: Sched<T>)
    requires s.tasks == r.tasks
    ensures TotalExecution(s) == TotalExecution(r)
  {
    assert ExecutionTimes(s) == ExecutionTimes(r);
  }

  /** Over every run, execution times, what is to be charged, and what was lost add up to the time that tasks held the CPU. */
  lemma {:induction false} CpuTimeAccounted<T>(run: Run<T>, n: nat)
    requires IsRun(run) && n < |run.states|
    ensures WellFormed(run.states[n])
    ensures TotalExecution(run.states[n]) + Uncharged(run.states[n], run.times[n]) + Lost(run, n) == OnCpu(run, n)
  {
    hide IsRun, AllFit, StepBy, TotalExecution;
    RunsKeepInv(run, n);
    RunShape(run);
    if n == 0 {
      BootTotal(run);
    } else {
      CpuTimeAccounted(run, n - 1);
      RunsKeepInv(run, n - 1);
      RunAt(run, n - 1);
      StepChargesAll(run.states[n - 1], run.times[0], run.times[n], run.events[n - 1], run.states[n]);
    }
  }

  lemma BootTotal<T>(run: Run<T>)
    requires IsRun(run)
    ensures TotalExecution(run.states[0]) == 0 && run.states[0].ring != [] && run.states[0].current == run.states[0].ring[0]
  {
    BootInv(run.states[0].current, run.times[0]);
  }

  /** No time is lost exactly if no rescheduling finds the head alone with a task on the CPU that has run since its round began. */
  lemma {:induction false} LostExactly<T>(run: Run<T>, n: nat)
    requires IsRun(run) && n < |run.states|
    ensures |run.times| == |run.states| == |run.events| + 1
    ensures Lost(run, n) == 0 <==> forall k | 0 <= k < n ::
              FindsHeadAlone(run, k) ==>
                && WellFormed(run.states[k])
                && (run.states[k].current == run.states[k].ring[0]
                    || run.times[k + 1] <= run.states[k].tasks[run.states[k].current].timeStarted)
  {
    hide IsRun;
    RunShape(run);
    if n > 0 {
      LostExactly(run, n - 1);
      RunAt(run, n - 1);
    }
  }

  /**
   CPU time is never created: all execution times are the time that tasks held the CPU less what is still to be
   charged and what was lost, at most the time since the boot, and bursts are part of them.
   */
  lemma ExecutionTimeConserved<T>(run: Run<T>, n: nat, t: T)
    requires IsRun(run) && n < |run.states| && t in run.states[n].tasks
    ensures |run.times| == |run.states| && WellFormed(run.states[n])
    ensures TotalExecution(run.states[n]) == OnCpu(run, n) - Uncharged(run.states[n], run.times[n]) - Lost(run, n)
    ensures run.times[0] + TotalExecution(run.states[n]) <= run.times[n]
    ensures run.states[n].tasks[t].lastBurstTime <= run.states[n].tasks[t].totalExecutionTime
  {
    hide TotalExecution;
    RunsKeepInv(run, n);
    CpuTimeAccounted(run, n);
  }
}
