/**
 Burst predictions over runs: kept while a task holds the CPU and while it is off the CPU, averaged once or twice
 when it loses the CPU, and converging to the burst length over bursts of constant length.
 */
module SchedBursts {
  import opened SchedModel
  import opened SchedSelection
  import opened SchedRuns
  import opened SchedWaiting

  /** What the running task has run since its burst counter was last reset, at time `now`. */
  ghost function Burst(d: TaskData, now: nat): nat
    requires d.timeStarted <= now
  {
    d.lastBurstTime + (now - d.timeStarted)
  }

  /** The choice falls on a queued task, never on the head. */
  lemma PickedIsQueued<T>(s: Sched<T>, now: nat, i: nat, r: Sched<T>)
    requires WellFormed(s) && AllFit(s, now) && Picks(s, now, i, r)
    ensures Queued(s, r.current) && r.current != s.ring[0]
  {
    assert s.ring[i] == r.current;
  }

  /** Picking the running task again leaves its prediction as it was: the saved value is put back after it was set. */
  lemma RepickKeepsPrediction<T>(s: Sched<T>, boot: nat, now: nat, r: Sched<T>)
    requires Inv(s, boot, now) && AllFit(s, now) && Reschedule(s, now, r)
    requires r.current == s.current
    ensures r.tasks[s.current].nextBurstPred == s.tasks[s.current].nextBurstPred
    ensures |s.ring| > 1 ==> s.current != s.ring[0]
  {
    hide TotalExecution, IsPick, AfterBurst;
    if |s.ring| > 1 {
      var i: nat :| Picks(s, now, i, r);
      PickedIsQueued(s, now, i, r);
    }
  }

  /** Another task's fields other than waiting time and start of round do not change. */
  lemma OthersKeepPrediction<T>(s: Sched<T>, boot: nat, now: nat, r: Sched<T>, t: T)
    requires Inv(s, boot, now) && AllFit(s, now) && Reschedule(s, now, r)
    requires t in s.tasks && t != s.current
    ensures t in r.tasks && r.tasks[t].nextBurstPred == s.tasks[t].nextBurstPred
    ensures r.tasks[t].lastBurstTime == s.tasks[t].lastBurstTime
  {
    hide TotalExecution, IsPick, AfterBurst;
  }

  /**
   Losing the CPU to a choice commits the burst: averaged once while the task stays queued and the burst goes on
   counting, twice when it has left the queue, and then the burst counter starts again. Losing it to the head, which
   is alone on the ring, commits nothing.
   */
  lemma SwitchCommitsBurst<T>(s: Sched<T>, boot: nat, now: nat, r: Sched<T>)
    requires Inv(s, boot, now) && AllFit(s, now) && Reschedule(s, now, r)
    requires s.current != s.ring[0] && r.current != s.current
    ensures s.current in r.tasks && s.tasks[s.current].timeStarted <= now
    ensures |s.ring| == 1 ==> s.current !in s.ring && r.tasks == s.tasks
    ensures |s.ring| > 1 ==>
              var d, e := s.tasks[s.current], r.tasks[s.current];
              var burst := Burst(d, now);
              && e.totalExecutionTime == d.totalExecutionTime + (now - d.timeStarted)
              && e.nextBurstPred == Averaged(burst, d.nextBurstPred, if s.current in s.ring then 1 else 2)
              && e.nextBurstPred == burst + (d.nextBurstPred - burst) / (if s.current in s.ring then 3 else 9)
              && (s.current in s.ring ==>
                    3 * e.nextBurstPred <= 2 * burst + d.nextBurstPred < 3 * e.nextBurstPred + 3)
              && e.lastBurstTime == (if s.current in s.ring then burst else 0)
              && (burst <= d.nextBurstPred ==> burst <= e.nextBurstPred <= d.nextBurstPred)
              && (d.nextBurstPred <= burst ==> d.nextBurstPred <= e.nextBurstPred <= burst)
  {
    hide TotalExecution, IsPick, Average;
    CurrentTotal(s);
    if |s.ring| > 1 {
      var i: nat :| Picks(s, now, i, r);
      var d := s.tasks[s.current];
      var burst := Burst(d, now);
      assert Averaged(burst, d.nextBurstPred, 1) == Average(burst, d.nextBurstPred);
      assert Averaged(burst, d.nextBurstPred, 2) == Average(burst, Averaged(burst, d.nextBurstPred, 1));
      AverageBetween(burst, d.nextBurstPred);
      AverageBetween(burst, Average(burst, d.nextBurstPred));
      AverageRounds(burst, d.nextBurstPred);
      AverageRounds(burst, Average(burst, d.nextBurstPred));
      DivideTwice(d.nextBurstPred - burst, 3);
    }
  }

  /** Two averages leave a prediction as it was only if it is the burst, or one less. */
  lemma AveragedTwiceStays(last: nat, pred: nat)
    ensures Averaged(last, pred, 2) == pred <==> pred <= last <= pred + 1
  {
    assert Averaged(last, pred, 1) == Average(last, pred);
    assert Averaged(last, pred, 2) == Average(last, Averaged(last, pred, 1));
  }

  /**
   A task that has left the queue and now leaves the CPU is charged, has its burst averaged, and starts its burst
   counter again exactly if another task than the head is queued, unless there was nothing to do.
   */
  lemma LeavingCommitsExactly<T>(s: Sched<T>, boot: nat, now: nat, r: Sched<T>)
    requires Inv(s, boot, now) && AllFit(s, now) && Reschedule(s, now, r)
    requires s.current !in s.ring
    ensures r.current != s.current && s.current in r.tasks && s.tasks[s.current].timeStarted <= now
    ensures var d, e := s.tasks[s.current], r.tasks[s.current];
            var burst := Burst(d, now);
            && (e.totalExecutionTime == d.totalExecutionTime + (now - d.timeStarted)
                <==> |s.ring| > 1 || d.timeStarted == now)
            && (e.lastBurstTime == 0 <==> |s.ring| > 1 || d.lastBurstTime == 0)
            && (e.nextBurstPred == Averaged(burst, d.nextBurstPred, 2)
                <==> |s.ring| > 1 || d.nextBurstPred <= burst <= d.nextBurstPred + 1)
  {
    hide TotalExecution, IsPick, Averaged, AfterBurst, BeforePick;
    assert r.current in s.ring by {
      if |s.ring| > 1 {
        var i: nat :| Picks(s, now, i, r);
        PickedIsQueued(s, now, i, r);
      }
    }
    SwitchCommitsBurst(s, boot, now, r);
    AveragedTwiceStays(Burst(s.tasks[s.current], now), s.tasks[s.current].nextBurstPred);
  }

  /** As long as a task holds the CPU, however often it is picked again, its prediction stays. */
  lemma {:induction false} PredictionKeptOnCpu<T>(run: Run<T>, m: nat, n: nat, t: T)
    requires IsRun(run) && m <= n < |run.states|
    requires forall k | m <= k <= n :: run.states[k].current == t
    ensures t in run.states[m].tasks && t in run.states[n].tasks
    ensures run.states[n].tasks[t].nextBurstPred == run.states[m].tasks[t].nextBurstPred
  {
    hide IsRun, AllFit, Reschedule, TotalExecution;
    RunsKeepInv(run, m);
    if m < n {
      PredictionKeptOnCpu(run, m, n - 1, t);
      RunShape(run);
      RunAt(run, n - 1);
      if run.events[n - 1] == Reschedules {
        RepickKeepsPrediction(run.states[n - 1], run.times[0], run.times[n], run.states[n]);
      }
      RunsKeepInv(run, n);
    }
  }

  // ---------------------------------------------------------------- off the CPU

  /** An event does not touch prediction and burst counter of a task that is off the CPU. */
  lemma StepKeepsOffCpu<T>(s: Sched<T>, boot: nat, now: nat, event: Event<T>, r: Sched<T>, t: T)
    requires Inv(s, boot, now) && AllFit(s, now) && StepBy(s, event, now, r)
    requires t in s.tasks && t != s.current
    ensures t in r.tasks && r.tasks[t].nextBurstPred == s.tasks[t].nextBurstPred
    ensures r.tasks[t].lastBurstTime == s.tasks[t].lastBurstTime
  {
    hide Inv, AllFit, Reschedule;
    if event.Reschedules? {
      OthersKeepPrediction(s, boot, now, r, t);
    }
  }

  /** Off the CPU, queued or not, a task keeps its prediction and its burst counter. */
  lemma {:induction false} PredictionKeptOffCpu<T>(run: Run<T>, m: nat, n: nat, t: T)
    requires IsRun(run) && m <= n < |run.states| && t in run.states[m].tasks
    requires forall k | m <= k < n :: run.states[k].current != t
    ensures t in run.states[n].tasks
    ensures run.states[n].tasks[t].nextBurstPred == run.states[m].tasks[t].nextBurstPred
    ensures run.states[n].tasks[t].lastBurstTime == run.states[m].tasks[t].lastBurstTime
  {
    hide IsRun, Inv, AllFit, StepBy;
    if m < n {
      PredictionKeptOffCpu(run, m, n - 1, t);
      RunShape(run);
      RunAt(run, n - 1);
      StepKeepsOffCpu(run.states[n - 1], run.times[0], run.times[n], run.events[n - 1], run.states[n], t);
    }
  }

  // ----------------------------------------------------------------- one burst

  /** While a task holds the CPU its burst counter grows exactly with the start of its round. */
  lemma StepKeepsBurst<T>(s: Sched<T>, boot: nat, now: nat, event: Event<T>, r: Sched<T>)
    requires Inv(s, boot, now) && AllFit(s, now) && StepBy(s, event, now, r)
    requires r.current == s.current && s.current != s.ring[0]
    ensures r.ring != [] && r.ring[0] == s.ring[0] && s.current in r.tasks
    ensures r.tasks[s.current].lastBurstTime - r.tasks[s.current].timeStarted
         == s.tasks[s.current].lastBurstTime - s.tasks[s.current].timeStarted
  {
    hide TotalExecution, IsPick;
    match event {
      case Reschedules =>
        var i: nat :| Picks(s, now, i, r);
        assert s.current in s.ring;
        CurrentTotal(s);
      case _ =>
    }
  }

  lemma {:induction false} BurstKeptOnCpu<T>(run: Run<T>, m: nat, n: nat, t: T)
    requires IsRun(run) && m <= n < |run.states| && forall k | m <= k <= n :: run.states[k].current == t
    requires run.states[m].ring != [] && t != run.states[m].ring[0]
    ensures t in run.states[m].tasks && t in run.states[n].tasks
    ensures run.states[n].ring != [] && t != run.states[n].ring[0]
    ensures run.states[n].tasks[t].lastBurstTime - run.states[n].tasks[t].timeStarted
         == run.states[m].tasks[t].lastBurstTime - run.states[m].tasks[t].timeStarted
  {
    hide IsRun, AllFit, StepBy, TotalExecution;
    RunsKeepInv(run, m);
    if m < n {
      BurstKeptOnCpu(run, m, n - 1, t);
      RunShape(run);
      RunAt(run, n - 1);
      StepKeepsBurst(run.states[n - 1], run.times[0], run.times[n], run.events[n - 1], run.states[n]);
    }
  }

  /**
   The choice at event `a` gives `t` the CPU; it keeps it, however often it is picked again, until it has left the
   queue, and the rescheduling at event `b` takes the CPU from it.
   */
  ghost predicate EndedBurst<T>(run: Run<T>, a: nat, b: nat, t: T) {
    && a < b < |run.events| && |run.states| == |run.events| + 1
    && Chooses(run, a) && run.states[a].current != t
    && (forall k | a < k <= b :: run.states[k].current == t)
    && run.events[b] == Reschedules && t !in run.states[b].ring
  }

  /** A burst at the end of which other tasks are queued. */
  ghost predicate FullBurst<T>(run: Run<T>, a: nat, b: nat, t: T) {
    EndedBurst(run, a, b, t) && Chooses(run, b)
  }

  /** The task chosen starts its round with the prediction and the burst counter it had. */
  lemma ChosenStarts<T>(run: Run<T>, a: nat, t: T)
    requires IsRun(run) && Chooses(run, a) && run.states[a].current != t && run.states[a + 1].current == t
    ensures t in run.states[a].tasks && t in run.states[a + 1].tasks && |run.times| == |run.states|
    ensures run.states[a + 1].ring != [] && t != run.states[a + 1].ring[0]
    ensures run.states[a + 1].tasks[t].timeStarted == run.times[a + 1]
    ensures run.states[a + 1].tasks[t].nextBurstPred == run.states[a].tasks[t].nextBurstPred
    ensures run.states[a + 1].tasks[t].lastBurstTime == run.states[a].tasks[t].lastBurstTime
  {
    hide IsRun, TotalExecution, IsPick, AfterBurst;
    var i := StepIsReschedule(run, a);
    var s, now := run.states[a], run.times[a + 1];
    assert Reschedule(s, now, run.states[a + 1]);
    OthersKeepPrediction(s, run.times[0], now, run.states[a + 1], t);
    PickedIsQueued(s, now, i, run.states[a + 1]);
  }

  /**
   With other tasks queued, a burst is averaged into the prediction twice, with the time the task held the CPU and
   what its counter held before, and the counter starts again. With the head alone the prediction stays, and the
   counter keeps what it held with all rounds of the burst but the last.
   */
  lemma EndedBurstAverages<T>(run: Run<T>, a: nat, b: nat, t: T)
    requires IsRun(run) && EndedBurst(run, a, b, t)
    ensures |run.times| == |run.states| && run.times[a + 1] <= run.times[b + 1]
    ensures t in run.states[a].tasks && t in run.states[b + 1].tasks && run.states[b + 1].current != t
    ensures var d, e := run.states[a].tasks[t], run.states[b + 1].tasks[t];
            if |run.states[b].ring| > 1
            then && e.nextBurstPred == Averaged(d.lastBurstTime + (run.times[b + 1] - run.times[a + 1]), d.nextBurstPred, 2)
                 && e.lastBurstTime == 0
            else && e.nextBurstPred == d.nextBurstPred
                 && e.lastBurstTime - d.lastBurstTime == e.timeStarted - run.times[a + 1]
  {
    hide IsRun, AllFit, Picks, TotalExecution, Averaged;
    RunShape(run);
    TimesGrow(run, a + 1, b + 1);
    ChosenStarts(run, a, t);
    BurstKeptOnCpu(run, a + 1, b, t);
    PredictionKeptOnCpu(run, a + 1, b, t);
    RunAt(run, b);
    LeavingCommitsExactly(run.states[b], run.times[0], run.times[b + 1], run.states[b + 1]);
    SwitchCommitsBurst(run.states[b], run.times[0], run.times[b + 1], run.states[b + 1]);
  }

  // --------------------------------------------------------------- many bursts

  /** All of the bursts from event `from[j]` to event `to[j]` are full and of length `len`, and `t` does not run between them. */
  ghost predicate ConstantBursts<T>(run: Run<T>, from: seq<nat>, to: seq<nat>, t: T, len: nat) {
    && |from| == |to| && |run.times| == |run.states|
    && (forall j | 0 <= j < |from| ::
          && FullBurst(run, from[j], to[j], t)
          && run.times[to[j] + 1] == run.times[from[j] + 1] + len)
    && (forall j | 0 < j < |from| ::
          && to[j - 1] < from[j]
          && forall k | to[j - 1] < k <= from[j] :: run.states[k].current != t)
  }

  lemma AveragedTwiceMore(last: nat, pred: nat, n: nat)
    ensures Averaged(last, Averaged(last, pred, n), 2) == Averaged(last, pred, n + 2)
  {
    hide Average;
    var p := Averaged(last, pred, n);
    assert Averaged(last, p, 1) == Average(last, Averaged(last, p, 0)) == Average(last, p);
    assert Averaged(last, pred, n + 2) == Average(last, Averaged(last, pred, n + 1));
  }

  /**
   After `n` full bursts of length `len`, whatever runs in between, the prediction is the 2n-fold average, and it is
   within 1 of the burst length as soon as 3 to the power of 2n reaches the distance it had at the start.
   */
  lemma {:induction false} ConstantBurstsConverge<T>(run: Run<T>, from: seq<nat>, to: seq<nat>, t: T, len: nat, n: nat)
    requires IsRun(run) && ConstantBursts(run, from, to, t, len) && 0 < n <= |from|
    requires from[0] < |run.states| && t in run.states[from[0]].tasks && run.states[from[0]].tasks[t].lastBurstTime == 0
    ensures to[n - 1] + 1 < |run.states| && t in run.states[to[n - 1] + 1].tasks
    ensures run.states[to[n - 1] + 1].tasks[t].lastBurstTime == 0
    ensures var p, q := run.states[from[0]].tasks[t].nextBurstPred, run.states[to[n - 1] + 1].tasks[t].nextBurstPred;
            && q == Averaged(len, p, 2 * n)
            && Pow3(2 * n) > 0 && q == len + (p - len) / Pow3(2 * n)
            && (Pow3(2 * n) >= Distance(p, len) ==> Distance(q, len) <= 1)
  {
    hide IsRun, Averaged, Pow3, Distance, EndedBurst;
    assert FullBurst(run, from[n - 1], to[n - 1], t);
    EndedBurstAverages(run, from[n - 1], to[n - 1], t);
    BurstEnds(run, from[n - 1], to[n - 1], t);
    var p := run.states[from[0]].tasks[t].nextBurstPred;
    if n > 1 {
      ConstantBurstsConverge(run, from, to, t, len, n - 1);
      BurstEnds(run, from[n - 2], to[n - 2], t);
      PredictionKeptOffCpu(run, to[n - 2] + 1, from[n - 1], t);
      AveragedTwiceMore(len, p, 2 * (n - 1));
    }
    AveragesConverge(len, p, 2 * n);
    AveragedExactly(len, p, 2 * n);
  }

  lemma BurstEnds<T>(run: Run<T>, a: nat, b: nat, t: T)
    requires FullBurst(run, a, b, t)
    ensures a < b && b + 1 < |run.states| && b < |run.events|
  {}
}
