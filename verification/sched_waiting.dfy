/** Waiting times over runs, and the bound on how long a queued task can be passed over. */
module SchedWaiting {
  import opened SchedModel
  import opened SchedSelection
  import opened SchedRuns

  // ------------------------------------------------------------ waiting since when

  /** Event `n` puts `t` on the queue or takes the CPU from it. */
  ghost predicate StartsWaiting<T>(run: Run<T>, n: nat, t: T)
    requires |run.states| == |run.events| + 1 && n < |run.events|
  {
    || run.events[n] == Enqueues(t)
    || (run.states[n].current == t && run.states[n + 1].current != t)
  }

  /** When `t` was last queued or last lost the CPU before state `n`: read off the events, not off the task's fields. */
  ghost function IdleSince<T>(run: Run<T>, n: nat, t: T): nat
    requires |run.states| == |run.times| == |run.events| + 1 && n < |run.states|
  {
    if n == 0 then run.times[0]
    else if StartsWaiting(run, n - 1, t) then run.times[n]
    else IdleSince(run, n - 1, t)
  }

  /** What one event does to the time stamp of a task that is queued and off the CPU afterwards. */
  lemma StepStamps<T>(s: Sched<T>, boot: nat, now: nat, event: Event<T>, r: Sched<T>, t: T)
    requires Inv(s, boot, now) && AllFit(s, now) && StepBy(s, event, now, r)
    requires Queued(r, t) && r.current != t
    ensures t in r.tasks
    ensures if event == Enqueues(t) || s.current == t
            then r.tasks[t].lastRunOrInQueue == now
            else t in s.tasks && Queued(s, t) && r.tasks[t].lastRunOrInQueue == s.tasks[t].lastRunOrInQueue
  {
    hide TotalExecution, Reschedule, Dequeue;
    match event {
      case Forks(p) =>
        var i :| 0 < i < |r.ring| && r.ring[i] == t;
        assert s.ring[i] == t;
      case Enqueues(p) => EnqueueStamps(s, now, p, t);
      case Dequeues(p) =>
        var j :| 0 < j < |s.ring| && s.ring[j] == p && r == Dequeue(s, j);
        DequeueStamps(s, j, t);
      case Reschedules => RescheduleStamps(s, boot, now, r, t);
    }
  }

  lemma EnqueueStamps<T>(s: Sched<T>, now: nat, p: T, t: T)
    requires WellFormed(s) && p in s.tasks && p !in s.ring && s.tasks[p].lastRunOrInQueue <= now
    requires Queued(Enqueue(s, p, now), t)
    ensures t in s.tasks
    ensures if p == t then Enqueue(s, p, now).tasks[t].lastRunOrInQueue == now
            else Queued(s, t) && Enqueue(s, p, now).tasks[t] == s.tasks[t]
  {
    var r := Enqueue(s, p, now);
    var i :| 0 < i < |r.ring| && r.ring[i] == t;
    assert p == t || (i > 1 && s.ring[i - 1] == t);
  }

  lemma DequeueStamps<T>(s: Sched<T>, j: nat, t: T)
    requires 0 < j < |s.ring| && Queued(Dequeue(s, j), t)
    ensures Queued(s, t) && Dequeue(s, j).tasks == s.tasks && Dequeue(s, j).current == s.current
  {
    var r := Dequeue(s, j);
    var i :| 0 < i < |r.ring| && r.ring[i] == t;
    assert t == s.ring[if i < j then i else i + 1];
  }

  lemma RescheduleStamps<T>(s: Sched<T>, boot: nat, now: nat, r: Sched<T>, t: T)
    requires Inv(s, boot, now) && AllFit(s, now) && Reschedule(s, now, r)
    requires Queued(r, t) && r.current != t
    ensures t in r.tasks && t in s.tasks && Queued(s, t)
    ensures r.tasks[t].lastRunOrInQueue == if s.current == t then now else s.tasks[t].lastRunOrInQueue
  {
    hide TotalExecution, IsPick, AfterBurst;
    AfterBurstCharges(s, boot, now);
    var i :| 0 < i < |r.ring| && r.ring[i] == t;
    assert s.ring[i] == t;
  }

  /** A queued task off the CPU carries the time at which it was last queued or lost the CPU. */
  lemma {:induction false} StampIsIdleSince<T>(run: Run<T>, n: nat, t: T)
    requires IsRun(run) && n < |run.states|
    requires Queued(run.states[n], t) && run.states[n].current != t
    ensures t in run.states[n].tasks && run.states[n].tasks[t].lastRunOrInQueue == IdleSince(run, n, t)
  {
    hide Inv, WellFormed, AllFit, StepBy, IsRun;
    if n == 0 {
      BootQueue(run);
    } else {
      RunShape(run);
      RunAt(run, n - 1);
      StepStamps(run.states[n - 1], run.times[0], run.times[n], run.events[n - 1], run.states[n], t);
      if !StartsWaiting(run, n - 1, t) {
        StampIsIdleSince(run, n - 1, t);
      }
    }
  }

  lemma BootQueue<T>(run: Run<T>)
    requires IsRun(run)
    ensures |run.states[0].ring| == 1
  {}

  /** The subtraction in updateWaitingInRQ never wraps; queued tasks get their real waiting time, the running one zero. */
  lemma WaitingIsExact<T>(run: Run<T>, n: nat, t: T)
    requires IsRun(run) && n < |run.events| && Queued(run.states[n], t)
    ensures Inv(run.states[n], run.times[0], run.times[n + 1]) && AllFit(run.states[n], run.times[n + 1])
    ensures t in run.states[n].tasks && |run.times| == |run.states|
    ensures IdleSince(run, n, t) <= run.times[n + 1] || t == run.states[n].current
    ensures BeforePick(run.states[n], run.times[n + 1])[t].waitingInRQ
         == if t == run.states[n].current then 0 else run.times[n + 1] - IdleSince(run, n, t)
  {
    hide TotalExecution, AfterBurst, StepBy, IsRun;
    RunAt(run, n);
    RunShape(run);
    var s := run.states[n];
    var i :| 0 < i < |s.ring| && s.ring[i] == t;
    assert s.ring[1..][i - 1] == t;
    if t != s.current {
      StampIsIdleSince(run, n, t);
    }
  }

  // ------------------------------------------------------------------ starvation

  /** At event `n` the scheduler chooses among queued tasks. */
  ghost predicate Chooses<T>(run: Run<T>, n: nat) {
    n < |run.events| && |run.states| == |run.events| + 1 && run.events[n] == Reschedules && |run.states[n].ring| > 1
  }

  /** No prediction that the choice at event `n` sees exceeds `bound`. */
  ghost predicate PredictionsAtMost<T>(run: Run<T>, n: nat, bound: nat)
    requires IsRun(run) && n < |run.events|
  {
    RunAt(run, n);
    var s := run.states[n];
    forall i | 0 < i < |s.ring| :: BeforePick(s, run.times[n + 1])[s.ring[i]].nextBurstPred <= bound
  }

  /** No goodness that the choice at event `n` computes wraps around. */
  ghost predicate NeverWraps<T>(run: Run<T>, n: nat)
    requires IsRun(run) && n < |run.events|
  {
    RunAt(run, n);
    NoWrap(run.states[n].ring, BeforePick(run.states[n], run.times[n + 1]))
  }

  /** No queued task off the CPU has been waiting for more than `wait` at event `n`. */
  ghost predicate WaitsAtMost<T>(run: Run<T>, n: nat, wait: nat)
    requires IsRun(run) && n < |run.events|
  {
    RunShape(run);
    forall i | 0 < i < |run.states[n].ring| ::
      run.states[n].ring[i] == run.states[n].current || run.times[n + 1] - IdleSince(run, n, run.states[n].ring[i]) <= wait
  }

  /** Nothing wraps as long as the product of the largest prediction and the longest real wait has room in 64 bits. */
  lemma RoomNeverWraps<T>(run: Run<T>, n: nat, bound: nat, wait: nat)
    requires IsRun(run) && n < |run.events| && PredictionsAtMost(run, n, bound) && WaitsAtMost(run, n, wait)
    requires (1 + bound) * (1 + wait) <= ULLONG_MAX
    ensures NeverWraps(run, n)
  {
    hide IsRun, BeforePick, IdleSince, StepBy, NoWrap;
    RunAt(run, n);
    RunShape(run);
    var s, m := run.states[n], BeforePick(run.states[n], run.times[n + 1]);
    BeforePickPast(s, run.times[0], run.times[n + 1]);
    forall i | 0 < i < |s.ring| ensures m[s.ring[i]].waitingInRQ <= wait {
      assert Queued(s, s.ring[i]);
      WaitingIsExact(run, n, s.ring[i]);
    }
    WithinNeverWraps(s.ring, m, bound, wait);
  }

  /** No wait exceeds the clock reading, so room for the product of the largest prediction and the clock is enough. */
  lemma EarlyNeverWraps<T>(run: Run<T>, n: nat, bound: nat)
    requires IsRun(run) && n < |run.events| && PredictionsAtMost(run, n, bound)
    requires (1 + bound) * (1 + run.times[n + 1]) <= ULLONG_MAX
    ensures NeverWraps(run, n)
  {
    hide IsRun, BeforePick, PredictionsAtMost, IdleSince, NeverWraps;
    RunShape(run);
    RoomNeverWraps(run, n, bound, run.times[n + 1]);
  }

  /** Once `a` has chosen a task, it is on the CPU, off the queue, or stamped no earlier than `a`. */
  lemma {:induction false} ChosenIsStamped<T>(run: Run<T>, a: nat, n: nat)
    requires IsRun(run) && Chooses(run, a) && a < n < |run.states|
    ensures var t := run.states[a + 1].current;
            || t == run.states[n].current
            || !Queued(run.states[n], t)
            || (t in run.states[n].tasks && run.states[n].tasks[t].lastRunOrInQueue >= run.times[a + 1])
  {
    hide Inv, AllFit, StepBy, IsRun;
    var t := run.states[a + 1].current;
    RunShape(run);
    if n > a + 1 && t != run.states[n].current && Queued(run.states[n], t) {
      ChosenIsStamped(run, a, n - 1);
      RunAt(run, n - 1);
      StepStamps(run.states[n - 1], run.times[0], run.times[n], run.events[n - 1], run.states[n], t);
      TimesGrow(run, a + 1, n);
    }
  }

  /** While `t` stays queued and off the CPU it starts waiting only once. */
  lemma {:induction false} IdleSinceKept<T>(run: Run<T>, m: nat, n: nat, t: T)
    requires IsRun(run) && m <= n < |run.states|
    requires forall k | m <= k <= n :: Queued(run.states[k], t) && run.states[k].current != t
    ensures |run.states| == |run.events| + 1
    ensures IdleSince(run, n, t) == IdleSince(run, m, t)
  {
    hide Inv, AllFit, IsRun;
    RunShape(run);
    if m < n {
      IdleSinceKept(run, m, n - 1, t);
      RunAt(run, n - 1);
      assert t in run.states[n - 1].ring;
      assert !StartsWaiting(run, n - 1, t);
    }
  }

  /** The choice at event `n` bounds every wait by that of the task chosen. */
  lemma ChoiceBoundsWait<T>(run: Run<T>, n: nat, t: T, bound: nat)
    requires IsRun(run) && Chooses(run, n) && PredictionsAtMost(run, n, bound) && NeverWraps(run, n)
    requires Queued(run.states[n], t) && run.states[n].current != t
    ensures AllFit(run.states[n], run.times[n + 1]) && WellFormed(run.states[n])
    ensures var c := run.states[n + 1].current;
            && Queued(run.states[n], c) && c in run.states[n].tasks
            && IdleSince(run, n, t) <= run.times[n + 1]
            && 1 + run.times[n + 1] - IdleSince(run, n, t)
               < (bound + 2) * (1 + BeforePick(run.states[n], run.times[n + 1])[c].waitingInRQ)
  {
    hide StepBy, IsRun, BeforePick, IsPick, NoWrap, TotalExecution;
    RunShape(run);
    var s, now := run.states[n], run.times[n + 1];
    var i := StepIsReschedule(run, n);
    BeforePickPast(s, run.times[0], now);
    WaitingIsExact(run, n, t);
    var j :| 0 < j < |s.ring| && s.ring[j] == t;
    PickBoundsWait(s.ring, BeforePick(s, now), i, j, bound);
  }

  lemma StepIsReschedule<T>(run: Run<T>, n: nat) returns (i: nat)
    requires IsRun(run) && Chooses(run, n)
    ensures Inv(run.states[n], run.times[0], run.times[n + 1]) && AllFit(run.states[n], run.times[n + 1])
    ensures |run.times| == |run.states| && Picks(run.states[n], run.times[n + 1], i, run.states[n + 1])
  {
    hide Picks, Inv, AllFit;
    RunAt(run, n);
    i :| Picks(run.states[n], run.times[n + 1], i, run.states[n + 1]);
  }

  lemma {:induction false} DistinctCount<T>(s: seq<T>, c: set<T>)
    requires Distinct(s) && forall x | x in s :: x in c
    ensures |s| <= |c|
  {
    if s != [] {
      assert s[0] in s && s[0] !in s[1..];
      assert forall x | x in s[1..] :: x in s;
      DistinctCount(s[1..], c - {s[0]});
    }
  }

  /** The tasks chosen at the events listed in `at`. */
  ghost function Chosen<T>(run: Run<T>, at: seq<nat>): seq<T>
    requires forall j | 0 <= j < |at| :: Chooses(run, at[j])
  {
    seq(|at|, j requires 0 <= j < |at| => assert Chooses(run, at[j]); run.states[at[j] + 1].current)
  }

  /** `at` lists events in order at which the scheduler chooses, `t` being queued and off the CPU all the while. */
  ghost predicate PassedOver<T>(run: Run<T>, at: seq<nat>, t: T) {
    && at != []
    && (forall j | 0 <= j < |at| :: Chooses(run, at[j]))
    && (forall i, j | 0 <= i < j < |at| :: at[i] < at[j])
    && forall n: nat | at[0] <= n <= at[|at| - 1] + 1 :: n < |run.states| && Queued(run.states[n], t) && run.states[n].current != t
  }

  /** Every task that competes with `t` at one of the events is in `others`. */
  ghost predicate CompetesWith<T>(run: Run<T>, at: seq<nat>, t: T, others: set<T>)
    requires forall j | 0 <= j < |at| :: Chooses(run, at[j])
  {
    forall j | 0 <= j < |at| ::
      Chooses(run, at[j]) && forall i | 0 < i < |run.states[at[j]].ring| :: run.states[at[j]].ring[i] == t || run.states[at[j]].ring[i] in others
  }

  lemma ChosenCompete<T>(run: Run<T>, at: seq<nat>, t: T, others: set<T>)
    requires IsRun(run) && PassedOver(run, at, t) && CompetesWith(run, at, t, others)
    ensures forall c | c in Chosen(run, at) :: c in others
  {
    hide IsRun, Picks;
    forall j | 0 <= j < |at| ensures run.states[at[j] + 1].current in others {
      var i := ChosenAt(run, at[j]);
      assert at[0] <= at[j] && at[j] <= at[|at| - 1];
      assert Chooses(run, at[j]);
      assert run.states[at[j] + 1].current != t;
    }
  }

  lemma ChosenAt<T>(run: Run<T>, n: nat) returns (i: nat)
    requires IsRun(run) && Chooses(run, n)
    ensures 0 < i < |run.states[n].ring| && run.states[n + 1].current == run.states[n].ring[i]
  {
    i := StepIsReschedule(run, n);
  }

  /**
   No starvation. Let a task stay queued and off the CPU over more choices of the scheduler than it has competitors.
   Then how long it had already waited at the first of them is bounded by the largest prediction and the time these
   choices took: it would otherwise have been chosen. All that is asked is that no goodness wraps at these choices.
   */
  lemma WaitIsBounded<T>(run: Run<T>, at: seq<nat>, t: T, others: set<T>, bound: nat)
    requires IsRun(run) && PassedOver(run, at, t) && CompetesWith(run, at, t, others)
    requires |at| > |others|
    requires forall j | 0 <= j < |at| :: Chooses(run, at[j]) && PredictionsAtMost(run, at[j], bound) && NeverWraps(run, at[j])
    ensures |run.times| == |run.states|
    ensures IdleSince(run, at[0], t) <= run.times[at[0] + 1] <= run.times[at[|at| - 1] + 1]
    ensures 1 + run.times[at[0] + 1] - IdleSince(run, at[0], t)
          < (bound + 2) * (1 + run.times[at[|at| - 1] + 1] - run.times[at[0] + 1])
  {
    hide IsRun, CompetesWith, PredictionsAtMost, NeverWraps, IdleSince, BeforePick;
    RunShape(run);
    ChosenCompete(run, at, t, others);
    var chosen := Chosen(run, at);
    if Distinct(chosen) {
      DistinctCount(chosen, others);
      assert false;
    }
    var i, j :| 0 <= i < j < |chosen| && chosen[i] == chosen[j];
    assert Chooses(run, at[i]) && Chooses(run, at[j]);
    TwiceChosen(run, at, t, i, j, bound);
  }

  /** A task chosen twice cannot have waited longer, the second time, than the span between the two choices. */
  lemma TwiceChosen<T>(run: Run<T>, at: seq<nat>, t: T, i: nat, j: nat, bound: nat)
    requires IsRun(run) && PassedOver(run, at, t) && |run.times| == |run.states| == |run.events| + 1
    requires i < j < |at| && Chooses(run, at[i]) && Chooses(run, at[j]) && PredictionsAtMost(run, at[j], bound)
    requires NeverWraps(run, at[j])
    requires run.states[at[i] + 1].current == run.states[at[j] + 1].current
    ensures IdleSince(run, at[0], t) <= run.times[at[0] + 1] <= run.times[at[|at| - 1] + 1]
    ensures 1 + run.times[at[0] + 1] - IdleSince(run, at[0], t)
          < (bound + 2) * (1 + run.times[at[|at| - 1] + 1] - run.times[at[0] + 1])
  {
    hide IsRun, PredictionsAtMost, NeverWraps, IdleSince, BeforePick, AllFit, WellFormed;
    var first, last, a, b := at[0], at[|at| - 1], at[i], at[j];
    assert first <= a < b <= last;
    TimesGrow(run, first + 1, a + 1);
    TimesGrow(run, a + 1, b + 1);
    TimesGrow(run, b + 1, last + 1);
    IdleSinceKept(run, first, b, t);
    ChoiceBoundsWait(run, b, t, bound);
    IdleBefore(run, first, t);
    var c := run.states[b + 1].current;
    ChosenIsStamped(run, a, b);
    WaitingIsExact(run, b, c);
    if c != run.states[b].current {
      StampIsIdleSince(run, b, c);
    }
    var wait := BeforePick(run.states[b], run.times[b + 1])[c].waitingInRQ;
    assert wait <= run.times[b + 1] - run.times[a + 1];
    Monotone(bound + 2, bound + 2, 1 + wait, 1 + run.times[last + 1] - run.times[first + 1]);
  }

  lemma {:induction false} IdleBefore<T>(run: Run<T>, n: nat, t: T)
    requires IsRun(run) && n < |run.states|
    ensures |run.states| == |run.times| == |run.events| + 1
    ensures IdleSince(run, n, t) <= run.times[n]
    ensures n < |run.events| ==> run.times[n] <= run.times[n + 1]
  {
    hide IsRun, StartsWaiting;
    RunShape(run);
    if n > 0 {
      IdleBefore(run, n - 1, t);
    }
    if n < |run.events| {
      TimesGrow(run, n, n + 1);
    }
  }
}
