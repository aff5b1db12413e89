/**
 The scheduler as a value: the run queue ring with its head first, the task on the CPU, and the
 scheduling fields of every task. Times are clock readings; one call reads one time throughout.
 */
module SchedModel {

  const ULLONG_MAX: nat := 0xFFFF_FFFF_FFFF_FFFF

  /** unsigned long long addition, subtraction and multiplication */
  function Add64(a: nat, b: nat): (r: nat)
    requires a <= ULLONG_MAX && b <= ULLONG_MAX
    ensures r <= ULLONG_MAX
  {
    if a + b <= ULLONG_MAX then a + b else a + b - ULLONG_MAX - 1
  }

  function Sub64(a: nat, b: nat): (r: nat)
    requires a <= ULLONG_MAX && b <= ULLONG_MAX
    ensures r <= ULLONG_MAX
  {
    if a >= b then a - b else a + ULLONG_MAX + 1 - b
  }

  function Wrap64(a: nat): (r: nat)
    ensures r <= ULLONG_MAX
  {
    a % (ULLONG_MAX + 1)
  }

  datatype TaskData = TaskData(
    lastBurstTime: nat,
    nextBurstPred: nat,
    lastRunOrInQueue: nat,
    waitingInRQ: nat,
    timeStarted: nat,
    totalExecutionTime: nat)

  const NewTask: TaskData := TaskData(0, 0, 0, 0, 0, 0)

  /** The fields hold unsigned long long values. */
  ghost predicate Fits64(d: TaskData) {
    && d.lastBurstTime <= ULLONG_MAX && d.nextBurstPred <= ULLONG_MAX && d.lastRunOrInQueue <= ULLONG_MAX
    && d.waitingInRQ <= ULLONG_MAX && d.timeStarted <= ULLONG_MAX && d.totalExecutionTime <= ULLONG_MAX
  }

  datatype Sched<T> = Sched(ring: seq<T>, current: T, tasks: map<T, TaskData>)

  ghost predicate Distinct<T>(s: seq<T>) {
    forall i, j | 0 <= i < j < |s| :: s[i] != s[j]
  }

  /** The ring holds known tasks once each, the head first; the CPU runs a known task. */
  ghost predicate WellFormed<T>(s: Sched<T>) {
    && s.ring != [] && Distinct(s.ring)
    && (forall i | 0 <= i < |s.ring| :: s.ring[i] in s.tasks)
    && s.current in s.tasks
  }

  ghost predicate Queued<T>(s: Sched<T>, t: T) {
    exists i | 0 < i < |s.ring| :: s.ring[i] == t
  }

  function Max(a: nat, b: nat): nat {
    if a >= b then a else b
  }

  // ------------------------------------------------------- queue operations

  /** initschedule: the seed task, with the fields it has, is the head of a ring of its own; the virtual machine runs it. */
  function Boot<T(==)>(seed: T, d: TaskData): Sched<T> {
    Sched([seed], seed, map[seed := d])
  }

  /** sched_fork */
  function Fork<T(==)>(s: Sched<T>, p: T): Sched<T> {
    s.(tasks := s.tasks[p := NewTask])
  }

  /** wake_up_new_task and activate_task: right after the head, queued since now. */
  function Enqueue<T(==)>(s: Sched<T>, p: T, now: nat): Sched<T>
    requires s.ring != [] && p in s.tasks
  {
    var d := s.tasks[p];
    s.(ring := [s.ring[0], p] + s.ring[1..],
       tasks := s.tasks[p := d.(lastRunOrInQueue := Max(d.lastRunOrInQueue, now))])
  }

  /** deactivate_task for the task at position `i` of the ring. */
  function Dequeue<T(==)>(s: Sched<T>, i: nat): Sched<T>
    requires 0 < i < |s.ring|
  {
    s.(ring := s.ring[..i] + s.ring[i + 1..])
  }

  // ---------------------------------------------------------------- schedule

  /** (last + 0.5 * pred) / 1.5, rounded down */
  function Average(last: nat, pred: nat): nat {
    (2 * last + pred) / 3
  }

  /** The running task is charged for its burst so far, assuming it will lose the CPU. */
  function Charge(d: TaskData, now: nat): (r: TaskData)
    requires now <= ULLONG_MAX && Fits64(d)
    ensures Fits64(r)
  {
    var ran := Sub64(now, d.timeStarted);
    var last := Add64(d.lastBurstTime, ran);
    d.(lastBurstTime := last,
       totalExecutionTime := Add64(d.totalExecutionTime, ran),
       nextBurstPred := Average(last, d.nextBurstPred))
  }

  /** A burst that ended: the final prediction, and the burst counter starts again. */
  function Retire(d: TaskData): (r: TaskData)
    ensures Fits64(d) ==> Fits64(r)
  {
    d.(nextBurstPred := Average(d.lastBurstTime, d.nextBurstPred), lastBurstTime := 0)
  }

  /** All fields of all tasks and the clock are unsigned long long values. */
  ghost predicate AllFit<T>(s: Sched<T>, now: nat) {
    now <= ULLONG_MAX && forall t | t in s.tasks :: Fits64(s.tasks[t])
  }

  /** Lines 104 to 116 of schedule.c: what happens to the fields of the task on the CPU before anything is chosen. */
  ghost function AfterBurst<T>(s: Sched<T>, now: nat): (r: TaskData)
    requires WellFormed(s) && AllFit(s, now)
    ensures Fits64(r)
  {
    var d := s.tasks[s.current];
    if s.current == s.ring[0] then d
    else if s.current in s.ring then Charge(d, now)
    else Retire(Charge(d, now))
  }

  /** updateWaitingInRQ: time since the task last lost the CPU or was queued; nothing for the running task. */
  ghost function Waited<T>(s: Sched<T>, t: T, d: TaskData, now: nat): TaskData
    requires s.ring != [] && now <= ULLONG_MAX && Fits64(d)
  {
    if t !in s.ring[1..] then d
    else d.(waitingInRQ := if t == s.current then 0 else Sub64(now, d.lastRunOrInQueue))
  }

  /** The fields of every task as the selection sees them. */
  ghost function BeforePick<T>(s: Sched<T>, now: nat): (m: map<T, TaskData>)
    requires WellFormed(s) && AllFit(s, now)
    ensures m.Keys == s.tasks.Keys
  {
    map t | t in s.tasks :: Waited(s, t, if t == s.current then AfterBurst(s, now) else s.tasks[t], now)
  }

  // ------------------------------------------------------------- the selectors

  /** The least prediction among ring positions 1 to n - 1, at most ULLONG_MAX. */
  ghost function MinPred<T>(ring: seq<T>, tasks: map<T, TaskData>, n: nat): nat
    requires n <= |ring| && forall i | 0 <= i < |ring| :: ring[i] in tasks
  {
    if n <= 1 then ULLONG_MAX
    else
      var m, p := MinPred(ring, tasks, n - 1), tasks[ring[n - 1]].nextBurstPred;
      if p < m then p else m
  }

  /** The greatest waiting time among ring positions 1 to n - 1. */
  ghost function MaxWait<T>(ring: seq<T>, tasks: map<T, TaskData>, n: nat): nat
    requires n <= |ring| && forall i | 0 <= i < |ring| :: ring[i] in tasks
  {
    if n <= 1 then 0
    else
      var m, w := MaxWait(ring, tasks, n - 1), tasks[ring[n - 1]].waitingInRQ;
      if w >= m then w else m
  }

  /** ((1 + pred) / (1 + minPred)) * ((1 + maxWait) / (1 + wait)) */
  function Goodness(pred: nat, minPred: nat, maxWait: nat, wait: nat): nat {
    ((1 + pred) / (1 + minPred)) * ((1 + maxWait) / (1 + wait))
  }

  ghost function GoodnessAt<T>(ring: seq<T>, tasks: map<T, TaskData>, i: nat): nat
    requires 0 < i < |ring| && forall j | 0 <= j < |ring| :: ring[j] in tasks
  {
    var d := tasks[ring[i]];
    Wrap64(Goodness(d.nextBurstPred, MinPred(ring, tasks, |ring|), MaxWait(ring, tasks, |ring|), d.waitingInRQ))
  }

  /** Position `i` has the least goodness, and is the last in ring order among equals. */
  ghost predicate IsPick<T>(ring: seq<T>, tasks: map<T, TaskData>, i: nat)
    requires forall j | 0 <= j < |ring| :: ring[j] in tasks
  {
    && 0 < i < |ring|
    && (forall j | 0 < j < |ring| :: GoodnessAt(ring, tasks, i) <= GoodnessAt(ring, tasks, j))
    && (forall j | i < j < |ring| :: GoodnessAt(ring, tasks, i) < GoodnessAt(ring, tasks, j))
  }

  /** Lines 129 to 143 of schedule.c: the choice starts its round; the old task goes back to waiting, or gets its prediction back. */
  ghost function Switch<T>(s: Sched<T>, tasks: map<T, TaskData>, next: T, now: nat): Sched<T>
    requires s.current in s.tasks && s.current in tasks && next in tasks
  {
    var started := tasks[next := tasks[next].(timeStarted := now)];
    var d := started[s.current];
    var settled := if next != s.current then d.(lastRunOrInQueue := Max(d.lastRunOrInQueue, now))
                   else d.(nextBurstPred := s.tasks[s.current].nextBurstPred);
    Sched(s.ring, next, started[s.current := settled])
  }

  /** The best-rated task at position `i` gets the CPU. */
  ghost predicate Picks<T>(s: Sched<T>, now: nat, i: nat, s': Sched<T>)
    requires WellFormed(s) && AllFit(s, now)
  {
    && 0 < i < |s.ring|
    && IsPick(s.ring, BeforePick(s, now), i)
    && s' == Switch(s, BeforePick(s, now), s.ring[i], now)
  }

  /** schedule: back to the head if it is alone on the ring, otherwise on to the best-rated task. */
  ghost predicate Reschedule<T>(s: Sched<T>, now: nat, s': Sched<T>)
    requires WellFormed(s) && AllFit(s, now)
  {
    if |s.ring| == 1 then s' == s.(current := s.ring[0]) else exists i: nat :: Picks(s, now, i, s')
  }
}
