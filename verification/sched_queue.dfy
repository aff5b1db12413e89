/**
 schedule.c over task structs linked into a ring. The ghost field `ring` lists the ring from its head
 on, `all` the tasks that exist; Abs() is the scheduler they make up.
 */
module SchedQueue {
  import opened SchedModel
  import opened SchedRing
  import opened SchedRuns
  import opened SchedSelection

  type ulonglong = x: nat | x <= ULLONG_MAX

  class Task {
    var prev: Task?
    var next: Task?
    var lastBurstTime: ulonglong
    var nextBurstPred: ulonglong
    var lastRunOrInQueue: ulonglong
    var waitingInRQ: ulonglong
    var timeStarted: ulonglong
    var goodness: ulonglong
    var totalExecutionTime: ulonglong

    constructor ()
      ensures prev == null && next == null
    {
      prev, next := null, null;
    }

    ghost function Data(): (d: TaskData)
      reads `lastBurstTime, `nextBurstPred, `lastRunOrInQueue, `waitingInRQ, `timeStarted, `totalExecutionTime
      ensures Fits64(d)
    {
      TaskData(lastBurstTime, nextBurstPred, lastRunOrInQueue, waitingInRQ, timeStarted, totalExecutionTime)
    }
  }

  class RunQueue {
    var nrRunning: nat
    var head: Task?

    constructor ()
      ensures nrRunning == 0 && head == null
    {
      nrRunning, head := 0, null;
    }
  }

  class Scheduler {
    const rq: RunQueue
    var current: Task
    ghost var ring: seq<Task>
    ghost var all: set<Task>

    ghost function Nexts(): map<Task?, Task?>
      reads this`all, all`next
    {
      map t | t in all :: t.next
    }

    ghost function Prevs(): map<Task?, Task?>
      reads this`all, all`prev
    {
      map t | t in all :: t.prev
    }

    ghost function Tasks(): map<Task, TaskData>
      reads this`all
      reads all`lastBurstTime, all`nextBurstPred, all`lastRunOrInQueue, all`waitingInRQ, all`timeStarted, all`totalExecutionTime
    {
      map t | t in all :: t.Data()
    }

    /** The run queue is the ring: the links of every task, the head, and the count. */
    ghost predicate Linked()
      reads this`ring, this`all, rq, all`next, all`prev
    {
      && RingOf(ring, Nexts(), Prevs(), null)
      && rq.head == ring[0] && rq.nrRunning == |ring|
      && forall i | 0 <= i < |ring| :: ring[i] in all
    }

    ghost predicate Valid()
      reads this, rq, all`next, all`prev
    {
      Linked() && current in all
    }

    ghost function Abs(): (s: Sched<Task>)
      reads this
      reads all`lastBurstTime, all`nextBurstPred, all`lastRunOrInQueue, all`waitingInRQ, all`timeStarted, all`totalExecutionTime
    {
      Sched(ring, current, Tasks())
    }

    /** initschedule: the seed task becomes the head of the new queue and keeps its fields; the virtual machine runs it. */
    constructor Init(newrq: RunQueue, seedTask: Task)
      requires newrq.nrRunning == 0
      modifies newrq, seedTask`next, seedTask`prev
      ensures Valid() && rq == newrq && Abs() == Boot(seedTask, old(seedTask.Data()))
    {
      rq := newrq;
      current := seedTask;
      ring := [seedTask];
      all := {seedTask};
      new;
      seedTask.next, seedTask.prev := seedTask, seedTask;
      newrq.head := seedTask;
      newrq.nrRunning := newrq.nrRunning + 1;
    }

    /** The fields that sched_fork sets. */
    static method Clear(p: Task)
      modifies p
      ensures p.Data() == NewTask && p.goodness == 0 && p.next == old(p.next) && p.prev == old(p.prev)
    {
      p.lastBurstTime, p.lastRunOrInQueue, p.nextBurstPred := 0, 0, 0;
      p.timeStarted, p.goodness, p.waitingInRQ, p.totalExecutionTime := 0, 0, 0, 0;
    }

    method SchedFork(p: Task)
      requires Valid() && p !in all && p.next == null && p.prev == null
      modifies this`all, p
      ensures Valid() && Abs() == Fork(old(Abs()), p) && p.goodness == 0
    {
      hide RingOf;
      NewOffRing<Task?>(ring, Nexts(), Prevs(), null, p);
      RingShape<Task?>(ring, Nexts(), Prevs(), null);
      ghost var nx, pv, tasks := Nexts(), Prevs(), Abs().tasks;
      Clear(p);
      all := all + {p};
      assert Nexts() == nx[p := null] && Prevs() == pv[p := null];
      assert Abs().tasks == tasks[p := NewTask];
    }

    lemma LinksAt(i: nat)
      requires Linked() && i < |ring|
      ensures ring[i] in all && ring[Succ(i, |ring|)] in all && ring[Pred(i, |ring|)] in all
      ensures ring[i].next == ring[Succ(i, |ring|)] && ring[i].prev == ring[Pred(i, |ring|)]
    {
      NextAt<Task?>(ring, Nexts(), i);
      PrevAt<Task?>(ring, Prevs(), i);
    }

    /** The four assignments that link a task in after the head. */
    method LinkAfterHead(p: Task)
      requires Linked() && p in all && p !in ring
      modifies all`next, all`prev
      ensures Nexts() == old(Nexts())[p := ring[Succ(0, |ring|)]][ring[0] := p]
      ensures Prevs() == old(Prevs())[p := ring[0]][ring[Succ(0, |ring|)] := p]
    {
      hide RingOf;
      RingShape<Task?>(ring, Nexts(), Prevs(), null);
      LinksAt(0);
      assert ring[0] in ring && ring[Succ(0, |ring|)] in ring;
      p.next := rq.head.next;
      p.prev := rq.head;
      p.next.prev := p;
      p.prev.next := p;
    }

    /** The time of being queued, kept if it is later already. */
    method Stamp(p: Task, now: ulonglong)
      requires p in all
      modifies p`lastRunOrInQueue
      ensures Tasks() == old(Tasks())[p := old(p.Data()).(lastRunOrInQueue := Max(old(p.lastRunOrInQueue), now))]
      ensures p.lastRunOrInQueue == if old(p.lastRunOrInQueue) < now then now else old(p.lastRunOrInQueue)
    {
      if now > p.lastRunOrInQueue {
        p.lastRunOrInQueue := now;
      }
    }

    /** The task becomes the second of the ring, and the count goes up. */
    method AddToRing(p: Task)
      requires Linked() && p in all && p !in ring
      modifies this`ring, rq, all`next, all`prev
      ensures Linked() && ring == [old(ring)[0], p] + old(ring)[1..]
    {
      hide RingOf, InsertAfterHead;
      ghost var nx, pv := Nexts(), Prevs();
      RingShape<Task?>(ring, nx, pv, null);
      LinkIn<Task?>(ring, nx, pv, null, p);
      LinksAt(0);
      InsertedMembers<Task?>(ring, p, all);
      assert nx[ring[0]] == ring[Succ(0, |ring|)];
      LinkAfterHead(p);
      rq.nrRunning := rq.nrRunning + 1;
      ring := [ring[0], p] + ring[1..];
    }

    /** wake_up_new_task and activate_task: the task is queued after the head, since now. */
    method ActivateTask(p: Task, now: ulonglong)
      requires Valid() && p in all && p !in ring
      modifies this`ring, rq, all`next, all`prev, p`lastRunOrInQueue
      ensures Valid() && Abs() == Enqueue(old(Abs()), p, now)
      ensures rq.head == old(rq.head) && rq.nrRunning == old(rq.nrRunning) + 1
      ensures rq.head.next == p && p.prev == rq.head && p.next == old(rq.head.next) && p.next.prev == p
    {
      hide RingOf;
      ghost var tasks := Tasks();
      RingShape<Task?>(ring, Nexts(), Prevs(), null);
      LinksAt(0);
      ghost var was := ring;
      AddToRing(p);
      LinksAt(0);
      LinksAt(1);
      LinksAt(Succ(1, |ring|));
      assert p.next == ring[Succ(1, |ring|)] == was[Succ(0, |was|)];
      assert Tasks() == tasks;
      Stamp(p, now);
    }

    /** The task has no links, and the tasks before and after it are linked to each other. */
    ghost predicate Bypassed(p: Task, before: Task?, after: Task?)
      reads p, before, after
    {
      p.next == null && p.prev == null && before != null && after != null && before.next == after && after.prev == before
    }

    /** The assignments that link a task out and clear its own links. */
    method Unlink(p: Task, ghost i: nat)
      requires Linked() && 0 < i < |ring| && ring[i] == p
      modifies all`next, all`prev
      ensures Nexts() == old(Nexts())[ring[Pred(i, |ring|)] := ring[Succ(i, |ring|)]][p := null]
      ensures Prevs() == old(Prevs())[ring[Succ(i, |ring|)] := ring[Pred(i, |ring|)]][p := null]
      ensures Bypassed(p, old(p.prev), old(p.next))
    {
      hide RingOf;
      RingShape<Task?>(ring, Nexts(), Prevs(), null);
      LinksAt(i);
      RingIndices(i);
      p.prev.next := p.next;
      p.next.prev := p.prev;
      p.next, p.prev := null, null;
    }

    /** The task leaves the ring, and the count goes down. */
    method RemoveFromRing(p: Task, ghost i: nat)
      requires Linked() && 0 < i < |ring| && ring[i] == p
      modifies this`ring, rq, all`next, all`prev
      ensures Linked() && ring == old(ring)[..i] + old(ring)[i + 1..]
      ensures Bypassed(p, old(p.prev), old(p.next))
    {
      hide RingOf, RemoveAt;
      ghost var nx, pv := Nexts(), Prevs();
      RingShape<Task?>(ring, nx, pv, null);
      LinkOut<Task?>(ring, nx, pv, null, i);
      LinksAt(i);
      RemovedMembers<Task?>(ring, i, all);
      assert nx[p] == ring[Succ(i, |ring|)] && pv[p] == ring[Pred(i, |ring|)];
      Unlink(p, i);
      rq.nrRunning := rq.nrRunning - 1;
      ring := ring[..i] + ring[i + 1..];
    }

    /** deactivate_task */
    method DeactivateTask(p: Task, ghost i: nat)
      requires Valid() && 0 < i < |ring| && ring[i] == p
      modifies this`ring, rq, all`next, all`prev
      ensures Valid() && Abs() == Dequeue(old(Abs()), i)
      ensures rq.head == old(rq.head) && rq.nrRunning == old(rq.nrRunning) - 1 && Bypassed(p, old(p.prev), old(p.next))
    {
      hide RingOf;
      ghost var tasks := Tasks();
      RemoveFromRing(p, i);
      assert Tasks() == tasks;
    }

    // ------------------------------------------------------------ the selectors

    lemma RingKnown()
      requires Linked()
      ensures forall i | 0 <= i < |ring| :: ring[i] in Tasks()
    {}

    lemma RingData(i: nat)
      requires Linked() && i < |ring|
      ensures ring[i] in Tasks() && Tasks()[ring[i]] == ring[i].Data()
    {}

    /** The first task in ring order with the least prediction; null if there is none below ULLONG_MAX. */
    method GetMinExpBurst() returns (curr: Task?, ghost k: nat)
      requires Linked()
      ensures forall i | 0 <= i < |ring| :: ring[i] in Tasks()
      ensures curr == null <==> MinPred(ring, Tasks(), |ring|) == ULLONG_MAX
      ensures curr != null ==>
                && 0 < k < |ring| && curr == ring[k] && curr.nextBurstPred == MinPred(ring, Tasks(), |ring|)
                && forall j | 0 < j < k :: Tasks()[ring[j]].nextBurstPred > curr.nextBurstPred
    {
      hide RingOf, Tasks, MinPred;
      RingShape<Task?>(ring, Nexts(), Prevs(), null);
      RingKnown();
      ExtremesOfNone(ring, Tasks());
      LinksAt(0);
      curr, k := null, 0;
      var minExpBurst := ULLONG_MAX;
      var tempTask := rq.head.next;
      var i := 0;
      ghost var tasks := Tasks();
      while i < rq.nrRunning && tempTask != rq.head
        invariant i < |ring| && tempTask == ring[Succ(i, |ring|)]
        invariant minExpBurst == MinPred(ring, tasks, i + 1)
        invariant curr == null <==> minExpBurst == ULLONG_MAX
        invariant curr != null ==>
                    && 0 < k <= i && curr == ring[k] && curr.nextBurstPred == minExpBurst
                    && forall j | 0 < j < k :: tasks[ring[j]].nextBurstPred > minExpBurst
        decreases |ring| - i
      {
        LinksAt(i + 1);
        RingData(i + 1);
        MinPredStep(ring, tasks, i + 1);
        assert forall j | 0 < j <= i :: tasks[ring[j]].nextBurstPred >= minExpBurst by {
          MinPredIsLeast(ring, tasks, i + 1);
        }
        if tempTask.nextBurstPred < minExpBurst {
          minExpBurst := tempTask.nextBurstPred;
          curr, k := tempTask, i + 1;
        }
        tempTask := tempTask.next;
        i := i + 1;
      }
    }

    /** The last task in ring order with the greatest waiting time; null if only the head is on the ring. */
    method GetMaxWaitingInRQ() returns (curr: Task?, ghost k: nat)
      requires Linked()
      ensures forall i | 0 <= i < |ring| :: ring[i] in Tasks()
      ensures curr == null <==> |ring| == 1
      ensures curr != null ==>
                && 0 < k < |ring| && curr == ring[k] && curr.waitingInRQ == MaxWait(ring, Tasks(), |ring|)
                && forall j | k < j < |ring| :: Tasks()[ring[j]].waitingInRQ < curr.waitingInRQ
    {
      hide RingOf, Tasks, MaxWait;
      RingShape<Task?>(ring, Nexts(), Prevs(), null);
      RingKnown();
      ExtremesOfNone(ring, Tasks());
      LinksAt(0);
      curr, k := null, 0;
      var maxWaitingInRQ := 0;
      var tempTask := rq.head.next;
      var i := 0;
      ghost var tasks := Tasks();
      while i < rq.nrRunning && tempTask != rq.head
        invariant i < |ring| && tempTask == ring[Succ(i, |ring|)]
        invariant maxWaitingInRQ == MaxWait(ring, tasks, i + 1)
        invariant curr == null <==> i == 0
        invariant curr != null ==>
                    && 0 < k <= i && curr == ring[k] && curr.waitingInRQ == maxWaitingInRQ
                    && forall j | k < j <= i :: tasks[ring[j]].waitingInRQ < maxWaitingInRQ
        decreases |ring| - i
      {
        LinksAt(i + 1);
        RingData(i + 1);
        MaxWaitStep(ring, tasks, i + 1);
        if tempTask.waitingInRQ >= maxWaitingInRQ {
          maxWaitingInRQ := tempTask.waitingInRQ;
          curr, k := tempTask, i + 1;
        }
        tempTask := tempTask.next;
        i := i + 1;
      }
    }

    lemma LeastBelowMax(j: nat)
      requires Linked() && 0 < j < |ring|
      requires forall t | t in all :: t.nextBurstPred < ULLONG_MAX
      ensures ring[j] in all && forall i | 0 <= i < |ring| :: ring[i] in Tasks()
      ensures MinPred(ring, Tasks(), |ring|) < ULLONG_MAX
    {
      hide RingOf;
      MinPredIsLeast(ring, Tasks(), |ring|);
      assert Tasks()[ring[j]].nextBurstPred < ULLONG_MAX;
    }

    /** The loop of getMinGoodness. */
    method RateTasks() returns (curr: Task?, ghost k: nat)
      requires Linked()
      requires forall t | t in all :: t.nextBurstPred < ULLONG_MAX && t.waitingInRQ < ULLONG_MAX
      modifies all`goodness
      ensures forall i | 0 <= i < |ring| :: ring[i] in Tasks()
      ensures curr == null <==> |ring| == 1
      ensures curr != null ==> IsPick(ring, Tasks(), k) && curr == ring[k]
      ensures forall i | 0 < i < |ring| :: ring[i].goodness == GoodnessAt(ring, Tasks(), i)
    {
      hide RingOf, GoodnessAt, Distinct, IsPickUpTo, IsPick, Tasks, Goodness, Wrap64, MinPred, MaxWait;
      RingShape<Task?>(ring, Nexts(), Prevs(), null);
      RingKnown();
      LinksAt(0);
      curr, k := null, 0;
      var minGoodness: nat := ULLONG_MAX;
      var tempTask := rq.head.next;
      var i := 0;
      ghost var tasks := Tasks();
      while i < rq.nrRunning && tempTask != rq.head
        invariant i < |ring| && tempTask == ring[Succ(i, |ring|)]
        invariant Tasks() == tasks
        invariant if i == 0 then curr == null && minGoodness == ULLONG_MAX
                  else k < |ring| && IsPickUpTo(ring, tasks, i + 1, k) && curr == ring[k] && minGoodness == ring[k].goodness
        invariant forall j | 0 < j <= i :: ring[j].goodness == GoodnessAt(ring, tasks, j)
        decreases |ring| - i
      {
        LinksAt(i + 1);
        RingIndices(i + 1);
        RingData(i + 1);
        LeastBelowMax(i + 1);
        var minBurstTask, maxWaitingInRQTask;
        ghost var a, b;
        minBurstTask, a := GetMinExpBurst();
        maxWaitingInRQTask, b := GetMaxWaitingInRQ();
        var tempGoodness := Wrap64(Goodness(tempTask.nextBurstPred, minBurstTask.nextBurstPred,
                                            maxWaitingInRQTask.waitingInRQ, tempTask.waitingInRQ));
        GoodnessFromExtremes(ring, tasks, i + 1);
        tempTask.goodness := tempGoodness;
        assert Tasks() == tasks;
        if i > 0 {
          ExtendPick(ring, tasks, i + 1, k);
        } else {
          FirstPick(ring, tasks);
        }
        if tempGoodness <= minGoodness {
          minGoodness := tempGoodness;
          curr, k := tempTask, i + 1;
        }
        tempTask := tempTask.next;
        i := i + 1;
      }
      if i > 0 {
        WholePick(ring, tasks, k);
      }
    }

    /** What the goodness fields say once they are all set. */
    lemma StoredGoodness(k: nat)
      requires Linked() && forall i | 0 <= i < |ring| :: ring[i] in Tasks()
      requires forall i | 0 < i < |ring| :: ring[i].goodness == GoodnessAt(ring, Tasks(), i)
      ensures forall i | 0 < i < |ring| ::
                IsGoodness(ring[i].goodness, ring[i].nextBurstPred, MinPred(ring, Tasks(), |ring|),
                           MaxWait(ring, Tasks(), |ring|), ring[i].waitingInRQ)
      ensures IsPick(ring, Tasks(), k) ==>
                && 0 < k < |ring|
                && (forall j | 0 < j < |ring| :: ring[k].goodness <= ring[j].goodness)
                && (forall j | k < j < |ring| :: ring[k].goodness < ring[j].goodness)
    {
      hide RingOf, Tasks, GoodnessAt, Goodness, Wrap64, MinPred, MaxWait, IsGoodness;
      forall i | 0 < i < |ring|
        ensures IsGoodness(ring[i].goodness, ring[i].nextBurstPred, MinPred(ring, Tasks(), |ring|),
                           MaxWait(ring, Tasks(), |ring|), ring[i].waitingInRQ)
      {
        RingData(i);
        GoodnessFromExtremes(ring, Tasks(), i);
        GoodnessIsProduct(ring[i].nextBurstPred, MinPred(ring, Tasks(), |ring|), MaxWait(ring, Tasks(), |ring|), ring[i].waitingInRQ);
      }
    }

    /** The last task in ring order with the least goodness; every queued task keeps its goodness for inspection. */
    method GetMinGoodness() returns (curr: Task?, ghost k: nat)
      requires Linked()
      requires forall t | t in all :: t.nextBurstPred < ULLONG_MAX && t.waitingInRQ < ULLONG_MAX
      modifies all`goodness
      ensures forall i | 0 <= i < |ring| :: ring[i] in Tasks()
      ensures curr == null <==> |ring| == 1
      ensures curr != null ==> IsPick(ring, Tasks(), k) && curr == ring[k]
      ensures forall i | 0 < i < |ring| :: ring[i].goodness == GoodnessAt(ring, Tasks(), i)
      ensures forall i | 0 < i < |ring| ::
                IsGoodness(ring[i].goodness, ring[i].nextBurstPred, MinPred(ring, Tasks(), |ring|),
                           MaxWait(ring, Tasks(), |ring|), ring[i].waitingInRQ)
      ensures curr != null ==>
                && (forall j | 0 < j < |ring| :: curr.goodness <= ring[j].goodness)
                && (forall j | k < j < |ring| :: curr.goodness < ring[j].goodness)
    {
      hide RingOf, GoodnessAt, Goodness, Wrap64, MinPred, MaxWait, IsGoodness, IsPick, Tasks;
      curr, k := RateTasks();
      StoredGoodness(k);
    }

    /** Different positions of the ring hold different tasks. */
    lemma RingIndices(i: nat)
      requires Linked() && i < |ring|
      ensures forall j | 0 <= j < |ring| && j != i :: ring[j] != ring[i]
    {}

    // -------------------------------------------------------------- scheduling

    /** Every queued task but the head gets its waiting time, the running task zero; nothing else changes. */
    method UpdateWaitingInRQ(now: ulonglong)
      requires Valid()
      modifies all`waitingInRQ
      ensures forall t | t in all ::
                t.waitingInRQ == if t in ring[1..] then WaitOf(t, old(Tasks()), now) else old(t.waitingInRQ)
    {
      hide RingOf, Distinct, Tasks;
      RingShape<Task?>(ring, Nexts(), Prevs(), null);
      LinksAt(0);
      RingIndices(0);
      var tempTask := rq.head.next;
      var i := 0;
      ghost var tasks, done: set<Task> := Tasks(), {};
      AllData();
      while i < rq.nrRunning && tempTask != rq.head
        invariant i < |ring| && tempTask == ring[Succ(i, |ring|)]
        invariant forall j | 0 <= j < |ring| :: ring[j] in done <==> 0 < j <= i
        invariant forall t | t in done :: t in ring[1..]
        invariant forall t | t in done :: t.waitingInRQ == WaitOf(t, tasks, now)
        invariant forall t | t in all && t !in done :: t.waitingInRQ == old(t.waitingInRQ)
        decreases |ring| - i
      {
        LinksAt(i + 1);
        RingIndices(i + 1);
        assert ring[1..][i] == tempTask;
        if tempTask == current {
          tempTask.waitingInRQ := 0;
        } else {
          tempTask.waitingInRQ := Sub64(now, tempTask.lastRunOrInQueue);
        }
        done := done + {tempTask};
        tempTask := tempTask.next;
        i := i + 1;
      }
    }

    lemma AllData()
      ensures Tasks().Keys == all && forall t | t in all :: Tasks()[t] == t.Data()
    {}

    /** In terms of the task fields, that is what updateWaitingInRQ does to every task. */
    lemma WaitingUpdated(tasks: map<Task, TaskData>, now: ulonglong)
      requires ring != [] && forall t | t in all :: t in tasks && Fits64(tasks[t])
      requires forall t | t in all :: t.Data() == tasks[t].(waitingInRQ := t.waitingInRQ)
      requires forall t | t in all ::
                t.waitingInRQ == if t in ring[1..] then WaitOf(t, tasks, now) else tasks[t].waitingInRQ
      ensures forall t | t in all :: t in Tasks() && Tasks()[t] == Waited(Abs(), t, tasks[t], now)
    {}

    ghost function WaitOf(t: Task, tasks: map<Task, TaskData>, now: ulonglong): nat
      requires t in tasks && Fits64(tasks[t])
      reads this`current
    {
      if t == current then 0 else Sub64(now, tasks[t].lastRunOrInQueue)
    }

    /** The running task, unless it is the head, is charged for its burst so far; if it left the queue the burst is over. */
    method ChargeCurrent(now: ulonglong) returns (tempBurstPred: ulonglong)
      requires Valid() && WellFormed(Abs()) && AllFit(Abs(), now)
      modifies current`lastBurstTime, current`totalExecutionTime, current`nextBurstPred
      ensures Tasks() == old(Tasks())[current := AfterBurst(old(Abs()), now)]
      ensures current != ring[0] ==> tempBurstPred == old(current.nextBurstPred)
      ensures current != ring[0] ==>
                var burst := Add64(old(current.lastBurstTime), Sub64(now, current.timeStarted));
                && current.lastBurstTime == (if current in ring then burst else 0)
                && current.nextBurstPred == burst + (old(current.nextBurstPred) - burst) / (if current in ring then 3 else 9)
    {
      hide RingOf;
      RingShape<Task?>(ring, Nexts(), Prevs(), null);
      CurrentOffRing();
      ghost var last: int, pred: int := Add64(current.lastBurstTime, Sub64(now, current.timeStarted)), current.nextBurstPred;
      AverageRounds(last, pred);
      AverageRounds(last, Average(last, pred));
      DivideTwice(pred - last, 3);
      tempBurstPred := 0;
      if current != rq.head {
        current.lastBurstTime := Add64(current.lastBurstTime, Sub64(now, current.timeStarted));
        current.totalExecutionTime := Add64(current.totalExecutionTime, Sub64(now, current.timeStarted));
        tempBurstPred := current.nextBurstPred;
        current.nextBurstPred := Average(current.lastBurstTime, current.nextBurstPred);
      }
      if current.next == null && current.prev == null && current != rq.head {
        current.nextBurstPred := Average(current.lastBurstTime, current.nextBurstPred);
        current.lastBurstTime := 0;
      }
    }

    /** The links tell whether the running task is still on the ring. */
    lemma CurrentOffRing()
      requires Valid()
      ensures current.next == null && current.prev == null <==> current !in ring
    {
      if current in ring {
        var i :| 0 <= i < |ring| && ring[i] == current;
        LinksAt(i);
      }
    }

    /** Everything up to the choice: afterwards the fields are as the selection is to see them. */
    method Prepare(now: ulonglong) returns (tempBurstPred: ulonglong)
      requires Valid() && WellFormed(Abs()) && AllFit(Abs(), now)
      modifies all`lastBurstTime, all`totalExecutionTime, all`nextBurstPred, all`waitingInRQ
      ensures Tasks() == BeforePick(old(Abs()), now)
      ensures current != ring[0] ==> tempBurstPred == old(current.nextBurstPred)
    {
      hide RingOf, AfterBurst, Waited, Tasks;
      ghost var s := Abs();
      tempBurstPred := ChargeCurrent(now);
      ghost var charged := Tasks();
      AllData();
      MeasureWaiting(now);
      AllData();
      BeforePickIs(s, Abs(), charged, now);
    }

    /** updateWaitingInRQ in terms of all task fields. */
    method MeasureWaiting(now: ulonglong)
      requires Valid()
      modifies all`waitingInRQ
      ensures forall t | t in all :: t in Tasks() && Tasks()[t] == Waited(Abs(), t, old(t.Data()), now)
    {
      hide RingOf, Tasks;
      ghost var tasks := Tasks();
      AllData();
      RingShape<Task?>(ring, Nexts(), Prevs(), null);
      UpdateWaitingInRQ(now);
      WaitingUpdated(tasks, now);
    }

    /** The round of the chosen task starts. */
    method StartRound(t: Task, now: ulonglong)
      requires t in all
      modifies t`timeStarted
      ensures Tasks() == old(Tasks())[t := old(t.Data()).(timeStarted := now)]
    {
      t.timeStarted := now;
    }

    method RestorePrediction(t: Task, pred: ulonglong)
      requires t in all
      modifies t`nextBurstPred
      ensures Tasks() == old(Tasks())[t := old(t.Data()).(nextBurstPred := pred)]
    {
      t.nextBurstPred := pred;
    }

    /** Lines 129 to 143 of schedule.c: the chosen task starts its round, the old one is stamped or gets its prediction back. */
    method SwitchTo(curr: Task, now: ulonglong, tempBurstPred: ulonglong, ghost s: Sched<Task>)
      requires Valid() && curr in all && |ring| > 1 && curr != ring[0]
      requires s.ring == ring && s.current == current && current in s.tasks
      requires current != ring[0] ==> tempBurstPred == s.tasks[current].nextBurstPred
      modifies this`current, all`timeStarted, all`lastRunOrInQueue, all`nextBurstPred
      ensures current == curr && Tasks().Keys == old(Tasks()).Keys == all && ring == old(ring)
      ensures Abs() == Switch(s, old(Tasks()), curr, now)
    {
      hide RingOf, Tasks;
      AllData();
      StartRound(curr, now);
      AllData();
      if curr != current {
        Stamp(current, now);
      } else if rq.nrRunning != 1 {
        RestorePrediction(current, tempBurstPred);
      }
      AllData();
      current := curr;
    }

    lemma PickedTask(k: nat)
      requires Linked() && 0 < k < |ring|
      ensures ring[k] in all && ring[k] != ring[0]
    {
      hide RingOf;
      RingShape<Task?>(ring, Nexts(), Prevs(), null);
    }

    /** schedule, at clock reading `now` */
    method Schedule(now: ulonglong, ghost boot: nat)
      requires Valid() && Inv(Abs(), boot, now) && now < ULLONG_MAX
      modifies this`current
      modifies all`lastBurstTime, all`totalExecutionTime, all`nextBurstPred, all`waitingInRQ
      modifies all`goodness, all`timeStarted, all`lastRunOrInQueue
      ensures WellFormed(old(Abs())) && AllFit(old(Abs()), now)
      ensures Valid() && Reschedule(old(Abs()), now, Abs())
      ensures Inv(Abs(), boot, now)
    {
      hide RingOf, BeforePick, IsPick, GoodnessAt, Switch, AfterBurst, TotalExecution, Tasks;
      ghost var s := Abs();
      InvFits(s, boot, now);
      if rq.nrRunning == 1 {
        current := rq.head;
      } else {
        AllData();
        var tempBurstPred := Prepare(now);
        BeforePickPast(s, boot, now);
        AllData();
        var curr;
        ghost var k;
        curr, k := GetMinGoodness();
        PickInRing(ring, Tasks(), k);
        PickedTask(k);
        assert Tasks() == BeforePick(s, now);
        SwitchTo(curr, now, tempBurstPred, s);
        assert Picks(s, now, k, Abs());
      }
      RescheduleKeepsInv(s, boot, now, Abs());
    }
  }

  lemma InsertedMembers<T>(ring: seq<T>, p: T, all: set<T>)
    requires ring != [] && p in all && forall i | 0 <= i < |ring| :: ring[i] in all
    ensures var r := InsertAfterHead(ring, p);
            |r| == |ring| + 1 && r[0] == ring[0] && r == [ring[0], p] + ring[1..]
            && forall i | 0 <= i < |r| :: r[i] in all
  {}

  lemma RemovedMembers<T>(ring: seq<T>, i: nat, all: set<T>)
    requires 0 < i < |ring| && forall k | 0 <= k < |ring| :: ring[k] in all
    ensures var r := RemoveAt(ring, i);
            |r| == |ring| - 1 && r[0] == ring[0] && r == ring[..i] + ring[i + 1..]
            && forall k | 0 <= k < |r| :: r[k] in all
  {}

  lemma BeforePickIs<T>(s: Sched<T>, r: Sched<T>, charged: map<T, TaskData>, now: nat)
    requires WellFormed(s) && AllFit(s, now) && r.ring == s.ring && r.current == s.current
    requires charged == s.tasks[s.current := AfterBurst(s, now)] && r.tasks.Keys == s.tasks.Keys
    requires forall t | t in r.tasks :: r.tasks[t] == Waited(r, t, charged[t], now)
    ensures r.tasks == BeforePick(s, now)
  {
    hide AfterBurst;
  }
}
