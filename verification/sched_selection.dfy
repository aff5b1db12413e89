/** What choosing the task of least goodness guarantees, and how the burst average behaves. */
module SchedSelection {
  import opened SchedModel

  // ------------------------------------------------------------ running extremes

  /** MinPred is a lower bound of the predictions, and one of them unless all are ULLONG_MAX. */
  lemma {:induction false} MinPredIsLeast<T>(ring: seq<T>, tasks: map<T, TaskData>, n: nat)
    requires n <= |ring| && forall i | 0 <= i < |ring| :: ring[i] in tasks
    ensures forall i | 0 < i < n :: MinPred(ring, tasks, n) <= tasks[ring[i]].nextBurstPred
    ensures MinPred(ring, tasks, n) == ULLONG_MAX || exists i | 0 < i < n :: tasks[ring[i]].nextBurstPred == MinPred(ring, tasks, n)
  {
    if n > 1 {
      MinPredIsLeast(ring, tasks, n - 1);
      assert tasks[ring[n - 1]].nextBurstPred == tasks[ring[n - 1]].nextBurstPred;
    }
  }

  /** MaxWait is an upper bound of the waiting times, and one of them if any task is queued. */
  lemma {:induction false} MaxWaitIsGreatest<T>(ring: seq<T>, tasks: map<T, TaskData>, n: nat)
    requires n <= |ring| && forall i | 0 <= i < |ring| :: ring[i] in tasks
    ensures forall i | 0 < i < n :: tasks[ring[i]].waitingInRQ <= MaxWait(ring, tasks, n)
    ensures n > 1 ==> exists i | 0 < i < n :: tasks[ring[i]].waitingInRQ == MaxWait(ring, tasks, n)
  {
    if n > 1 {
      MaxWaitIsGreatest(ring, tasks, n - 1);
      var w := tasks[ring[n - 1]].waitingInRQ;
      if w < MaxWait(ring, tasks, n - 1) {
        var i :| 0 < i < n - 1 && tasks[ring[i]].waitingInRQ == MaxWait(ring, tasks, n - 1);
        assert tasks[ring[i]].waitingInRQ == MaxWait(ring, tasks, n);
      } else {
        assert tasks[ring[n - 1]].waitingInRQ == MaxWait(ring, tasks, n);
      }
    }
  }

  lemma MinPredStep<T>(ring: seq<T>, tasks: map<T, TaskData>, n: nat)
    requires 0 < n < |ring| && forall i | 0 <= i < |ring| :: ring[i] in tasks
    ensures MinPred(ring, tasks, 1) == ULLONG_MAX && MinPred(ring, tasks, n) <= ULLONG_MAX
    ensures var m, p := MinPred(ring, tasks, n), tasks[ring[n]].nextBurstPred;
            MinPred(ring, tasks, n + 1) == if p < m then p else m
  {
    MinPredIsLeast(ring, tasks, n);
    MinPredAtMost(ring, tasks, n);
  }

  lemma {:induction false} MinPredAtMost<T>(ring: seq<T>, tasks: map<T, TaskData>, n: nat)
    requires n <= |ring| && forall i | 0 <= i < |ring| :: ring[i] in tasks
    ensures MinPred(ring, tasks, n) <= ULLONG_MAX
  {
    if n > 1 {
      MinPredAtMost(ring, tasks, n - 1);
    }
  }

  lemma MaxWaitStep<T>(ring: seq<T>, tasks: map<T, TaskData>, n: nat)
    requires 0 < n < |ring| && forall i | 0 <= i < |ring| :: ring[i] in tasks
    ensures var m, w := MaxWait(ring, tasks, n), tasks[ring[n]].waitingInRQ;
            MaxWait(ring, tasks, n + 1) == if w >= m then w else m
  {}

  lemma ExtremesOfNone<T>(ring: seq<T>, tasks: map<T, TaskData>)
    requires ring != [] && forall i | 0 <= i < |ring| :: ring[i] in tasks
    ensures MinPred(ring, tasks, 1) == ULLONG_MAX && MaxWait(ring, tasks, 1) == 0
  {}

  // ------------------------------------------------------------------- division

  lemma QuotientBounds(a: nat, b: nat)
    requires b > 0
    ensures a / b * b <= a < (a / b + 1) * b
  {}

  lemma QuotientMonotone(a: nat, b: nat, c: nat)
    requires 0 < c <= b
    ensures a / b <= a / c
  {
    QuotientBounds(a, b);
    QuotientBounds(a, c);
    if a / c < a / b {
      Monotone(a / c + 1, a / b, c, b);
      assert false;
    }
  }

  lemma Monotone(p: nat, q: nat, a: nat, b: nat)
    requires p <= q && a <= b
    ensures p * a <= q * b
  {
    assert q * b - p * a == q * (b - a) + (q - p) * a;
  }

  lemma QuotientAtLeastOne(a: nat, b: nat)
    requires 0 < b <= a
    ensures a / b >= 1
  {
    QuotientBounds(a, b);
  }

  lemma {:induction false} QuotientIsUnique(q: int, a: int, b: nat)
    requires b > 0 && q * b <= a < (q + 1) * b
    ensures a / b == q
  {
    var p := a / b;
    assert p * b <= a < (p + 1) * b;
    if p < q {
      ScaleMonotone(p + 1, q, b);
    } else if q < p {
      ScaleMonotone(q + 1, p, b);
    }
  }

  lemma ScaleMonotone(p: int, q: int, b: nat)
    requires p <= q
    ensures p * b <= q * b
  {}

  // ------------------------------------------------------- 64-bit arithmetic

  /** Sums and products are right up to a multiple of 2^64, and a difference is what has to be added to get back. */
  lemma WrapsAround(a: nat, b: nat)
    requires a <= ULLONG_MAX && b <= ULLONG_MAX
    ensures Add64(a, b) == a + b || Add64(a, b) + 0x1_0000_0000_0000_0000 == a + b
    ensures Add64(Sub64(a, b), b) == a && Sub64(Add64(a, b), b) == a
  {}

  lemma WrapIsRemainder(a: nat, q: nat, g: nat)
    requires g < 0x1_0000_0000_0000_0000 && a == q * 0x1_0000_0000_0000_0000 + g
    ensures Wrap64(a) == g
  {}

  // ------------------------------------------------------------------- goodness

  /** `q` is how often `d` goes into `n`. */
  ghost predicate IsQuotient(q: nat, n: nat, d: nat) {
    q * d <= n < (q + 1) * d
  }

  /** `g` is the product of the two whole quotients, as far as 64 bits hold it. */
  ghost predicate IsGoodness(g: nat, pred: nat, minPred: nat, maxWait: nat, wait: nat) {
    exists a: nat, b: nat ::
      && IsQuotient(a, 1 + pred, 1 + minPred)
      && IsQuotient(b, 1 + maxWait, 1 + wait)
      && g == (a * b) % 0x1_0000_0000_0000_0000
  }

  lemma GoodnessIsProduct(pred: nat, minPred: nat, maxWait: nat, wait: nat)
    ensures IsGoodness(Wrap64(Goodness(pred, minPred, maxWait, wait)), pred, minPred, maxWait, wait)
  {
    var a, b := (1 + pred) / (1 + minPred), (1 + maxWait) / (1 + wait);
    QuotientBounds(1 + pred, 1 + minPred);
    QuotientBounds(1 + maxWait, 1 + wait);
    assert IsQuotient(a, 1 + pred, 1 + minPred) && IsQuotient(b, 1 + maxWait, 1 + wait);
    assert Wrap64(Goodness(pred, minPred, maxWait, wait)) == (a * b) % 0x1_0000_0000_0000_0000;
  }

  /** Nothing else is the goodness of a task. */
  lemma GoodnessIsUnique(g: nat, pred: nat, minPred: nat, maxWait: nat, wait: nat)
    requires IsGoodness(g, pred, minPred, maxWait, wait)
    ensures g == Wrap64(Goodness(pred, minPred, maxWait, wait))
  {
    var a: nat, b: nat :| IsQuotient(a, 1 + pred, 1 + minPred) && IsQuotient(b, 1 + maxWait, 1 + wait)
                          && g == (a * b) % 0x1_0000_0000_0000_0000;
    QuotientIsUnique(a, 1 + pred, 1 + minPred);
    QuotientIsUnique(b, 1 + maxWait, 1 + wait);
  }

  /** A task at least as long and waiting at most as long as the extremes has goodness at least one. */
  lemma GoodnessPositive(pred: nat, minPred: nat, maxWait: nat, wait: nat)
    requires minPred <= pred && wait <= maxWait
    ensures Goodness(pred, minPred, maxWait, wait) >= 1
  {
    QuotientAtLeastOne(1 + pred, 1 + minPred);
    QuotientAtLeastOne(1 + maxWait, 1 + wait);
    Monotone(1, (1 + pred) / (1 + minPred), 1, (1 + maxWait) / (1 + wait));
  }

  /** No goodness of a queued task wraps around. */
  ghost predicate NoWrap<T>(ring: seq<T>, tasks: map<T, TaskData>)
    requires forall j | 0 <= j < |ring| :: ring[j] in tasks
  {
    forall i | 0 < i < |ring| ::
      Goodness(tasks[ring[i]].nextBurstPred, MinPred(ring, tasks, |ring|), MaxWait(ring, tasks, |ring|), tasks[ring[i]].waitingInRQ) <= ULLONG_MAX
  }

  /** No queued task has a prediction above `pred` or a wait above `wait`. */
  ghost predicate Within<T>(ring: seq<T>, tasks: map<T, TaskData>, pred: nat, wait: nat) {
    && (forall j | 0 <= j < |ring| :: ring[j] in tasks)
    && forall i | 0 < i < |ring| :: tasks[ring[i]].nextBurstPred <= pred && tasks[ring[i]].waitingInRQ <= wait
  }

  lemma GoodnessAtMost(pred: nat, minPred: nat, maxWait: nat, wait: nat, p: nat, w: nat)
    requires pred <= p && maxWait <= w
    ensures Goodness(pred, minPred, maxWait, wait) <= (1 + p) * (1 + w)
  {
    QuotientMonotone(1 + pred, 1 + minPred, 1);
    QuotientMonotone(1 + maxWait, 1 + wait, 1);
    Monotone((1 + pred) / (1 + minPred), 1 + p, (1 + maxWait) / (1 + wait), 1 + w);
  }

  /** Room for the product of the largest prediction and the longest wait is room for every goodness. */
  lemma WithinNeverWraps<T>(ring: seq<T>, tasks: map<T, TaskData>, pred: nat, wait: nat)
    requires Within(ring, tasks, pred, wait) && (1 + pred) * (1 + wait) <= ULLONG_MAX
    ensures NoWrap(ring, tasks)
  {
    hide Goodness, MinPred, MaxWait;
    MaxWaitIsGreatest(ring, tasks, |ring|);
    var m, w := MinPred(ring, tasks, |ring|), MaxWait(ring, tasks, |ring|);
    forall i | 0 < i < |ring| ensures Goodness(tasks[ring[i]].nextBurstPred, m, w, tasks[ring[i]].waitingInRQ) <= ULLONG_MAX {
      GoodnessAtMost(tasks[ring[i]].nextBurstPred, m, w, tasks[ring[i]].waitingInRQ, pred, wait);
    }
  }

  const HALF: nat := 0xFFFF_FFFF

  /** In particular nothing wraps while predictions and waits are below 2^32 - 1. */
  lemma SmallNeverWraps<T>(ring: seq<T>, tasks: map<T, TaskData>)
    requires Within(ring, tasks, HALF - 1, HALF - 1)
    ensures NoWrap(ring, tasks)
  {
    WithinNeverWraps(ring, tasks, HALF - 1, HALF - 1);
  }

  lemma PickInRing<T>(ring: seq<T>, tasks: map<T, TaskData>, i: nat)
    requires (forall j | 0 <= j < |ring| :: ring[j] in tasks) && IsPick(ring, tasks, i)
    ensures 0 < i < |ring|
  {}

  /** The pick is unique, and some task is picked whenever any is queued. */
  lemma PickIsUnique<T>(ring: seq<T>, tasks: map<T, TaskData>, i: nat, j: nat)
    requires forall k | 0 <= k < |ring| :: ring[k] in tasks
    requires IsPick(ring, tasks, i) && IsPick(ring, tasks, j)
    ensures i == j
  {
    hide GoodnessAt;
    assert GoodnessAt(ring, tasks, i) == GoodnessAt(ring, tasks, j);
  }

  /** Position `i` has the least goodness of positions 1 to n - 1, the last among equals. */
  ghost predicate IsPickUpTo<T>(ring: seq<T>, tasks: map<T, TaskData>, n: nat, i: nat)
    requires n <= |ring| && forall j | 0 <= j < |ring| :: ring[j] in tasks
  {
    && 0 < i < n
    && (forall j | 0 < j < n :: GoodnessAt(ring, tasks, i) <= GoodnessAt(ring, tasks, j))
    && (forall j | i < j < n :: GoodnessAt(ring, tasks, i) < GoodnessAt(ring, tasks, j))
  }

  /** The same predictions and waits. */
  ghost predicate RatedAlike<T>(ring: seq<T>, tasks: map<T, TaskData>, others: map<T, TaskData>) {
    forall i | 0 <= i < |ring| ::
      && ring[i] in tasks && ring[i] in others
      && tasks[ring[i]].nextBurstPred == others[ring[i]].nextBurstPred
      && tasks[ring[i]].waitingInRQ == others[ring[i]].waitingInRQ
  }

  lemma {:induction false} ExtremesAlike<T>(ring: seq<T>, tasks: map<T, TaskData>, others: map<T, TaskData>, n: nat)
    requires RatedAlike(ring, tasks, others) && n <= |ring|
    ensures MinPred(ring, tasks, n) == MinPred(ring, others, n) && MaxWait(ring, tasks, n) == MaxWait(ring, others, n)
  {
    if n > 1 {
      ExtremesAlike(ring, tasks, others, n - 1);
    }
  }

  /** The choice depends on predictions and waits only. */
  lemma PickAlike<T>(ring: seq<T>, tasks: map<T, TaskData>, others: map<T, TaskData>, i: nat)
    requires RatedAlike(ring, tasks, others)
    ensures IsPick(ring, tasks, i) == IsPick(ring, others, i)
  {
    hide Goodness, Wrap64, MinPred, MaxWait;
    ExtremesAlike(ring, tasks, others, |ring|);
    forall j | 0 < j < |ring| ensures GoodnessAt(ring, tasks, j) == GoodnessAt(ring, others, j) {
      GoodnessFromExtremes(ring, tasks, j);
    }
  }

  lemma GoodnessFromExtremes<T>(ring: seq<T>, tasks: map<T, TaskData>, i: nat)
    requires 0 < i < |ring| && forall j | 0 <= j < |ring| :: ring[j] in tasks
    ensures GoodnessAt(ring, tasks, i)
         == Wrap64(Goodness(tasks[ring[i]].nextBurstPred, MinPred(ring, tasks, |ring|),
                            MaxWait(ring, tasks, |ring|), tasks[ring[i]].waitingInRQ))
  {}

  lemma FirstPick<T>(ring: seq<T>, tasks: map<T, TaskData>)
    requires |ring| > 1 && forall j | 0 <= j < |ring| :: ring[j] in tasks
    ensures IsPickUpTo(ring, tasks, 2, 1)
  {}

  /** One more position: it takes over if its goodness is no greater. */
  lemma ExtendPick<T>(ring: seq<T>, tasks: map<T, TaskData>, n: nat, i: nat)
    requires (forall j | 0 <= j < |ring| :: ring[j] in tasks) && n < |ring| && IsPickUpTo(ring, tasks, n, i)
    ensures 0 < i < n
    ensures IsPickUpTo(ring, tasks, n + 1, if GoodnessAt(ring, tasks, n) <= GoodnessAt(ring, tasks, i) then n else i)
  {
    hide GoodnessAt;
  }

  lemma WholePick<T>(ring: seq<T>, tasks: map<T, TaskData>, i: nat)
    requires (forall j | 0 <= j < |ring| :: ring[j] in tasks) && IsPickUpTo(ring, tasks, |ring|, i)
    ensures IsPick(ring, tasks, i)
  {}

  /** Whenever a task besides the head is queued, one is picked. */
  lemma {:induction false} PickExists<T>(ring: seq<T>, tasks: map<T, TaskData>, n: nat) returns (i: nat)
    requires 1 < n <= |ring| && forall j | 0 <= j < |ring| :: ring[j] in tasks
    ensures IsPickUpTo(ring, tasks, n, i)
    ensures n == |ring| ==> IsPick(ring, tasks, i)
  {
    hide GoodnessAt, IsPickUpTo;
    if n == 2 {
      FirstPick(ring, tasks);
      i := 1;
    } else {
      var k := PickExists(ring, tasks, n - 1);
      ExtendPick(ring, tasks, n - 1, k);
      i := if GoodnessAt(ring, tasks, n - 1) <= GoodnessAt(ring, tasks, k) then n - 1 else k;
    }
    if n == |ring| {
      WholePick(ring, tasks, i);
    }
  }

  /** Position `x` has waited longest. */
  ghost predicate Longest<T>(ring: seq<T>, tasks: map<T, TaskData>, x: nat)
    requires forall j | 0 <= j < |ring| :: ring[j] in tasks
  {
    0 < x < |ring| && tasks[ring[x]].waitingInRQ == MaxWait(ring, tasks, |ring|)
  }

  /** With `i` picked, `x` has not waited longer, relative to `i`, than its prediction exceeds the least one. */
  ghost predicate WaitInProportion<T>(ring: seq<T>, tasks: map<T, TaskData>, i: nat, x: nat)
    requires 0 < i < |ring| && 0 < x < |ring| && forall j | 0 <= j < |ring| :: ring[j] in tasks
  {
    (1 + MaxWait(ring, tasks, |ring|)) / (1 + tasks[ring[i]].waitingInRQ)
      <= (1 + tasks[ring[x]].nextBurstPred) / (1 + MinPred(ring, tasks, |ring|))
  }

  /**
   Starvation bound: however the waits and predictions are spread, the longest waiter has not waited longer,
   relative to the task picked, than its own prediction exceeds the least one.
   */
  lemma StarvationBound<T>(ring: seq<T>, tasks: map<T, TaskData>, i: nat, x: nat)
    requires forall k | 0 <= k < |ring| :: ring[k] in tasks
    requires IsPick(ring, tasks, i) && NoWrap(ring, tasks) && Longest(ring, tasks, x)
    ensures WaitInProportion(ring, tasks, i, x)
  {
    hide MinPred, MaxWait, Goodness, Wrap64, GoodnessAt;
    var minPred, maxWait := MinPred(ring, tasks, |ring|), MaxWait(ring, tasks, |ring|);
    var s, t := tasks[ring[i]], tasks[ring[x]];
    MinPredIsLeast(ring, tasks, |ring|);
    GoodnessFromExtremes(ring, tasks, i);
    GoodnessFromExtremes(ring, tasks, x);
    NotWrapped(Goodness(s.nextBurstPred, minPred, maxWait, s.waitingInRQ));
    NotWrapped(Goodness(t.nextBurstPred, minPred, maxWait, t.waitingInRQ));
    PickedBeatsLongest(s.nextBurstPred, t.nextBurstPred, minPred, maxWait, s.waitingInRQ);
  }

  lemma NotWrapped(g: nat)
    requires g <= ULLONG_MAX
    ensures Wrap64(g) == g
  {}

  lemma PickedBeatsLongest(predS: nat, predT: nat, minPred: nat, maxWait: nat, waitS: nat)
    requires minPred <= predS
    requires Goodness(predS, minPred, maxWait, waitS) <= Goodness(predT, minPred, maxWait, maxWait)
    ensures (1 + maxWait) / (1 + waitS) <= (1 + predT) / (1 + minPred)
  {
    var q := (1 + maxWait) / (1 + waitS);
    QuotientAtLeastOne(1 + predS, 1 + minPred);
    assert (1 + maxWait) / (1 + maxWait) == 1;
    Monotone(1, (1 + predS) / (1 + minPred), q, q);
  }

  /** If the running task, which has not waited, is picked again, the longest wait is at most the longest waiter's prediction. */
  lemma RepickBound<T>(ring: seq<T>, tasks: map<T, TaskData>, i: nat, x: nat)
    requires forall k | 0 <= k < |ring| :: ring[k] in tasks
    requires IsPick(ring, tasks, i) && NoWrap(ring, tasks) && tasks[ring[i]].waitingInRQ == 0
    requires Longest(ring, tasks, x)
    ensures 1 + MaxWait(ring, tasks, |ring|) <= (1 + tasks[ring[x]].nextBurstPred) / (1 + MinPred(ring, tasks, |ring|))
    ensures MaxWait(ring, tasks, |ring|) <= tasks[ring[x]].nextBurstPred
  {
    hide MinPred, MaxWait, IsPick, NoWrap, Goodness, GoodnessAt;
    StarvationBound(ring, tasks, i, x);
    QuotientMonotone(1 + tasks[ring[x]].nextBurstPred, 1 + MinPred(ring, tasks, |ring|), 1);
  }

  /** No task at all has waited longer than the largest prediction allows against the wait of the task picked. */
  lemma PickBoundsWait<T>(ring: seq<T>, tasks: map<T, TaskData>, i: nat, j: nat, bound: nat)
    requires forall k | 0 <= k < |ring| :: ring[k] in tasks
    requires IsPick(ring, tasks, i) && NoWrap(ring, tasks)
    requires forall k | 0 < k < |ring| :: tasks[ring[k]].nextBurstPred <= bound
    requires 0 < j < |ring|
    ensures 0 < i < |ring|
    ensures 1 + tasks[ring[j]].waitingInRQ < (bound + 2) * (1 + tasks[ring[i]].waitingInRQ)
  {
    hide MinPred, MaxWait, NoWrap, Goodness, GoodnessAt;
    MaxWaitIsGreatest(ring, tasks, |ring|);
    var x :| 0 < x < |ring| && tasks[ring[x]].waitingInRQ == MaxWait(ring, tasks, |ring|);
    StarvationBound(ring, tasks, i, x);
    BoundWait(MaxWait(ring, tasks, |ring|), tasks[ring[i]].waitingInRQ, tasks[ring[x]].nextBurstPred, MinPred(ring, tasks, |ring|), bound);
  }

  lemma BoundWait(maxWait: nat, wait: nat, pred: nat, minPred: nat, bound: nat)
    requires (1 + maxWait) / (1 + wait) <= (1 + pred) / (1 + minPred) && pred <= bound
    ensures 1 + maxWait < (bound + 2) * (1 + wait)
  {
    QuotientMonotone(1 + pred, 1 + minPred, 1);
    QuotientBounds(1 + maxWait, 1 + wait);
    Monotone((1 + maxWait) / (1 + wait) + 1, bound + 2, 1 + wait, 1 + wait);
  }

  // ------------------------------------------------------------ when goodness wraps

  /** A short task that has not waited, one that has waited for `wait`, and a long one that just ran. */
  const StarvingRing: seq<nat> := [0, 1, 2, 3]

  function StarvingTasks(wait: nat, waiterPred: nat, pred: nat): map<nat, TaskData> {
    map[0 := NewTask, 1 := NewTask,
        2 := TaskData(0, waiterPred, 0, wait, 0, 0),
        3 := TaskData(0, pred, 0, 0, 0, 0)]
  }

  lemma StarvingExtremes(wait: nat, waiterPred: nat, pred: nat)
    ensures var tasks := StarvingTasks(wait, waiterPred, pred);
            MinPred(StarvingRing, tasks, 4) == 0 && MaxWait(StarvingRing, tasks, 4) == wait
  {
    var tasks := StarvingTasks(wait, waiterPred, pred);
    assert MinPred(StarvingRing, tasks, 1) == ULLONG_MAX && MinPred(StarvingRing, tasks, 2) == 0 && MinPred(StarvingRing, tasks, 3) == 0;
    assert MaxWait(StarvingRing, tasks, 1) == 0 && MaxWait(StarvingRing, tasks, 2) == 0 && MaxWait(StarvingRing, tasks, 3) == wait;
  }

  /** What is left of a product after it wrapped once. */
  lemma WrappedOnce(g: nat)
    requires g <= ULLONG_MAX
    ensures Wrap64(g + ULLONG_MAX + 1) == g
  {}

  /** If the product wraps to no more than the waiter's goodness, the task that just ran is picked again. */
  lemma WrappedProductStarves(wait: nat, waiterPred: nat, pred: nat)
    requires waiterPred < wait < ULLONG_MAX
    requires ULLONG_MAX < (1 + pred) * (1 + wait) <= ULLONG_MAX + 2 + waiterPred
    ensures var tasks := StarvingTasks(wait, waiterPred, pred);
            IsPick(StarvingRing, tasks, 3) && Longest(StarvingRing, tasks, 2) && !WaitInProportion(StarvingRing, tasks, 3, 2)
            && !NoWrap(StarvingRing, tasks)
  {
    hide MinPred, MaxWait, Wrap64;
    var tasks := StarvingTasks(wait, waiterPred, pred);
    StarvingExtremes(wait, waiterPred, pred);
    assert Goodness(0, 0, wait, 0) == 1 + wait;
    assert Goodness(waiterPred, 0, wait, wait) == 1 + waiterPred;
    assert Goodness(pred, 0, wait, 0) == (1 + pred) * (1 + wait);
    NotWrapped(1 + wait);
    NotWrapped(1 + waiterPred);
    WrappedOnce((1 + pred) * (1 + wait) - ULLONG_MAX - 1);
    assert GoodnessAt(StarvingRing, tasks, 1) == 1 + wait;
    assert GoodnessAt(StarvingRing, tasks, 2) == 1 + waiterPred;
    assert GoodnessAt(StarvingRing, tasks, 3) <= 1 + waiterPred;
  }

  /** With 2^32 - 1 for both, the product wraps to 0, and the task that just ran is picked again. */
  lemma WrapBreaksBound()
    ensures var tasks := StarvingTasks(HALF, 0, HALF);
            IsPick(StarvingRing, tasks, 3) && Longest(StarvingRing, tasks, 2) && !WaitInProportion(StarvingRing, tasks, 3, 2)
  {
    WrappedProductStarves(HALF, 0, HALF);
  }

  /** The least factor that takes a product with `x` beyond 64 bits overshoots by less than `x`. */
  lemma LeastWrappingFactor(x: nat, limit: nat) returns (y: nat)
    requires x > 0 && x * limit > ULLONG_MAX
    ensures y <= limit && ULLONG_MAX < x * y <= ULLONG_MAX + x
  {
    y := (ULLONG_MAX + x) / x;
    QuotientBounds(ULLONG_MAX + x, x);
    assert x * y == y * x;
    assert x * y > ULLONG_MAX by {
      assert (y + 1) * x == y * x + x;
    }
    assert (limit + 1) * x == x * limit + x;
    if y > limit {
      Monotone(limit + 1, y, x, x);
      assert false;
    }
  }

  /** Whenever the product of the limits has no room, values within them starve a task. */
  lemma WrapWitness(pred: nat, wait: nat) returns (p: nat, q: nat, w: nat)
    requires pred < ULLONG_MAX && wait < ULLONG_MAX && (1 + pred) * (1 + wait) > ULLONG_MAX
    ensures p <= pred && q <= pred && q < w <= wait
    ensures ULLONG_MAX < (1 + p) * (1 + w) <= ULLONG_MAX + 2 + q
  {
    if pred >= HALF && wait >= HALF {
      p, q, w := HALF, 0, HALF;
    } else if pred < HALF {
      var y := LeastWrappingFactor(1 + pred, 1 + wait);
      if y <= 1 + pred {
        Monotone(1 + pred, HALF, y, HALF);
        assert false;
      }
      p, w := pred, y - 1;
      q := if (1 + p) * y >= ULLONG_MAX + 2 then (1 + p) * y - ULLONG_MAX - 2 else 0;
    } else {
      assert (1 + wait) * (1 + pred) == (1 + pred) * (1 + wait);
      var y := LeastWrappingFactor(1 + wait, 1 + pred);
      p, w := y - 1, wait;
      assert (1 + p) * (1 + w) == (1 + wait) * y;
      q := if (1 + wait) * y >= ULLONG_MAX + 2 then (1 + wait) * y - ULLONG_MAX - 2 else 0;
    }
  }

  /** Every pick keeps the longest wait in proportion. */
  ghost predicate NeverStarves<T>(ring: seq<T>, tasks: map<T, TaskData>)
    requires forall j | 0 <= j < |ring| :: ring[j] in tasks
  {
    forall i: nat, x: nat | IsPick(ring, tasks, i) && Longest(ring, tasks, x) :: WaitInProportion(ring, tasks, i, x)
  }

  /**
   Whatever the queue, with predictions up to `pred` and waits up to `wait` no goodness wraps, and the starvation
   bound holds, exactly if the product of the two has room in 64 bits.
   */
  lemma BoundHoldsExactly(pred: nat, wait: nat)
    requires pred < ULLONG_MAX && wait < ULLONG_MAX
    ensures (forall ring: seq<nat>, tasks: map<nat, TaskData> | Within(ring, tasks, pred, wait) :: NoWrap(ring, tasks))
            <==> (1 + pred) * (1 + wait) <= ULLONG_MAX
    ensures (forall ring: seq<nat>, tasks: map<nat, TaskData> | Within(ring, tasks, pred, wait) :: NeverStarves(ring, tasks))
            <==> (1 + pred) * (1 + wait) <= ULLONG_MAX
  {
    hide GoodnessAt, MinPred, MaxWait, NoWrap, WaitInProportion;
    if (1 + pred) * (1 + wait) <= ULLONG_MAX {
      forall ring: seq<nat>, tasks: map<nat, TaskData> | Within(ring, tasks, pred, wait)
        ensures NoWrap(ring, tasks) && NeverStarves(ring, tasks)
      {
        WithinNeverWraps(ring, tasks, pred, wait);
        forall i: nat, x: nat | IsPick(ring, tasks, i) && Longest(ring, tasks, x) ensures WaitInProportion(ring, tasks, i, x) {
          StarvationBound(ring, tasks, i, x);
        }
      }
    } else {
      var p, q, w := WrapWitness(pred, wait);
      WrappedProductStarves(w, q, p);
      assert Within(StarvingRing, StarvingTasks(w, q, p), pred, wait);
      assert !NeverStarves(StarvingRing, StarvingTasks(w, q, p));
    }
  }

  // --------------------------------------------------------------- burst average

  /** A prediction moves towards the burst and never past it. */
  lemma AverageBetween(last: nat, pred: nat)
    ensures last <= pred ==> last <= Average(last, pred) <= pred
    ensures pred <= last ==> pred <= Average(last, pred) <= last
  {}

  /** Two thirds of the burst and one third of the old prediction, rounded down. */
  lemma AverageRounds(last: nat, pred: nat)
    ensures 3 * Average(last, pred) <= 2 * last + pred < 3 * Average(last, pred) + 3
    ensures Average(last, pred) == last + (pred - last) / 3
  {}

  /** The prediction after `n` committed averages with bursts of the same length. */
  function Averaged(last: nat, pred: nat, n: nat): nat {
    if n == 0 then pred else Average(last, Averaged(last, pred, n - 1))
  }

  function Distance(a: nat, b: nat): nat {
    if a >= b then a - b else b - a
  }

  function Pow3(n: nat): nat {
    if n == 0 then 1 else 3 * Pow3(n - 1)
  }

  /** Every average divides the error by three, up to rounding and no faster. */
  lemma AverageContracts(last: nat, pred: nat)
    ensures Distance(pred, last) - 2 <= 3 * Distance(Average(last, pred), last) <= Distance(pred, last) + 2
  {}

  lemma {:induction false} Pow3Product(m: nat, n: nat)
    ensures Pow3(m + n) == Pow3(m) * Pow3(n) && Pow3(n) >= 1
    ensures Pow3(1) == 3
  {
    if n > 0 {
      Pow3Product(m, n - 1);
      assert Pow3(m + n) == 3 * Pow3(m + n - 1);
      assert Pow3(m) * (3 * Pow3(n - 1)) == 3 * (Pow3(m) * Pow3(n - 1));
    }
  }

  lemma DistanceIsGap(a: nat, b: nat)
    ensures Distance(a, b) == Distance(b, a) && (a <= b ==> a + Distance(a, b) == b)
  {}

  /** Dividing by `a` and then by three is dividing by three times `a`. */
  lemma DivideTwice(x: int, a: nat)
    requires a > 0
    ensures (x / a) / 3 == x / (3 * a)
  {
    var q := x / a;
    assert q * a <= x < (q + 1) * a;
    var p := q / 3;
    assert p * (3 * a) == (3 * p) * a && (p + 1) * (3 * a) == (3 * p + 3) * a;
    ScaleMonotone(3 * p, q, a);
    ScaleMonotone(q + 1, 3 * p + 3, a);
    QuotientIsUnique(p, x, 3 * a);
  }

  /** Averaging `n` times leaves exactly the initial error divided by 3 to the n, rounded down. */
  lemma {:induction false} AveragedExactly(last: nat, pred: nat, n: nat)
    ensures Pow3(n) > 0
    ensures Averaged(last, pred, n) == last + (pred - last) / Pow3(n)
  {
    hide Average;
    Pow3Product(0, n);
    if n > 0 {
      AveragedExactly(last, pred, n - 1);
      AverageRounds(last, Averaged(last, pred, n - 1));
      DivideTwice(pred - last, Pow3(n - 1));
    }
  }

  lemma {:induction false} AveragesConverge(last: nat, pred: nat, n: nat)
    ensures Pow3(n) * (Distance(Averaged(last, pred, n), last) - 1) <= Distance(pred, last) - 1
    ensures Pow3(n) >= Distance(pred, last) ==> Distance(Averaged(last, pred, n), last) <= 1
  {
    hide Average, Distance;
    if n > 0 {
      var p := Averaged(last, pred, n - 1);
      AveragesConverge(last, pred, n - 1);
      AverageContracts(last, p);
      PowerStep(Pow3(n - 1), Distance(p, last) - 1, Distance(Average(last, p), last) - 1, Distance(pred, last) - 1);
    } else {
      assert Pow3(0) * (Distance(pred, last) - 1) == Distance(pred, last) - 1;
    }
    PowerBound(Pow3(n), Distance(Averaged(last, pred, n), last), Distance(pred, last));
  }

  lemma PowerStep(p: nat, e: int, f: int, d: int)
    requires p * e <= d && 3 * f <= e
    ensures 3 * p * f <= d
  {
    ScaleLe(p, 3 * f, e);
    assert 3 * p * f == p * (3 * f);
  }

  lemma ScaleLe(p: nat, a: int, b: int)
    requires a <= b
    ensures p * a <= p * b
  {}

  lemma PowerBound(p: nat, e: nat, d: nat)
    requires p * (e - 1) <= d - 1
    ensures p >= d ==> e <= 1
  {
    if p >= d && e > 1 {
      ScaleLe(p, 1, e - 1);
    }
  }
}
