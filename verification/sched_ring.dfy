/** A circular doubly linked ring as a value: the link maps of its members, and what linking in and out does. */
module SchedRing {
  import opened SchedModel

  function Succ(i: nat, n: nat): nat {
    if i + 1 < n then i + 1 else 0
  }

  function Pred(i: nat, n: nat): nat
    requires n > 0
  {
    if i > 0 then i - 1 else n - 1
  }

  ghost predicate NextOk<T>(ring: seq<T>, next: map<T, T>) {
    && (forall i | 0 <= i < |ring| :: ring[i] in next)
    && (forall i {:trigger next[ring[i]]} | 0 <= i < |ring| :: next[ring[i]] == ring[Succ(i, |ring|)])
  }

  ghost predicate PrevOk<T>(ring: seq<T>, prev: map<T, T>) {
    && (forall i | 0 <= i < |ring| :: ring[i] in prev)
    && (forall i {:trigger prev[ring[i]]} | 0 <= i < |ring| :: prev[ring[i]] == ring[Pred(i, |ring|)])
  }

  /** A task off the ring has no links; `none` stands for the null pointer. */
  ghost predicate OffOk<T>(ring: seq<T>, link: map<T, T>, none: T) {
    forall t | t in link && t !in ring :: link[t] == none
  }

  /** The links of every member of the ring lead to its two neighbours. */
  ghost predicate RingOf<T>(ring: seq<T>, next: map<T, T>, prev: map<T, T>, none: T) {
    && ring != [] && Distinct(ring)
    && NextOk(ring, next) && PrevOk(ring, prev)
    && OffOk(ring, next, none) && OffOk(ring, prev, none)
  }

  lemma RingShape<T>(ring: seq<T>, next: map<T, T>, prev: map<T, T>, none: T)
    requires RingOf(ring, next, prev, none)
    ensures ring != [] && Distinct(ring)
  {}

  /** A new task without links does not touch the ring. */
  lemma NewOffRing<T>(ring: seq<T>, next: map<T, T>, prev: map<T, T>, none: T, p: T)
    requires RingOf(ring, next, prev, none) && p !in next && p !in prev
    ensures RingOf(ring, next[p := none], prev[p := none], none)
  {}

  /** The links are inverse to each other. */
  lemma LinksInverse<T>(ring: seq<T>, next: map<T, T>, prev: map<T, T>, none: T, t: T)
    requires RingOf(ring, next, prev, none) && t in ring
    ensures next[t] in ring && prev[next[t]] == t
    ensures prev[t] in ring && next[prev[t]] == t
  {
    hide NextOk, PrevOk, Distinct, OffOk;
    var i :| 0 <= i < |ring| && ring[i] == t;
    var n := |ring|;
    assert Pred(Succ(i, n), n) == i && Succ(Pred(i, n), n) == i;
    NextAt(ring, next, i);
    PrevAt(ring, prev, Succ(i, n));
    PrevAt(ring, prev, i);
    NextAt(ring, next, Pred(i, n));
  }

  ghost function InsertAfterHead<T>(ring: seq<T>, p: T): seq<T>
    requires ring != []
  {
    [ring[0], p] + ring[1..]
  }

  lemma InsertedAt<T>(ring: seq<T>, p: T, i: nat)
    requires ring != [] && i <= |ring|
    ensures InsertAfterHead(ring, p)[i] == if i == 0 then ring[0] else if i == 1 then p else ring[i - 1]
  {}

  lemma LinkInNext<T>(ring: seq<T>, next: map<T, T>, p: T)
    requires ring != [] && Distinct(ring) && NextOk(ring, next) && p !in ring
    ensures ring[0] in next && NextOk(InsertAfterHead(ring, p), next[p := next[ring[0]]][ring[0] := p])
  {
    var r, n := InsertAfterHead(ring, p), |ring|;
    assert next[ring[0]] == ring[Succ(0, n)];
    var nx := next[p := next[ring[0]]][ring[0] := p];
    forall i: nat | i <= n ensures r[i] in nx && nx[r[i]] == r[Succ(i, n + 1)] {
      hide InsertAfterHead;
      InsertedAt(ring, p, i);
      InsertedAt(ring, p, Succ(i, n + 1));
      if i >= 2 {
        assert ring[i - 1] != ring[0] && next[ring[i - 1]] == ring[Succ(i - 1, n)];
      }
    }
  }

  lemma LinkInPrev<T>(ring: seq<T>, prev: map<T, T>, p: T)
    requires ring != [] && Distinct(ring) && PrevOk(ring, prev) && p !in ring
    ensures PrevOk(InsertAfterHead(ring, p), prev[p := ring[0]][ring[Succ(0, |ring|)] := p])
  {
    var r, n := InsertAfterHead(ring, p), |ring|;
    var second := ring[Succ(0, n)];
    var pv := prev[p := ring[0]][second := p];
    forall i: nat | i <= n ensures r[i] in pv && pv[r[i]] == r[Pred(i, n + 1)] {
      hide InsertAfterHead;
      InsertedAt(ring, p, i);
      InsertedAt(ring, p, Pred(i, n + 1));
      if i >= 2 {
        assert prev[ring[i - 1]] == ring[Pred(i - 1, n)];
      }
      assert prev[ring[0]] == ring[Pred(0, n)];
    }
  }

  lemma InsertDistinct<T>(ring: seq<T>, p: T)
    requires ring != [] && Distinct(ring) && p !in ring
    ensures Distinct(InsertAfterHead(ring, p))
    ensures forall t :: t in InsertAfterHead(ring, p) <==> t in ring || t == p
  {
    assert ring == [ring[0]] + ring[1..];
  }

  /** Linking a task in after the head makes it the second of the ring and leaves the others in order. */
  lemma LinkIn<T>(ring: seq<T>, next: map<T, T>, prev: map<T, T>, none: T, p: T)
    requires RingOf(ring, next, prev, none) && p !in ring
    ensures var head := ring[0];
            head in next &&
            var second := next[head];
            RingOf(InsertAfterHead(ring, p), next[p := second][head := p], prev[p := head][second := p], none)
  {
    hide InsertAfterHead, Distinct, NextOk, PrevOk;
    InsertDistinct(ring, p);
    LinkInNext(ring, next, p);
    LinkInPrev(ring, prev, p);
    NextAt(ring, next, 0);
    assert ring[0] in ring && ring[Succ(0, |ring|)] in ring;
  }

  lemma NextAt<T>(ring: seq<T>, next: map<T, T>, i: nat)
    requires NextOk(ring, next) && i < |ring|
    ensures ring[i] in next && next[ring[i]] == ring[Succ(i, |ring|)]
  {}

  lemma PrevAt<T>(ring: seq<T>, prev: map<T, T>, i: nat)
    requires PrevOk(ring, prev) && i < |ring|
    ensures ring[i] in prev && prev[ring[i]] == ring[Pred(i, |ring|)]
  {}

  ghost function RemoveAt<T>(ring: seq<T>, i: nat): seq<T>
    requires i < |ring|
  {
    ring[..i] + ring[i + 1..]
  }

  lemma RemovedAt<T>(ring: seq<T>, i: nat, k: nat)
    requires i < |ring| && k < |ring| - 1
    ensures RemoveAt(ring, i)[k] == ring[if k < i then k else k + 1]
  {}

  lemma RemoveDistinct<T>(ring: seq<T>, i: nat)
    requires i < |ring| && Distinct(ring)
    ensures Distinct(RemoveAt(ring, i)) && |RemoveAt(ring, i)| == |ring| - 1
    ensures forall t :: t in RemoveAt(ring, i) <==> t in ring && t != ring[i]
  {
    forall t | t in ring && t != ring[i] ensures t in RemoveAt(ring, i) {
      var k :| 0 <= k < |ring| && ring[k] == t;
      assert RemoveAt(ring, i)[if k < i then k else k - 1] == t;
    }
  }

  lemma LinkOutNext<T>(ring: seq<T>, next: map<T, T>, none: T, i: nat)
    requires Distinct(ring) && NextOk(ring, next) && 0 < i < |ring|
    ensures NextOk(RemoveAt(ring, i), next[ring[i - 1] := next[ring[i]]][ring[i] := none])
  {
    var r, n := RemoveAt(ring, i), |ring|;
    NextAt(ring, next, i);
    var nx := next[ring[i - 1] := next[ring[i]]][ring[i] := none];
    forall k: nat | k < n - 1 ensures r[k] in nx && nx[r[k]] == r[Succ(k, n - 1)] {
      hide RemoveAt;
      RemovedAt(ring, i, k);
      RemovedAt(ring, i, Succ(k, n - 1));
      var j := if k < i then k else k + 1;
      assert ring[j] != ring[i] && (j != i - 1 ==> ring[j] != ring[i - 1]);
      assert next[ring[j]] == ring[Succ(j, n)];
    }
  }

  lemma LinkOutPrev<T>(ring: seq<T>, prev: map<T, T>, none: T, i: nat)
    requires Distinct(ring) && PrevOk(ring, prev) && 0 < i < |ring|
    ensures PrevOk(RemoveAt(ring, i), prev[ring[Succ(i, |ring|)] := ring[i - 1]][ring[i] := none])
  {
    var r, n := RemoveAt(ring, i), |ring|;
    var after := ring[Succ(i, n)];
    var pv := prev[after := ring[i - 1]][ring[i] := none];
    forall k: nat | k < n - 1 ensures r[k] in pv && pv[r[k]] == r[Pred(k, n - 1)] {
      hide RemoveAt, PrevOk, Distinct;
      var q := Pred(k, n - 1);
      RemovedAt(ring, i, k);
      RemovedAt(ring, i, q);
      var j, before := if k < i then k else k + 1, if q < i then q else q + 1;
      assert if j == Succ(i, n) then before == i - 1 else before == Pred(j, n);
      DistinctAt(ring, j, i);
      DistinctAt(ring, j, Succ(i, n));
      PrevAt(ring, prev, j);
    }
  }

  lemma DistinctAt<T>(ring: seq<T>, i: nat, j: nat)
    requires Distinct(ring) && i < |ring| && j < |ring|
    ensures ring[i] == ring[j] <==> i == j
  {}

  /** Linking a task out closes the gap and leaves it without links. */
  lemma LinkOut<T>(ring: seq<T>, next: map<T, T>, prev: map<T, T>, none: T, i: nat)
    requires RingOf(ring, next, prev, none) && 0 < i < |ring|
    ensures var p := ring[i];
            && p in prev && p in next
            && prev[p] in next && next[p] in prev
            && var before, after := prev[p], next[p];
               RingOf(RemoveAt(ring, i), next[before := after][p := none], prev[after := before][p := none], none)
  {
    hide RemoveAt, Distinct, NextOk, PrevOk;
    RemoveDistinct(ring, i);
    NextAt(ring, next, i - 1);
    PrevAt(ring, prev, Succ(i, |ring|));
    NextAt(ring, next, i);
    PrevAt(ring, prev, i);
    LinkOutNext(ring, next, none, i);
    LinkOutPrev(ring, prev, none, i);
    RemovedAt(ring, i, 0);
    assert ring[i - 1] in ring && ring[Succ(i, |ring|)] in ring;
  }
}
