/**
 What overwriting a block leaks. bb_write counts the pointer it writes but never takes back the one it replaces:
 over any run every counter exceeds the pointers to its block by exactly the number of pointers replaced.
 */
module DedupLeaks {
  import opened DedupModel
  import opened DedupProperties
  import opened DedupSharing
  import opened DedupRuns

  // --------------------------------------------------------------- what overwriting leaks

  /** How often the operations replace a pointer to block `id` by another. */
  ghost function Replaced(s: Store, hash: string -> string, ops: seq<Op>, id: nat): nat
    requires Consistent(s, hash) && Runs(s, hash, ops)
    decreases |ops|
  {
    if ops == [] then 0
    else
      StepRefines(s, hash, ops[0]);
      (if Replaces(s, ops[0], id) then 1 else 0) + Replaced(Exec(s, hash, ops[0]), hash, ops[1..], id)
  }

  /** The operation writes to a slot that holds block `id`. */
  ghost predicate Replaces(s: Store, op: Op, id: nat) {
    && op.WriteAt? && op.path in s.files
    && var k := op.offset / BLOCK_SIZE; k < |s.files[op.path]| && s.files[op.path][k] == id
  }

  lemma StepExcess(s: Store, hash: string -> string, op: Op, id: nat)
    requires Consistent(s, hash) && Permitted(s, hash, op) && id > 0
    requires op.WriteAt? ==> op.path in s.files && SlotOf(op.offset) <= |s.files[op.path]|
    requires op.Remove? && op.path in s.files ==> Known(s.table, s.files[op.path])
    ensures Excess(Exec(s, hash, op), id) == Excess(s, id) + if Replaces(s, op, id) then 1 else 0
  {
    hide Inv, Room, NoCollision, WriteSlot, DropAll, AllWhole, Occurrences;
    match op
    case Create(p) =>
      if p !in s.files {
        OccurrencesCreate(s.files, p, id);
      }
    case WriteAt(p, offset, data) =>
      var k := offset / BLOCK_SIZE;
      assert offset == BLOCK_SIZE * k;
      SlotOfBlock(k);
      WriteExcess(s, hash, p, k, data, id);
    case Remove(p) =>
      if p in s.files {
        UnlinkExcess(s, hash, p, id);
      }
  }

  /** Over any run, a counter gains on the pointers to its block exactly once for every pointer that was replaced. */
  lemma {:induction false} RunsExcess(s: Store, hash: string -> string, ops: seq<Op>, id: nat)
    requires Consistent(s, hash) && Runs(s, hash, ops) && id > 0
    ensures Excess(ExecAll(s, hash, ops), id) == Excess(s, id) + Replaced(s, hash, ops, id)
    decreases |ops|
  {
    hide Consistent, Permitted, Exec, Excess, Replaces;
    if ops != [] {
      StepRefines(s, hash, ops[0]);
      StepExcess(s, hash, ops[0], id);
      RunsExcess(Exec(s, hash, ops[0]), hash, ops[1..], id);
    }
  }

  /** A write to a slot that exists replaces the id that the slot holds. */
  lemma OverwriteReplaces(s: Store, hash: string -> string, op: Op)
    requires Consistent(s, hash) && Permitted(s, hash, op)
    ensures Appends(s, op) || exists id: nat :: 0 < id <= |s.table| && Replaces(s, op, id)
  {
    hide Inv, Room, NoCollision;
    if !Appends(s, op) {
      var k := op.offset / BLOCK_SIZE;
      assert op.offset == BLOCK_SIZE * k && k < |s.files[op.path]|;
      ReachableBlocksExist(s, hash, op.path, k);
      assert Replaces(s, op, s.files[op.path][k]);
    }
  }

  /** From exact counters, a run ends with exact counters if and only if none of its operations replaces a block. */
  lemma {:induction false} RunsExactIffAppends(s: Store, hash: string -> string, ops: seq<Op>)
    requires Consistent(s, hash) && Runs(s, hash, ops) && Exact(s)
    ensures Exact(ExecAll(s, hash, ops)) <==> RunAppends(s, hash, ops)
    decreases |ops|
  {
    hide Consistent, Permitted, Exec, Exact, Excess, Appends, Replaces;
    if ops != [] {
      StepRefines(s, hash, ops[0]);
      var mid := Exec(s, hash, ops[0]);
      if Appends(s, ops[0]) {
        StepKeepsExact(s, hash, ops[0]);
        RunsExactIffAppends(mid, hash, ops[1..]);
      } else {
        OverwriteReplaces(s, hash, ops[0]);
        var id: nat :| 0 < id <= |s.table| && Replaces(s, ops[0], id);
        ExactIsNoExcess(s);
        RunsExcess(s, hash, ops, id);
        TableGrows(s, hash, ops);
        ExactIsNoExcess(ExecAll(s, hash, ops));
      }
    }
  }

  lemma TableGrows(s: Store, hash: string -> string, ops: seq<Op>)
    requires Consistent(s, hash) && Runs(s, hash, ops)
    ensures |s.table| <= |ExecAll(s, hash, ops).table|
  {
    IdsNeverReused(s, hash, ops);
  }

  /** A block that is counted once too often is never removed again in the mount, not even when no file names it any more. */
  lemma LeakedBlocksStay(s: Store, hash: string -> string, ops: seq<Op>, id: nat)
    requires Consistent(s, hash) && Runs(s, hash, ops) && id in s.blocks && Excess(s, id) > 0
    ensures var r := ExecAll(s, hash, ops); id in r.blocks && r.blocks[id] == s.blocks[id]
  {
    hide Occurrences, Exec, Permitted;
    assert Live(s.table, id);
    RunsExcess(s, hash, ops, id);
    IdsNeverReused(s, hash, ops);
    RunsRefine(s, hash, ops);
    assert Live(ExecAll(s, hash, ops).table, id);
  }

  // ----------------------------------------------------------------- rewriting a block

  /** Writing to slot `k` of a path what it holds already. */
  ghost function Rewrite(s: Store, p: Path, k: nat): Op
    requires p in s.files && k < |s.files[p]| && s.files[p][k] in s.blocks
  {
    WriteAt(p, BLOCK_SIZE * k, s.blocks[s.files[p][k]])
  }

  function Times(op: Op, n: nat): seq<Op> {
    if n == 0 then [] else [op] + Times(op, n - 1)
  }

  /** The store with the counter of block `id` `n` up. */
  ghost function Recounted(s: Store, id: nat, n: nat): Store
    requires 0 < id <= |s.table|
  {
    s.(table := s.table[id - 1 := s.table[id - 1].(counter := s.table[id - 1].counter + n)])
  }

  lemma LookupOfLive(s: Store, hash: string -> string, id: nat)
    requires Inv(s, hash) && Live(s.table, id)
    ensures Lookup(s.table, s.table[id - 1].hash) == id
  {
    hide Occurrences;
    FirstLiveIsFirst(s.table, s.table[id - 1].hash, 0);
  }

  /** Rewriting a block with what it holds changes its counter only, and needs room for that. */
  lemma RewriteStep(s: Store, hash: string -> string, p: Path, k: nat)
    requires Consistent(s, hash) && p in s.files && k < |s.files[p]| && k <= 150
    ensures 0 < s.files[p][k] <= |s.table| && s.files[p][k] in s.blocks
    ensures s.table[s.files[p][k] - 1].counter <= 99
    ensures Permitted(s, hash, Rewrite(s, p, k)) <==> s.table[s.files[p][k] - 1].counter < 99
    ensures SlotOf(BLOCK_SIZE * k) == k
    ensures Exec(s, hash, Rewrite(s, p, k)) == Recounted(s, s.files[p][k], 1)
  {
    hide Occurrences;
    ReachableBlocksExist(s, hash, p, k);
    var id := s.files[p][k];
    LookupOfLive(s, hash, id);
    SlotOfBlock(k);
    assert Contents(s.blocks, s.files[p])[k] == s.blocks[id];
    assert s.files[p][k := id] == s.files[p];
    assert s.files[p := s.files[p]] == s.files;
  }

  /**
   Rewriting one block with the data it holds can be repeated until its counter is 99 and not once more; all it does
   is to count pointers that do not exist.
   */
  lemma {:induction false} RewritesLeak(s: Store, hash: string -> string, p: Path, k: nat, n: nat)
    requires Consistent(s, hash) && p in s.files && k < |s.files[p]| && k <= 150
    ensures 0 < s.files[p][k] <= |s.table| && s.files[p][k] in s.blocks
    ensures Runs(s, hash, Times(Rewrite(s, p, k), n)) <==> s.table[s.files[p][k] - 1].counter + n <= 99
    ensures Runs(s, hash, Times(Rewrite(s, p, k), n)) ==>
              ExecAll(s, hash, Times(Rewrite(s, p, k), n)) == Recounted(s, s.files[p][k], n)
    decreases n
  {
    hide Consistent, Permitted, Exec;
    RewriteStep(s, hash, p, k);
    var op, id := Rewrite(s, p, k), s.files[p][k];
    if n > 0 {
      assert Times(op, n)[0] == op && Times(op, n)[1..] == Times(op, n - 1);
    }
    if n > 0 && s.table[id - 1].counter < 99 {
      StepRefines(s, hash, op);
      var mid := Recounted(s, id, 1);
      assert Rewrite(mid, p, k) == op;
      RewritesLeak(mid, hash, p, k, n - 1);
      assert Recounted(mid, id, n - 1) == Recounted(s, id, n);
    }
  }
}
