/**
 Runs of the store against a plain file system, a map from paths to bytes where a write overwrites
 bytes at an offset. Over every run of permitted operations the store reads back like the plain one.
 */
module DedupRuns {
  import opened DedupText
  import opened DedupTable
  import opened DedupModel
  import opened DedupProperties
  import opened DedupSharing

  const BLOCK_SIZE: nat := 4096    // what our_lib.c calls MAX_BLOCK_SIZE
  const SLOT_DIVISOR: nat := 4069  // what bbfs.c calls MAX_BLOCK_SIZE

  /** The pointer slot that bb_write computes for a byte offset. */
  function SlotOf(offset: nat): nat {
    offset / SLOT_DIVISOR
  }

  /** The divisor is not the block size, so the slot of block `k` is `k` for exactly the first 151 blocks. */
  lemma SlotOfBlock(k: nat)
    ensures SlotOf(BLOCK_SIZE * k) == k <==> k <= 150
    ensures SlotOf(BLOCK_SIZE * k) >= k
  {}

  /** Slot `k` is written for the 4069 bytes from 4069 * k on, wherever the blocks of the file begin. */
  lemma SlotOfOffset(offset: nat, k: nat)
    ensures SlotOf(offset) == k <==> 4069 * k <= offset < 4069 * (k + 1)
  {}

  /** Appending block 151 would skip a slot. */
  lemma SlotSkipped()
    ensures SlotOf(BLOCK_SIZE * 151) == 152
  {}

  lemma {:induction false} IdsHaveNoNul(ids: seq<nat>)
    ensures NoNul(EncodeIds(ids))
  {
    if ids != [] {
      IdsHaveNoNul(ids[..|ids| - 1]);
      PaddedDigits(ids[|ids| - 1], ID_LENGTH);
    }
  }

  /** An id written beyond the next slot leaves zero bytes in the pointer file, which is then no list of ids any more. */
  lemma GapIsNoId(ids: seq<nat>, slot: nat, id: nat)
    requires IdsOk(ids) && slot > |ids|
    ensures var data := Overwrite(EncodeIds(ids), ID_LENGTH * slot, Padded(id, ID_LENGTH));
            NUL in data && forall other: seq<nat> :: EncodeIds(other) != data
  {
    hide EncodeIds, Padded;
    IdsLength(ids);
    var data := Overwrite(EncodeIds(ids), ID_LENGTH * slot, Padded(id, ID_LENGTH));
    assert data[|EncodeIds(ids)|] == NUL;
    forall other: seq<nat> ensures EncodeIds(other) != data {
      IdsHaveNoNul(other);
    }
  }

  /** Appending a block leaves a list of ids in the pointer file exactly for the first 151 blocks. */
  lemma AppendKeepsIds(ids: seq<nat>, id: nat)
    requires IdsOk(ids) && id <= 999
    ensures (exists other: seq<nat> ::
               EncodeIds(other) == Overwrite(EncodeIds(ids), ID_LENGTH * SlotOf(BLOCK_SIZE * |ids|), Padded(id, ID_LENGTH)))
            <==> |ids| <= 150
  {
    hide EncodeIds, Padded, Overwrite, SlotOf;
    SlotOfBlock(|ids|);
    if |ids| <= 150 {
      IdsSet(ids, |ids|, id);
    } else {
      GapIsNoId(ids, SlotOf(BLOCK_SIZE * |ids|), id);
    }
  }

  datatype Op =
    | Create(path: Path)
    | WriteAt(path: Path, offset: nat, data: string)
    | Remove(path: Path)

  // ----------------------------------------------------------- the two systems

  function Exec(s: Store, hash: string -> string, op: Op): Store
    requires op.WriteAt? ==> op.path in s.files && SlotOf(op.offset) <= |s.files[op.path]|
    requires op.Remove? && op.path in s.files ==> Known(s.table, s.files[op.path])
  {
    match op
    case Create(p) => if p in s.files then s else s.(files := s.files[p := []])
    case WriteAt(p, offset, data) => WriteSlot(s, hash(data), p, SlotOf(offset), data)
    case Remove(p) => Unlink(s, p)
  }

  type Plain = map<Path, string>

  function PlainExec(m: Plain, op: Op): Plain
    requires op.WriteAt? ==> op.path in m
  {
    match op
    case Create(p) => if p in m then m else m[p := ""]
    case WriteAt(p, offset, data) => m[p := Overwrite(m[p], offset, data)]
    case Remove(p) => m - {p}
  }

  /**
   What a caller checks before a write: the path exists, the data is one whole block without NUL bytes at a
   multiple of the block size not beyond the end of the file, among the first 151 blocks, the id and the counter
   still fit, and no stored block with the same hash holds other data.
   */
  ghost predicate Permitted(s: Store, hash: string -> string, op: Op) {
    op.WriteAt? ==>
      && op.path in s.files
      && |op.data| == BLOCK_SIZE && NoNul(op.data) && IsHash(hash(op.data))
      && op.offset % BLOCK_SIZE == 0 && op.offset <= BLOCK_SIZE * |s.files[op.path]| && op.offset <= BLOCK_SIZE * 150
      && Room(s.table, hash(op.data)) && NoCollision(s.blocks, hash, op.data)
  }

  // ---------------------------------------------------------------- file bytes

  function Flatten(v: seq<string>): string {
    if v == [] then "" else Flatten(v[..|v| - 1]) + v[|v| - 1]
  }

  ghost predicate WholeBlocks(v: seq<string>) {
    forall i | 0 <= i < |v| :: |v[i]| == BLOCK_SIZE
  }

  lemma {:induction false} FlattenLength(v: seq<string>)
    requires WholeBlocks(v)
    ensures |Flatten(v)| == BLOCK_SIZE * |v|
  {
    if v != [] {
      FlattenLength(v[..|v| - 1]);
    }
  }

  /** Putting block `k` in place is overwriting the bytes from 4096 * k on. */
  lemma {:induction false} FlattenPut(v: seq<string>, k: nat, data: string)
    requires WholeBlocks(v) && |data| == BLOCK_SIZE && k <= |v|
    ensures Flatten(Put(v, k, data)) == Overwrite(Flatten(v), BLOCK_SIZE * k, data)
  {
    hide Overwrite;
    FlattenLength(v);
    if k == |v| {
      assert (v + [data])[..k] == v;
      OverwriteAtEnd(Flatten(v), data);
    } else {
      var n := |v| - 1;
      FlattenLength(v[..n]);
      if k == n {
        assert v[k := data][..n] == v[..n];
        OverwriteLast(Flatten(v[..n]), v[n], data);
      } else {
        FlattenPut(v[..n], k, data);
        assert v[k := data][..n] == v[..n][k := data];
        OverwriteInPrefix(Flatten(v[..n]), v[n], BLOCK_SIZE * k, data);
      }
    }
  }

  lemma OverwriteAtEnd(a: string, s: string)
    ensures Overwrite(a, |a|, s) == a + s
  {}

  /** What every path reads back as. */
  ghost function Bytes(s: Store): Plain {
    map p | p in s.files :: Flatten(Contents(s.blocks, s.files[p]))
  }

  ghost predicate AllWhole(s: Store) {
    forall p | p in s.files :: WholeBlocks(Contents(s.blocks, s.files[p]))
  }

  // -------------------------------------------------------------------- one step

  ghost predicate Consistent(s: Store, hash: string -> string) {
    Inv(s, hash) && AllWhole(s)
  }

  lemma WriteRefines(s: Store, hash: string -> string, p: Path, k: nat, data: string)
    requires Consistent(s, hash) && NoNul(data) && IsHash(hash(data)) && |data| == BLOCK_SIZE
    requires NoCollision(s.blocks, hash, data) && Room(s.table, hash(data))
    requires p in s.files && k <= |s.files[p]|
    ensures var r := WriteSlot(s, hash(data), p, k, data);
            && Consistent(r, hash)
            && Bytes(r) == Bytes(s)[p := Overwrite(Bytes(s)[p], BLOCK_SIZE * k, data)]
  {
    hide Inv, NoCollision, Room, Overwrite, Flatten, Contents, Generate, View, Bytes;
    var r := WriteSlot(s, hash(data), p, k, data);
    WriteKeepsInv(s, hash, p, k, data);
    WriteIsPut(s, hash, p, k, data);
    BytesOfView(s);
    BytesOfView(r);
    ContentsLength(s.blocks, s.files[p]);
    ViewAt(s, p);
    FlattenPut(View(s)[p], k, data);
    PutWhole(View(s)[p], k, data);
  }

  lemma ViewAt(s: Store, p: Path)
    requires p in s.files
    ensures p in View(s) && View(s)[p] == Contents(s.blocks, s.files[p])
  {}

  lemma PutWhole(v: seq<string>, k: nat, data: string)
    requires WholeBlocks(v) && k <= |v| && |data| == BLOCK_SIZE
    ensures WholeBlocks(Put(v, k, data))
  {}

  lemma ContentsLength(blocks: map<nat, string>, ids: seq<nat>)
    ensures |Contents(blocks, ids)| == |ids|
  {}

  lemma BytesOfView(s: Store)
    ensures Bytes(s) == map p | p in View(s) :: Flatten(View(s)[p])
    ensures AllWhole(s) <==> forall p | p in View(s) :: WholeBlocks(View(s)[p])
  {
    hide Contents, Flatten, WholeBlocks;
    assert forall p | p in s.files :: View(s)[p] == Contents(s.blocks, s.files[p]);
    assert forall p | p in View(s) :: p in s.files;
  }

  lemma RemoveRefines(s: Store, hash: string -> string, p: Path)
    requires Consistent(s, hash) && p in s.files
    ensures Consistent(Unlink(s, p), hash) && Bytes(Unlink(s, p)) == Bytes(s) - {p}
  {
    hide Flatten, Contents, Unlink;
    UnlinkKeepsInv(s, hash, p);
    UnlinkIsRemove(s, hash, p);
    hide Inv;
    BytesOfView(s);
    BytesOfView(Unlink(s, p));
    assert s.files.Keys == View(s).Keys;
  }

  lemma CreateRefines(s: Store, hash: string -> string, p: Path)
    requires Consistent(s, hash) && p !in s.files
    ensures var r := s.(files := s.files[p := []]);
            Consistent(r, hash) && Bytes(r) == Bytes(s)[p := ""]
  {
    CreateKeepsInv(s, hash, p);
    hide Inv;
  }

  /** One permitted operation: the invariant holds again and the store reads back like the plain file system. */
  lemma StepRefines(s: Store, hash: string -> string, op: Op)
    requires Consistent(s, hash) && Permitted(s, hash, op)
    ensures op.WriteAt? ==> op.path in s.files && SlotOf(op.offset) <= |s.files[op.path]|
    ensures op.Remove? && op.path in s.files ==> Known(s.table, s.files[op.path])
    ensures Consistent(Exec(s, hash, op), hash)
    ensures Bytes(Exec(s, hash, op)) == PlainExec(Bytes(s), op)
  {
    match op {
      case Create(p) =>
        hide Inv, Flatten, Contents;
        if p !in s.files {
          CreateRefines(s, hash, p);
        }
      case WriteAt(p, offset, data) =>
        hide Inv, Room, NoCollision, Overwrite, WriteSlot, Flatten, Contents;
        var k := offset / BLOCK_SIZE;
        assert offset == BLOCK_SIZE * k;
        SlotOfBlock(k);
        WriteRefines(s, hash, p, k, data);
      case Remove(p) =>
        hide Flatten, Contents, Unlink;
        if p in s.files {
          RemoveRefines(s, hash, p);
        }
    }
  }

  // ----------------------------------------------------------------------- runs

  const EmptyStore: Store := Store([], map[], map[])

  lemma EmptyConsistent(hash: string -> string)
    ensures Consistent(EmptyStore, hash) && Exact(EmptyStore)
  {}

  /** Every operation of the list is permitted in the state it meets. */
  ghost predicate Runs(s: Store, hash: string -> string, ops: seq<Op>)
    requires Consistent(s, hash)
    decreases |ops|
  {
    ops == [] ||
    (&& Permitted(s, hash, ops[0])
     && (StepRefines(s, hash, ops[0]);
         Runs(Exec(s, hash, ops[0]), hash, ops[1..])))
  }

  ghost function ExecAll(s: Store, hash: string -> string, ops: seq<Op>): Store
    requires Consistent(s, hash) && Runs(s, hash, ops)
    decreases |ops|
  {
    if ops == [] then s
    else
      StepRefines(s, hash, ops[0]);
      ExecAll(Exec(s, hash, ops[0]), hash, ops[1..])
  }

  /** The plain file system running the same operations; writing to a missing path is not an operation of it. */
  ghost function PlainAll(m: Plain, ops: seq<Op>): Plain
    decreases |ops|
  {
    if ops == [] then m
    else if ops[0].WriteAt? && ops[0].path !in m then m
    else PlainAll(PlainExec(m, ops[0]), ops[1..])
  }

  /** After any run the store holds, path by path and byte by byte, what the plain file system holds. */
  lemma {:induction false} RunsRefine(s: Store, hash: string -> string, ops: seq<Op>)
    requires Consistent(s, hash) && Runs(s, hash, ops)
    ensures Consistent(ExecAll(s, hash, ops), hash)
    ensures Bytes(ExecAll(s, hash, ops)) == PlainAll(Bytes(s), ops)
    decreases |ops|
  {
    hide Consistent, Exec, PlainExec, Bytes;
    if ops != [] {
      StepRefines(s, hash, ops[0]);
      BytesPaths(s);
      assert ops[0].WriteAt? ==> ops[0].path in s.files by {
        hide Inv;
      }
      RunsRefine(Exec(s, hash, ops[0]), hash, ops[1..]);
    }
  }

  /** From the empty store that a first mount finds: whatever was done, every path reads back like the plain file. */
  lemma FreshStoreRefines(hash: string -> string, ops: seq<Op>)
    requires (EmptyConsistent(hash); Runs(EmptyStore, hash, ops))
    ensures Consistent(EmptyStore, hash)
    ensures Bytes(ExecAll(EmptyStore, hash, ops)) == PlainAll(map[], ops)
  {
    EmptyConsistent(hash);
    RunsRefine(EmptyStore, hash, ops);
    assert Bytes(EmptyStore) == map[];
  }

  lemma BytesPaths(s: Store)
    ensures Bytes(s).Keys == s.files.Keys
  {}

  /** An operation that replaces no block. */
  predicate Appends(s: Store, op: Op) {
    op.WriteAt? && op.path in s.files ==> op.offset == BLOCK_SIZE * |s.files[op.path]|
  }

  ghost predicate RunAppends(s: Store, hash: string -> string, ops: seq<Op>)
    requires Consistent(s, hash) && Runs(s, hash, ops)
    decreases |ops|
  {
    ops == [] ||
    (&& Appends(s, ops[0])
     && (StepRefines(s, hash, ops[0]);
         RunAppends(Exec(s, hash, ops[0]), hash, ops[1..])))
  }

  lemma StepKeepsExact(s: Store, hash: string -> string, op: Op)
    requires Consistent(s, hash) && Permitted(s, hash, op) && Exact(s) && Appends(s, op)
    requires op.WriteAt? ==> op.path in s.files && SlotOf(op.offset) <= |s.files[op.path]|
    requires op.Remove? && op.path in s.files ==> Known(s.table, s.files[op.path])
    ensures Exact(Exec(s, hash, op))
  {
    hide Inv, Exact, Room, NoCollision, WriteSlot, DropAll, AllWhole;
    match op
    case Create(p) =>
      if p !in s.files {
        CreateKeepsExact(s, p);
      }
    case WriteAt(p, offset, data) =>
      SlotOfBlock(|s.files[p]|);
      AppendKeepsExact(s, hash, p, data);
    case Remove(p) =>
      if p in s.files {
        UnlinkKeepsExact(s, hash, p);
      }
  }

  /** Runs that only append and unlink keep every counter exact, so no block outlives its last pointer. */
  lemma {:induction false} AppendRunsAreMinimal(s: Store, hash: string -> string, ops: seq<Op>)
    requires Consistent(s, hash) && Exact(s) && Runs(s, hash, ops) && RunAppends(s, hash, ops)
    ensures var r := ExecAll(s, hash, ops);
            && Inv(r, hash) && Exact(r)
            && r.blocks.Values == VisibleContents(r) && |r.blocks| == |VisibleContents(r)|
    decreases |ops|
  {
    hide Inv, Exec, Exact, AllWhole, VisibleContents, Appends, Permitted;
    if ops == [] {
      ExactStoreIsMinimal(s, hash);
    } else {
      StepRefines(s, hash, ops[0]);
      StepKeepsExact(s, hash, ops[0]);
      AppendRunsAreMinimal(Exec(s, hash, ops[0]), hash, ops[1..]);
    }
  }

  // ---------------------------------------------------------------- ids over time

  /** Blocks that exist before and after hold the same content. */
  ghost predicate SameContents(before: map<nat, string>, after: map<nat, string>) {
    forall id | id in before && id in after :: after[id] == before[id]
  }

  lemma StepGrows(s: Store, hash: string -> string, op: Op)
    requires Consistent(s, hash) && Permitted(s, hash, op)
    requires op.WriteAt? ==> op.path in s.files && SlotOf(op.offset) <= |s.files[op.path]|
    requires op.Remove? && op.path in s.files ==> Known(s.table, s.files[op.path])
    ensures var r := Exec(s, hash, op); Grows(s.table, r.table) && SameContents(s.blocks, r.blocks)
  {
    hide AllWhole, Room, NoCollision, DropAll, Generate, Occurrences, TableOk, HashesUnique, ContentsHashed;
    match op {
      case Create(_) =>
      case WriteAt(p, offset, data) =>
        WriteGrows(s, hash(data), p, SlotOf(offset), data);
        GenerateKeeps(s, hash, data);
      case Remove(p) =>
        UnlinkGrows(s, hash, p);
        if p in s.files {
          DropAllDrops(s.table, s.blocks, s.files[p]);
        }
    }
  }

  /** A block that exists before and after has existed in between. */
  lemma GrowsThrough(s: Store, mid: Store, r: Store)
    requires BlocksMatch(s.table, s.blocks) && BlocksMatch(mid.table, mid.blocks) && BlocksMatch(r.table, r.blocks)
    requires Grows(s.table, mid.table) && SameContents(s.blocks, mid.blocks)
    requires Grows(mid.table, r.table) && SameContents(mid.blocks, r.blocks)
    ensures Grows(s.table, r.table) && SameContents(s.blocks, r.blocks)
  {
    forall id | id in s.blocks && id in r.blocks ensures r.blocks[id] == s.blocks[id] {
      assert Live(s.table, id) && Live(r.table, id);
      assert Live(mid.table, id);
    }
  }

  /**
   No id is ever given to a second content: over a run records keep their hashes, dead ones stay dead, and a block
   that is still there holds what it held.
   */
  lemma {:induction false} IdsNeverReused(s: Store, hash: string -> string, ops: seq<Op>)
    requires Consistent(s, hash) && Runs(s, hash, ops)
    ensures var r := ExecAll(s, hash, ops); Grows(s.table, r.table) && SameContents(s.blocks, r.blocks)
    decreases |ops|
  {
    hide AllWhole, Permitted, Exec, Grows, SameContents, BlocksMatch, TableOk, HashesUnique, ContentsHashed, Counted;
    if ops == [] {
      GrowsNowhere(s);
    } else {
      StepRefines(s, hash, ops[0]);
      StepGrows(s, hash, ops[0]);
      var mid := Exec(s, hash, ops[0]);
      IdsNeverReused(mid, hash, ops[1..]);
      RunsRefine(s, hash, ops);
      GrowsThrough(s, mid, ExecAll(s, hash, ops));
    }
  }

  lemma GrowsNowhere(s: Store)
    ensures Grows(s.table, s.table) && SameContents(s.blocks, s.blocks)
  {}
}
