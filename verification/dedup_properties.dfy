/**
 What the store's operations keep and what a user sees of them: every operation keeps the invariant, a write
 changes one block of one path, an unlink removes one path, and nothing else reads back differently.
 */
module DedupProperties {
  import opened Sums
  import opened DedupText
  import opened DedupTable
  import opened DedupModel

  // ----------------------------------------------------------- adding a block

  /** The id and counter that a write needs still fit their fields of three and two digits. */
  ghost predicate Room(t: seq<Record>, h: string) {
    var id := Lookup(t, h);
    if id > |t| then |t| < 999 else 0 < id && t[id - 1].counter < 99
  }

  /** Equal hashes mean equal data, as far as the stored blocks go. */
  ghost predicate NoCollision(blocks: map<nat, string>, hash: string -> string, data: string) {
    forall id | id in blocks && hash(blocks[id]) == hash(data) :: blocks[id] == data
  }

  lemma AddRefKeepsTable(t: seq<Record>, h: string)
    requires TableOk(t) && HashesUnique(t) && IsHash(h) && Room(t, h)
    ensures var id := Lookup(t, h);
            && 0 < id <= |t| + 1
            && var u := AddRef(t, h, id);
            && TableOk(u) && HashesUnique(u)
            && |u| == (if id > |t| then |t| + 1 else |t|)
            && Live(u, id) && u[id - 1].hash == h
            && u[id - 1].counter == (if id > |t| then 1 else t[id - 1].counter + 1)
            && (forall j | 0 <= j < |t| && j != id - 1 :: u[j] == t[j])
            && (id <= |t| ==> Live(t, id) && t[id - 1].hash == h)
  {
    FirstLiveIsFirst(t, h, 0);
    var id := Lookup(t, h);
    var u := AddRef(t, h, id);
    forall i: nat, j: nat | Live(u, i) && Live(u, j) && u[i - 1].hash == u[j - 1].hash ensures i == j {
      if i <= |t| && j <= |t| {
        assert Live(t, i) && Live(t, j);
      }
    }
  }

  lemma GenerateKeeps(s: Store, hash: string -> string, data: string)
    requires Inv(s, hash) && NoNul(data) && IsHash(hash(data))
    requires NoCollision(s.blocks, hash, data) && Room(s.table, hash(data))
    ensures var id, r := Lookup(s.table, hash(data)), Generate(s, hash(data), data);
            && TableOk(r.table) && HashesUnique(r.table)
            && BlocksMatch(r.table, r.blocks) && ContentsHashed(r.table, r.blocks, hash)
            && id in r.blocks && r.blocks[id] == data
            && forall i | i in s.blocks :: i in r.blocks && r.blocks[i] == s.blocks[i]
  {
    hide TableOk, HashesUnique, Room;
    AddRefKeepsTable(s.table, hash(data));
    hide Lookup;
    var id := Lookup(s.table, hash(data));
    var r := Generate(s, hash(data), data);
    if id > |s.table| {
      assert id !in s.blocks;
    } else {
      assert id in s.blocks;
    }
  }

  /** A write keeps the invariant, whether it appends or replaces and whether the block is new or shared. */
  lemma WriteKeepsInv(s: Store, hash: string -> string, p: Path, k: nat, data: string)
    requires Inv(s, hash) && NoNul(data) && IsHash(hash(data))
    requires NoCollision(s.blocks, hash, data) && Room(s.table, hash(data))
    requires p in s.files && k <= |s.files[p]|
    ensures Inv(WriteSlot(s, hash(data), p, k, data), hash)
  {
    hide TableOk, HashesUnique, BlocksMatch, ContentsHashed, NoCollision, Room, Occurrences;
    AddRefKeepsTable(s.table, hash(data));
    GenerateKeeps(s, hash, data);
    var id := Lookup(s.table, hash(data));
    hide Lookup;
    var r := WriteSlot(s, hash(data), p, k, data);
    forall i: nat | 0 < i <= |r.table| ensures r.table[i - 1].counter >= Occurrences(r.files, i) {
      OccurrencesUpdate(s.files, p, SetSlot(s.files[p], k, id), i);
      SetSlotMentions(s.files[p], k, id, i);
      if i > |s.table| {
        UnknownNotMentioned(s.table, s.files, i);
      }
    }
  }

  lemma UnknownNotMentioned(t: seq<Record>, files: map<Path, seq<nat>>, id: nat)
    requires id > |t| && forall p | p in files :: Known(t, files[p])
    ensures Occurrences(files, id) == 0
  {
    var f := Mentions(files, id);
    forall p | p in files ensures f[p] == 0 {
      assert id !in files[p];
    }
    SumSetConstant(files.Keys, f, 0);
  }

  // --------------------------------------------------------------- unlinking

  /** After delete_blocks every counter is down by the number of times its id was listed, but not below zero. */
  ghost predicate Dropped(t: seq<Record>, ids: seq<nat>, u: seq<Record>) {
    && |u| == |t|
    && forall i | 0 <= i < |t| ::
         && u[i].hash == t[i].hash
         && u[i].counter == Minus(t[i].counter, multiset(ids)[i + 1])
  }

  function Minus(a: nat, b: nat): nat {
    if a >= b then a - b else 0
  }

  /** A block survives exactly if its counter does, and then with its content. */
  ghost predicate Survives(blocks: map<nat, string>, u: seq<Record>, b: map<nat, string>) {
    && BlocksMatch(u, b)
    && forall i | i in b :: i in blocks && b[i] == blocks[i]
  }

  lemma DropRefDrops(t: seq<Record>, blocks: map<nat, string>, id: nat)
    requires 0 < id <= |t| && BlocksMatch(t, blocks)
    ensures var (u, b) := DropRef(t, blocks, id);
            Dropped(t, [id], u) && Survives(blocks, u, b)
  {}

  lemma {:induction false} DropAllDrops(t: seq<Record>, blocks: map<nat, string>, ids: seq<nat>)
    requires Known(t, ids) && BlocksMatch(t, blocks)
    ensures var (u, b) := DropAll(t, blocks, ids);
            Dropped(t, ids, u) && Survives(blocks, u, b)
  {
    if ids != [] {
      var n := |ids| - 1;
      DropAllDrops(t, blocks, ids[..n]);
      var (u, b) := DropAll(t, blocks, ids[..n]);
      DropRefDrops(u, b, ids[n]);
      assert ids == ids[..n] + [ids[n]];
    }
  }

  /** Unlinking keeps the invariant, even when the path lists the same block several times. */
  lemma UnlinkKeepsInv(s: Store, hash: string -> string, p: Path)
    requires Inv(s, hash) && p in s.files
    ensures Inv(Unlink(s, p), hash)
  {
    hide Occurrences, DropAll, TableOk, HashesUnique, ContentsHashed;
    var ids := s.files[p];
    DropAllDrops(s.table, s.blocks, ids);
    var (u, b) := DropAll(s.table, s.blocks, ids);
    DroppedKeepsTable(s.table, s.blocks, hash, ids, u, b);
    var files := s.files - {p};
    forall i: nat | 0 < i <= |u| ensures u[i - 1].counter >= Occurrences(files, i) {
      OccurrencesRemove(s.files, p, i);
    }
  }

  lemma DroppedKeepsTable(t: seq<Record>, blocks: map<nat, string>, hash: string -> string, ids: seq<nat>, u: seq<Record>, b: map<nat, string>)
    requires TableOk(t) && HashesUnique(t) && ContentsHashed(t, blocks, hash)
    requires Dropped(t, ids, u) && BlocksMatch(t, blocks) && Survives(blocks, u, b)
    ensures TableOk(u) && HashesUnique(u) && ContentsHashed(u, b, hash)
  {
    assert forall i: nat | Live(u, i) :: Live(t, i);
  }

  lemma CreateKeepsInv(s: Store, hash: string -> string, p: Path)
    requires Inv(s, hash) && p !in s.files
    ensures Inv(s.(files := s.files[p := []]), hash)
  {
    hide Occurrences, TableOk, HashesUnique, BlocksMatch, ContentsHashed;
    var files := s.files[p := []];
    forall i: nat | 0 < i <= |s.table| ensures s.table[i - 1].counter >= Occurrences(files, i) {
      OccurrencesCreate(s.files, p, i);
    }
  }

  // ------------------------------------------------------------ what a user sees

  /** The contents of the blocks that the ids name. */
  ghost function Contents(blocks: map<nat, string>, ids: seq<nat>): seq<string> {
    seq(|ids|, i requires 0 <= i < |ids| => if ids[i] in blocks then blocks[ids[i]] else "")
  }

  ghost function View(s: Store): map<Path, seq<string>> {
    map p | p in s.files :: Contents(s.blocks, s.files[p])
  }

  /** Replacing block `k` of a file, or appending it at the end. */
  function Put(v: seq<string>, k: nat, data: string): seq<string>
    requires k <= |v|
  {
    if k < |v| then v[k := data] else v + [data]
  }

  /** Every block that a file names exists: nothing reachable was removed. */
  lemma ReachableBlocksExist(s: Store, hash: string -> string, p: Path, k: nat)
    requires Inv(s, hash) && p in s.files && k < |s.files[p]|
    ensures 0 < s.files[p][k] <= |s.table| && s.files[p][k] in s.blocks
  {
    hide Occurrences;
    var id := s.files[p][k];
    OccurrencesAtLeast(s.files, p, id);
    assert id in multiset(s.files[p]);
  }

  /** A write is seen as one block of one path put in place; every other path reads back as before. */
  lemma WriteIsPut(s: Store, hash: string -> string, p: Path, k: nat, data: string)
    requires Inv(s, hash) && NoNul(data) && IsHash(hash(data))
    requires NoCollision(s.blocks, hash, data) && Room(s.table, hash(data))
    requires p in s.files && k <= |s.files[p]|
    ensures View(WriteSlot(s, hash(data), p, k, data)) == View(s)[p := Put(View(s)[p], k, data)]
  {
    hide Inv, Room, NoCollision;
    GenerateKeeps(s, hash, data);
    hide Generate, Lookup;
    var r := WriteSlot(s, hash(data), p, k, data);
    forall q | q in s.files ensures Contents(r.blocks, s.files[q]) == Contents(s.blocks, s.files[q]) {
      forall i: nat | i < |s.files[q]| ensures s.files[q][i] in s.blocks {
        ReachableBlocksExist(s, hash, q, i);
      }
    }
    assert View(r)[p] == Put(Contents(r.blocks, s.files[p]), k, data);
  }

  /** An unlink removes its own path and nothing else, even where blocks are shared. */
  lemma UnlinkIsRemove(s: Store, hash: string -> string, p: Path)
    requires Inv(s, hash) && p in s.files
    ensures View(Unlink(s, p)) == View(s) - {p}
  {
    hide DropAll;
    DropAllDrops(s.table, s.blocks, s.files[p]);
    UnlinkKeepsInv(s, hash, p);
    var r := Unlink(s, p);
    forall q | q in r.files ensures Contents(r.blocks, r.files[q]) == Contents(s.blocks, s.files[q]) {
      forall i: nat | i < |r.files[q]| ensures r.files[q][i] in r.blocks && r.files[q][i] in s.blocks {
        ReachableBlocksExist(r, hash, q, i);
        ReachableBlocksExist(s, hash, q, i);
      }
    }
  }
}
