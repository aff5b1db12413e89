/**
 The deduplicating store as a value: the table of the hashes file, the block files by id, and the
 pointer file of every path as a sequence of ids; the operations on it, its invariant, and what a
 user sees of it.
 */
module DedupModel {
  import opened Sums
  import opened DedupText
  import opened DedupTable

  type Path = string

  datatype Store = Store(table: seq<Record>, blocks: map<nat, string>, files: map<Path, seq<nat>>)

  // ------------------------------------------------------------- the table

  /** The record of block `id` counts at least one pointer. */
  ghost predicate Live(t: seq<Record>, id: nat) {
    0 < id <= |t| && t[id - 1].counter > 0
  }

  /** The id of the first live record with hash `h` at or after position `i`, or the next free id. */
  function FirstLive(t: seq<Record>, h: string, i: nat): nat
    requires i <= |t|
    decreases |t| - i
  {
    if i == |t| then |t| + 1
    else if t[i].hash == h && t[i].counter != 0 then i + 1
    else FirstLive(t, h, i + 1)
  }

  /** compare_hashes */
  function Lookup(t: seq<Record>, h: string): nat {
    FirstLive(t, h, 0)
  }

  lemma {:induction false} FirstLiveIsFirst(t: seq<Record>, h: string, i: nat)
    requires i <= |t|
    ensures var id := FirstLive(t, h, i);
            && i < id <= |t| + 1
            && (id <= |t| ==> Live(t, id) && t[id - 1].hash == h)
            && forall j | i <= j < id - 1 :: !(t[j].hash == h && t[j].counter != 0)
    decreases |t| - i
  {
    if i < |t| && !(t[i].hash == h && t[i].counter != 0) {
      FirstLiveIsFirst(t, h, i + 1);
    }
  }

  /** The table after write_hash for the id that compare_hashes gave. */
  function AddRef(t: seq<Record>, h: string, id: nat): seq<Record>
    requires 0 < id <= |t| + 1
  {
    if id > |t| then t + [Record(1, h)] else t[id - 1 := Record(t[id - 1].counter + 1, h)]
  }

  /** One pointer to block `id` is gone; the block goes with the last one. */
  function DropRef(t: seq<Record>, blocks: map<nat, string>, id: nat): (seq<Record>, map<nat, string>)
    requires 0 < id <= |t|
  {
    var c := t[id - 1].counter;
    if c == 0 then (t, blocks)
    else (t[id - 1 := Record(c - 1, t[id - 1].hash)], if c == 1 then blocks - {id} else blocks)
  }

  ghost predicate Known(t: seq<Record>, ids: seq<nat>) {
    forall i | 0 <= i < |ids| :: 0 < ids[i] <= |t|
  }

  /** delete_blocks */
  function DropAll(t: seq<Record>, blocks: map<nat, string>, ids: seq<nat>): (r: (seq<Record>, map<nat, string>))
    requires Known(t, ids)
    ensures |r.0| == |t|
  {
    if ids == [] then (t, blocks)
    else
      var (u, b) := DropAll(t, blocks, ids[..|ids| - 1]);
      DropRef(u, b, ids[|ids| - 1])
  }

  // ------------------------------------------------------------- operations

  /** generate_block for content `data` whose hash is `h`. */
  function Generate(s: Store, h: string, data: string): Store {
    FirstLiveIsFirst(s.table, h, 0);
    var id := Lookup(s.table, h);
    Store(AddRef(s.table, h, id), if id > |s.table| then s.blocks[id := data] else s.blocks, s.files)
  }

  /** bb_write of one block into slot `k`. */
  function WriteSlot(s: Store, h: string, p: Path, k: nat, data: string): Store
    requires p in s.files && k <= |s.files[p]|
  {
    Generate(s, h, data).(files := s.files[p := SetSlot(s.files[p], k, Lookup(s.table, h))])
  }

  /** bb_unlink */
  function Unlink(s: Store, p: Path): Store
    requires p in s.files ==> Known(s.table, s.files[p])
  {
    if p !in s.files then s
    else
      var (t, b) := DropAll(s.table, s.blocks, s.files[p]);
      Store(t, b, s.files - {p})
  }

  // --------------------------------------------------------------- invariant

  /** How often block `id` occurs in pointer file `p`. */
  ghost function Mentions(files: map<Path, seq<nat>>, id: nat): map<Path, nat> {
    map p | p in files :: multiset(files[p])[id]
  }

  /** How often block `id` occurs in all pointer files together. */
  ghost function Occurrences(files: map<Path, seq<nat>>, id: nat): nat {
    SumSet(files.Keys, Mentions(files, id))
  }

  ghost predicate BlocksMatch(t: seq<Record>, blocks: map<nat, string>) {
    forall id: nat :: id in blocks <==> Live(t, id)
  }

  /** No two live records carry the same hash. */
  ghost predicate HashesUnique(t: seq<Record>) {
    forall i: nat, j: nat | Live(t, i) && Live(t, j) && t[i - 1].hash == t[j - 1].hash :: i == j
  }

  ghost predicate ContentsHashed(t: seq<Record>, blocks: map<nat, string>, hash: string -> string) {
    forall id | id in blocks && Live(t, id) :: t[id - 1].hash == hash(blocks[id]) && NoNul(blocks[id])
  }

  /** Every counter covers the pointers that exist. */
  ghost predicate Counted(t: seq<Record>, files: map<Path, seq<nat>>) {
    && (forall p | p in files :: Known(t, files[p]))
    && forall id: nat | 0 < id <= |t| :: t[id - 1].counter >= Occurrences(files, id)
  }

  ghost predicate Inv(s: Store, hash: string -> string) {
    && TableOk(s.table)
    && BlocksMatch(s.table, s.blocks)
    && HashesUnique(s.table)
    && ContentsHashed(s.table, s.blocks, hash)
    && Counted(s.table, s.files)
  }

  // ------------------------------------------------------------ occurrences

  lemma OccurrencesUpdate(files: map<Path, seq<nat>>, p: Path, ids: seq<nat>, id: nat)
    requires p in files
    ensures Occurrences(files[p := ids], id) + multiset(files[p])[id] == Occurrences(files, id) + multiset(ids)[id]
  {
    var g := files[p := ids];
    assert g.Keys == files.Keys;
    assert Mentions(g, id) == Mentions(files, id)[p := multiset(ids)[id]];
    SumSetUpdate(files.Keys, Mentions(files, id), p, multiset(ids)[id]);
  }

  lemma OccurrencesCreate(files: map<Path, seq<nat>>, p: Path, id: nat)
    requires p !in files
    ensures Occurrences(files[p := []], id) == Occurrences(files, id)
  {
    var g := files[p := []];
    assert g.Keys == files.Keys + {p};
    SumSetInsert(files.Keys, Mentions(g, id), p);
    SumSetAgree(files.Keys, Mentions(files, id), Mentions(g, id));
  }

  lemma OccurrencesRemove(files: map<Path, seq<nat>>, p: Path, id: nat)
    requires p in files
    ensures Occurrences(files - {p}, id) + multiset(files[p])[id] == Occurrences(files, id)
  {
    var g := files - {p};
    SumSetRemove(files.Keys, Mentions(files, id), p);
    assert g.Keys == files.Keys - {p};
    SumSetAgree(g.Keys, Mentions(files, id), Mentions(g, id));
  }

  lemma OccurrencesAtLeast(files: map<Path, seq<nat>>, p: Path, id: nat)
    requires p in files
    ensures Occurrences(files, id) >= multiset(files[p])[id]
  {
    OccurrencesRemove(files, p, id);
  }

  /** Changing a slot takes one occurrence from the old id, if there was one, and gives one to the new id. */
  lemma SetSlotMentions(ids: seq<nat>, k: nat, target: nat, id: nat)
    requires k <= |ids|
    ensures multiset(SetSlot(ids, k, target))[id] + (if k < |ids| && ids[k] == id then 1 else 0)
         == multiset(ids)[id] + if target == id then 1 else 0
  {}
}
