/**
 How much the store shares: distinct contents have distinct blocks, ids are never reused, and as long as no
 block is overwritten the counters are exact, so that no block outlives its last pointer.
 */
module DedupSharing {
  import opened Sums
  import opened DedupText
  import opened DedupTable
  import opened DedupModel
  import opened DedupProperties

  // ------------------------------------------------------- one block per content

  /** Two block files never hold the same content. */
  lemma BlocksDistinct(s: Store, hash: string -> string, a: nat, b: nat)
    requires Inv(s, hash) && a in s.blocks && b in s.blocks && s.blocks[a] == s.blocks[b]
    ensures a == b
  {}

  /** Writing a content that is stored adds no block; writing a new one adds exactly one, under an id never used before. */
  lemma WriteSharesOrAdds(s: Store, hash: string -> string, p: Path, k: nat, data: string)
    requires Inv(s, hash) && NoNul(data) && IsHash(hash(data))
    requires NoCollision(s.blocks, hash, data) && Room(s.table, hash(data))
    requires p in s.files && k <= |s.files[p]|
    ensures var r := WriteSlot(s, hash(data), p, k, data);
            if data in s.blocks.Values then r.blocks == s.blocks && |r.table| == |s.table|
            else r.blocks == s.blocks[|s.table| + 1 := data] && |s.table| + 1 !in s.blocks && |r.table| == |s.table| + 1
  {
    AddRefKeepsTable(s.table, hash(data));
    FirstLiveIsFirst(s.table, hash(data), 0);
    var id := Lookup(s.table, hash(data));
    if data in s.blocks.Values {
      var b :| b in s.blocks && s.blocks[b] == data;
      assert Live(s.table, b) && s.table[b - 1].hash == hash(data);
    }
  }

  lemma {:induction false} ValuesCount(m: map<nat, string>)
    requires forall a, b | a in m && b in m && m[a] == m[b] :: a == b
    ensures |m.Values| == |m|
    decreases m.Keys
  {
    if m == map[] {
      assert m.Values == {};
    } else {
      var k :| k in m;
      var rest := m - {k};
      ValuesCount(rest);
      assert m == rest[k := m[k]];
      assert m.Values == rest.Values + {m[k]};
      assert m[k] !in rest.Values;
      assert m.Keys == rest.Keys + {k};
      assert |m| == |m.Keys| && |rest| == |rest.Keys|;
    }
  }

  // --------------------------------------------------------------- exact counts

  /** Every counter is exactly the number of pointers to its block. */
  ghost predicate Exact(s: Store) {
    forall i | 0 <= i < |s.table| :: s.table[i].counter == Occurrences(s.files, i + 1)
  }

  /** What the counter of block `id` counts beyond the pointers that exist. */
  ghost function Excess(s: Store, id: nat): int {
    (if 0 < id <= |s.table| then s.table[id - 1].counter else 0) - Occurrences(s.files, id)
  }

  lemma ExactIsNoExcess(s: Store)
    ensures Exact(s) <==> forall id: nat | 0 < id <= |s.table| :: Excess(s, id) == 0
  {
    hide Occurrences;
    if forall id: nat | 0 < id <= |s.table| :: Excess(s, id) == 0 {
      forall i | 0 <= i < |s.table| ensures s.table[i].counter == Occurrences(s.files, i + 1) {
        assert Excess(s, i + 1) == 0;
      }
    }
  }

  /** A write leaves one count too many on the block whose pointer it replaces, and nothing anywhere else. */
  lemma WriteExcess(s: Store, hash: string -> string, p: Path, k: nat, data: string, id: nat)
    requires Inv(s, hash) && IsHash(hash(data)) && Room(s.table, hash(data))
    requires p in s.files && k <= |s.files[p]| && id > 0
    ensures Excess(WriteSlot(s, hash(data), p, k, data), id)
         == Excess(s, id) + if k < |s.files[p]| && s.files[p][k] == id then 1 else 0
  {
    hide Occurrences, Room, TableOk, HashesUnique, BlocksMatch, ContentsHashed;
    AddRefKeepsTable(s.table, hash(data));
    var target := Lookup(s.table, hash(data));
    hide Lookup;
    OccurrencesUpdate(s.files, p, SetSlot(s.files[p], k, target), id);
    SetSlotMentions(s.files[p], k, target, id);
    if id > |s.table| {
      UnknownNotMentioned(s.table, s.files, id);
    }
  }

  /** A write keeps the counters exact if and only if it appends: bb_write never takes back the pointer it replaces. */
  lemma WriteExactIffAppend(s: Store, hash: string -> string, p: Path, k: nat, data: string)
    requires Inv(s, hash) && IsHash(hash(data)) && Room(s.table, hash(data))
    requires p in s.files && k <= |s.files[p]| && Exact(s)
    ensures Exact(WriteSlot(s, hash(data), p, k, data)) <==> k == |s.files[p]|
  {
    hide Excess, Exact, Room, Occurrences;
    var r := WriteSlot(s, hash(data), p, k, data);
    ExactIsNoExcess(r);
    if k == |s.files[p]| {
      AppendKeepsExact(s, hash, p, data);
    } else {
      ReachableBlocksExist(s, hash, p, k);
      var replaced := s.files[p][k];
      WriteExcess(s, hash, p, k, data, replaced);
      ExactIsNoExcess(s);
      WriteGrows(s, hash(data), p, k, data);
      assert Excess(r, replaced) == 1;
    }
  }

  /** An unlink takes a file's pointers off the counters exactly. */
  lemma UnlinkExcess(s: Store, hash: string -> string, p: Path, id: nat)
    requires Inv(s, hash) && p in s.files && id > 0
    ensures Excess(Unlink(s, p), id) == Excess(s, id)
  {
    hide Occurrences, DropAll, TableOk, HashesUnique, ContentsHashed;
    DropAllDrops(s.table, s.blocks, s.files[p]);
    OccurrencesRemove(s.files, p, id);
    if id > |s.table| {
      UnknownNotMentioned(s.table, s.files, id);
    }
  }

  lemma AppendKeepsExact(s: Store, hash: string -> string, p: Path, data: string)
    requires Inv(s, hash) && Exact(s) && IsHash(hash(data)) && Room(s.table, hash(data))
    requires p in s.files
    ensures Exact(WriteSlot(s, hash(data), p, |s.files[p]|, data))
  {
    hide Occurrences, Room, TableOk, HashesUnique, BlocksMatch, ContentsHashed;
    AddRefKeepsTable(s.table, hash(data));
    var id, k := Lookup(s.table, hash(data)), |s.files[p]|;
    hide Lookup;
    var r := WriteSlot(s, hash(data), p, k, data);
    forall i | 0 <= i < |r.table| ensures r.table[i].counter == Occurrences(r.files, i + 1) {
      OccurrencesUpdate(s.files, p, SetSlot(s.files[p], k, id), i + 1);
      SetSlotMentions(s.files[p], k, id, i + 1);
      if i >= |s.table| {
        UnknownNotMentioned(s.table, s.files, i + 1);
      }
    }
  }

  lemma UnlinkKeepsExact(s: Store, hash: string -> string, p: Path)
    requires Inv(s, hash) && Exact(s) && p in s.files
    ensures Exact(Unlink(s, p))
  {
    hide Occurrences, DropAll, TableOk, HashesUnique, ContentsHashed;
    DropAllDrops(s.table, s.blocks, s.files[p]);
    var r := Unlink(s, p);
    forall i | 0 <= i < |r.table| ensures r.table[i].counter == Occurrences(r.files, i + 1) {
      OccurrencesRemove(s.files, p, i + 1);
    }
  }

  lemma CreateKeepsExact(s: Store, p: Path)
    requires Exact(s) && p !in s.files
    ensures Exact(s.(files := s.files[p := []]))
  {
    hide Occurrences;
    var files := s.files[p := []];
    forall i | 0 <= i < |s.table| ensures s.table[i].counter == Occurrences(files, i + 1) {
      OccurrencesCreate(s.files, p, i + 1);
    }
  }

  /** All block contents that users can read. */
  ghost function VisibleContents(s: Store): set<string> {
    set p, i: nat | p in s.files && i < |s.files[p]| :: Contents(s.blocks, s.files[p])[i]
  }

  /** A content is visible exactly if some path reads back with it as one of its blocks. */
  lemma VisibleExactly(s: Store, data: string)
    ensures data in VisibleContents(s) <==> exists p, i: nat :: p in View(s) && i < |View(s)[p]| && View(s)[p][i] == data
  {
    if data in VisibleContents(s) {
      var p, i: nat :| p in s.files && i < |s.files[p]| && Contents(s.blocks, s.files[p])[i] == data;
      assert View(s)[p][i] == data;
    }
    ViewLengths(s);
  }

  lemma ViewLengths(s: Store)
    ensures View(s).Keys == s.files.Keys && forall p | p in s.files :: |View(s)[p]| == |s.files[p]|
  {}

  /** With exact counts the store holds one block for every distinct visible content, and no other block. */
  lemma ExactStoreIsMinimal(s: Store, hash: string -> string)
    requires Inv(s, hash) && Exact(s)
    ensures s.blocks.Values == VisibleContents(s)
    ensures |s.blocks| == |VisibleContents(s)|
  {
    hide Occurrences, TableOk, HashesUnique;
    forall id | id in s.blocks ensures s.blocks[id] in VisibleContents(s) {
      assert Live(s.table, id) && s.table[id - 1].counter == Occurrences(s.files, id - 1 + 1);
      var p := SomeMention(s.files, id);
      var i: nat :| i < |s.files[p]| && s.files[p][i] == id;
      assert Contents(s.blocks, s.files[p])[i] == s.blocks[id];
    }
    forall p, i: nat | p in s.files && i < |s.files[p]| ensures Contents(s.blocks, s.files[p])[i] in s.blocks.Values {
      ReachableBlocksExist(s, hash, p, i);
      assert s.files[p][i] in s.blocks.Keys;
    }
    assert s.blocks.Values == VisibleContents(s);
    forall a, b | a in s.blocks && b in s.blocks && s.blocks[a] == s.blocks[b] ensures a == b {
      BlocksDistinct(s, hash, a, b);
    }
    ValuesCount(s.blocks);
  }

  /** An id that occurs at all occurs in some pointer file. */
  lemma SomeMention(files: map<Path, seq<nat>>, id: nat) returns (p: Path)
    requires Occurrences(files, id) > 0
    ensures p in files && id in files[p]
  {
    var f := Mentions(files, id);
    if forall q | q in files :: f[q] == 0 {
      SumSetConstant(files.Keys, f, 0);
      assert false;
    } else {
      p :| p in files && f[p] != 0;
      assert id in multiset(files[p]);
    }
  }

  // -------------------------------------------------------------- ids over time

  /** Records are only added; a record keeps its hash, and one whose counter reached zero stays at zero. */
  ghost predicate Grows(t: seq<Record>, u: seq<Record>) {
    && |t| <= |u|
    && forall i | 0 <= i < |t| :: u[i].hash == t[i].hash && (t[i].counter == 0 ==> u[i].counter == 0)
  }

  lemma WriteGrows(s: Store, h: string, p: Path, k: nat, data: string)
    requires p in s.files && k <= |s.files[p]|
    ensures Grows(s.table, WriteSlot(s, h, p, k, data).table)
  {
    FirstLiveIsFirst(s.table, h, 0);
  }

  lemma UnlinkGrows(s: Store, hash: string -> string, p: Path)
    requires Inv(s, hash)
    ensures p in s.files ==> Known(s.table, s.files[p])
    ensures Grows(s.table, Unlink(s, p).table)
  {
    hide DropAll, Occurrences;
    if p in s.files {
      DropAllDrops(s.table, s.blocks, s.files[p]);
    }
  }

  // ------------------------------------------------------------------- remount

  /** The number of block files, which a mount takes for the last id, is the last id exactly if no block was ever freed. */
  lemma BlockFilesCountIds(s: Store, hash: string -> string)
    requires Inv(s, hash)
    ensures |s.blocks| <= |s.table|
    ensures |s.blocks| == |s.table| <==> forall i | 0 <= i < |s.table| :: s.table[i].counter > 0
  {
    hide Occurrences, TableOk, HashesUnique, ContentsHashed;
    var all := IdsUpTo(|s.table|);
    assert s.blocks.Keys <= all;
    assert |s.blocks| == |s.blocks.Keys|;
    SubsetCount(s.blocks.Keys, all);
    if s.blocks.Keys == all {
      forall i | 0 <= i < |s.table| ensures s.table[i].counter > 0 {
        assert i + 1 in s.blocks.Keys;
      }
    } else {
      var id :| id in all && id !in s.blocks.Keys;
      assert s.table[id - 1].counter == 0;
    }
  }

  ghost function IdsUpTo(n: nat): (ids: set<nat>)
    ensures |ids| == n
    ensures forall id :: id in ids <==> 0 < id <= n
  {
    if n == 0 then {} else IdsUpTo(n - 1) + {n}
  }

  lemma {:induction false} SubsetCount(a: set<nat>, b: set<nat>)
    requires a <= b
    ensures |a| <= |b| && (|a| == |b| <==> a == b)
    decreases a
  {
    if a != {} {
      var x :| x in a;
      SubsetCount(a - {x}, b - {x});
      if a - {x} == b - {x} {
        assert a == a - {x} + {x} == b - {x} + {x} == b;
      }
    }
  }
}
