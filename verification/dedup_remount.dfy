/**
 Mounting again: the last id is taken from the number of files in the hidden directory. If a block was freed, that
 is too small, and the next new block takes an id that was given before.
 */
module DedupRemount {
  import opened Wrappers
  import opened DedupText
  import opened DedupTable
  import opened DedupModel
  import opened DedupProperties
  import opened DedupSharing
  import opened DedupStore

  /** What readdir gives; `regular` is the test for DT_REG. */
  datatype DirEntry = DirEntry(name: string, regular: bool)

  function RegularFiles(entries: seq<DirEntry>): nat {
    if entries == [] then 0
    else RegularFiles(entries[..|entries| - 1]) + if entries[|entries| - 1].regular then 1 else 0
  }

  /** The positions of the entries that are regular files. */
  ghost function RegularAt(entries: seq<DirEntry>): set<nat> {
    set i: nat | i < |entries| && entries[i].regular
  }

  lemma {:induction false} RegularFilesCount(entries: seq<DirEntry>)
    ensures RegularFiles(entries) == |RegularAt(entries)|
  {
    if entries == [] {
      assert RegularAt(entries) == {};
    } else {
      var n := |entries| - 1;
      RegularFilesCount(entries[..n]);
      assert RegularAt(entries) == RegularAt(entries[..n]) + if entries[n].regular then {n} else {};
    }
  }

  /** get_initial_id_number: the regular files of the directory but one, the hashes file; 0 without a directory. */
  method GetInitialIdNumber(dir: Option<seq<DirEntry>>) returns (fileCount: nat)
    ensures dir == None ==> fileCount == 0
    ensures dir.Some? ==> fileCount == if RegularAt(dir.value) == {} then 0 else |RegularAt(dir.value)| - 1
  {
    fileCount := 0;
    if dir == None {
      return;
    }
    var entries := dir.value;
    for i := 0 to |entries|
      invariant fileCount == RegularFiles(entries[..i])
    {
      assert entries[..i + 1][..i] == entries[..i];
      if entries[i].regular {
        fileCount := fileCount + 1;
      }
    }
    assert entries[..|entries|] == entries;
    RegularFilesCount(entries);
    if fileCount != 0 {
      fileCount := fileCount - 1;
    }
  }

  /** The file of block `n`, as generate_block names it. */
  function FileOf(n: string): string {
    n + ".txt"
  }

  /** The regular files of the hidden directory are the hashes file and the block files, each once; other entries do not matter. */
  ghost predicate HiddenDir(entries: seq<DirEntry>, dir: map<string, string>) {
    && (forall i, j | 0 <= i < j < |entries| :: entries[i].name != entries[j].name)
    && (forall i | 0 <= i < |entries| && entries[i].regular ::
          entries[i].name == "hashes" || exists n :: n in dir && entries[i].name == FileOf(n))
    && (exists i :: 0 <= i < |entries| && entries[i].regular && entries[i].name == "hashes")
    && (forall n | n in dir :: exists i :: 0 <= i < |entries| && entries[i].regular && entries[i].name == FileOf(n))
  }

  lemma FileNames(n: string, m: string)
    ensures FileOf(n) != "hashes" && (FileOf(n) == FileOf(m) ==> n == m)
  {
    assert FileOf(n)[|FileOf(n)| - 1] == 't';
    assert FileOf(n)[..|FileOf(n)| - 4] == n && FileOf(m)[..|FileOf(m)| - 4] == m;
  }

  /** As many positions as names, if different positions have different names. */
  lemma {:induction false} SameCount(at: set<nat>, entries: seq<DirEntry>, names: set<string>)
    requires forall i | i in at :: i < |entries| && entries[i].name in names
    requires forall i, j | i in at && j in at && entries[i].name == entries[j].name :: i == j
    requires forall n | n in names :: exists i :: i in at && entries[i].name == n
    ensures |at| == |names|
    decreases at
  {
    if at == {} {
      assert names == {};
    } else {
      var i :| i in at;
      var name := entries[i].name;
      forall n | n in names - {name} ensures exists j :: j in at - {i} && entries[j].name == n {
        var j :| j in at && entries[j].name == n;
        assert j in at - {i};
      }
      SameCount(at - {i}, entries, names - {name});
    }
  }

  /** The names of the regular files: one for each block, and the hashes file. */
  ghost function FileNamesOf(dir: map<string, string>): (names: set<string>)
    ensures |names| == |dir| + 1
    ensures forall name :: name in names <==> name == "hashes" || exists n :: n in dir && name == FileOf(n)
  {
    var names := set n | n in dir :: FileOf(n);
    BlockNames(dir, names);
    names + {"hashes"}
  }

  lemma BlockNames(dir: map<string, string>, names: set<string>)
    requires names == set n | n in dir :: FileOf(n)
    ensures |names| == |dir| && "hashes" !in names
  {
    hide FileOf;
    forall n, m | n in dir && m in dir && FileOf(n) == FileOf(m) ensures n == m {
      FileNames(n, m);
    }
    ImageCount(dir.Keys, names);
    assert |dir.Keys| == |dir|;
    forall n | n in dir ensures FileOf(n) != "hashes" {
      FileNames(n, n);
    }
  }

  /** The hidden directory holds one regular file more than there are block files. */
  lemma HiddenDirCount(entries: seq<DirEntry>, dir: map<string, string>)
    requires HiddenDir(entries, dir)
    ensures |RegularAt(entries)| == |dir| + 1
  {
    hide FileOf;
    var names := FileNamesOf(dir);
    forall name | name in names ensures exists i :: i in RegularAt(entries) && entries[i].name == name {
      RegularNamed(entries, dir, name);
    }
    SameCount(RegularAt(entries), entries, names);
  }

  lemma RegularNamed(entries: seq<DirEntry>, dir: map<string, string>, name: string)
    requires HiddenDir(entries, dir) && (name == "hashes" || exists n :: n in dir && name == FileOf(n))
    ensures exists i :: i in RegularAt(entries) && entries[i].name == name
  {
    hide FileOf;
    var i :| 0 <= i < |entries| && entries[i].regular && entries[i].name == name;
    assert i in RegularAt(entries);
  }

  lemma {:induction false} ImageCount(keys: set<string>, names: set<string>)
    requires forall n, m | n in keys && m in keys && FileOf(n) == FileOf(m) :: n == m
    requires names == set n | n in keys :: FileOf(n)
    ensures |names| == |keys|
    decreases keys
  {
    if keys != {} {
      var k :| k in keys;
      assert names - {FileOf(k)} == set n | n in keys - {k} :: FileOf(n);
      ImageCount(keys - {k}, names - {FileOf(k)});
    }
  }

  /** The hidden directory has as many block files as there are live blocks. */
  lemma {:induction false} BlockDirCount(blocks: map<nat, string>, dir: map<string, string>)
    requires BlockDir(blocks, dir)
    ensures |dir| == |blocks|
    decreases blocks.Keys
  {
    hide Padded, Atoi;
    if blocks == map[] {
      assert forall name | name in dir :: Atoi(name) in blocks;
      assert dir == map[];
    } else {
      var id :| id in blocks;
      var name := Padded(id, ID_LENGTH);
      var restBlocks, restDir := blocks - {id}, dir - {name};
      BlockDirRemove(blocks, dir, id);
      assert restBlocks.Keys == blocks.Keys - {id} && restDir.Keys == dir.Keys - {name};
      BlockDirCount(restBlocks, restDir);
      assert |blocks.Keys| == |restBlocks.Keys| + 1 && |dir.Keys| == |restDir.Keys| + 1;
      assert |blocks| == |blocks.Keys| && |dir| == |dir.Keys| && |restBlocks| == |restBlocks.Keys| && |restDir| == |restDir.Keys|;
    }
  }

  /**
   A mount over the block files and the hashes file recovers the last id exactly if every record still has a
   block; otherwise it starts at an id that is already taken.
   */
  lemma RemountRecoversLastId(s: Store, hash: string -> string, dir: map<string, string>, entries: seq<DirEntry>)
    requires Inv(s, hash) && BlockDir(s.blocks, dir)
    requires HiddenDir(entries, dir)
    ensures 0 <= |RegularAt(entries)| - 1 <= |s.table|
    ensures |RegularAt(entries)| - 1 == |s.table| <==> forall i | 0 <= i < |s.table| :: s.table[i].counter > 0
  {
    hide Inv, BlockDir, HiddenDir;
    HiddenDirCount(entries, dir);
    BlockDirCount(s.blocks, dir);
    BlockFilesCountIds(s, hash);
  }

  /** main of bbfs.c, on the files of an earlier mount: the mount is in order if and only if no counter is 0. */
  method Remount(bbs: BbState, entries: seq<DirEntry>)
    requires bbs.Valid() && Inv(bbs.st, bbs.generateHash)
    requires HiddenDir(entries, bbs.blockFiles)
    modifies bbs`lastId
    ensures bbs.Mounted() && bbs.lastId == |bbs.st.blocks|
    ensures bbs.Valid() <==> forall i | 0 <= i < |bbs.st.table| :: bbs.st.table[i].counter > 0
  {
    hide Inv, BlockDir, EncodeTable, HiddenDir;
    HiddenDirCount(entries, bbs.blockFiles);
    BlockDirCount(bbs.st.blocks, bbs.blockFiles);
    RemountRecoversLastId(bbs.st, bbs.generateHash, bbs.blockFiles, entries);
    var fileCount := GetInitialIdNumber(Some(entries));
    bbs.lastId := fileCount;
  }

  /** Appending a record under the id `n` + 1 gives the bytes of a table if and only if it is record `n` + 1. */
  lemma AppendedIdIsPosition(t: seq<Record>, n: nat, h: string)
    requires TableOk(t) && n <= |t| && n < 999 && IsHash(h)
    ensures (exists u :: TableOk(u) && EncodeTable(u) == EncodeTable(t) + Line(n + 1, Record(1, h))) <==> n == |t|
  {
    hide EncodeTable, Line, Padded, Atoi;
    var data := EncodeTable(t) + Line(n + 1, Record(1, h));
    EncodeLength(t);
    LineFields(n + 1, Record(1, h));
    if n == |t| {
      EncodeAppend(t, Record(1, h));
      OverwriteEnd(EncodeTable(t), Line(n + 1, Record(1, h)));
      TableOkAppend(t, Record(1, h));
    }
    forall u | TableOk(u) && EncodeTable(u) == data ensures n == |t| {
      EncodeLength(u);
      EncodeAt(u, |t|);
      LineFields(|t| + 1, u[|t|]);
      assert data[LINE_LENGTH * |t|..LINE_LENGTH * |t| + LINE_LENGTH] == Line(n + 1, Record(1, h));
      AtoiPadded(n + 1, 3);
      AtoiPadded(|t| + 1, 3);
    }
  }

  /** A file reads back as before if and only if it does not name the block written over, or that block held the same. */
  lemma WrittenOverShows(s: Store, hash: string -> string, p: Path, id: nat, content: string)
    requires Inv(s, hash) && p in s.files
    ensures Contents(s.blocks[id := content], s.files[p]) == Contents(s.blocks, s.files[p])
            <==> id !in s.files[p] || (id in s.blocks && s.blocks[id] == content)
  {
    hide Inv;
    var ids, blocks := s.files[p], s.blocks[id := content];
    forall k: nat | k < |ids| ensures ids[k] in s.blocks {
      ReachableBlocksExist(s, hash, p, k);
    }
    if id in ids && s.blocks[id] != content {
      var k :| 0 <= k < |ids| && ids[k] == id;
      assert Contents(blocks, ids)[k] != Contents(s.blocks, ids)[k];
    }
  }

  /**
   The first block stored after a remount leaves the hashes file a table if and only if no counter was 0, or the
   content has a live record with an id up to the number of blocks. Otherwise its record is appended under an id that
   is not its position, and its block is written over the block of that id.
   */
  method StoreAfterRemount(bbs: BbState, entries: seq<DirEntry>, blockData: string) returns (id: nat)
    requires bbs.Valid() && Inv(bbs.st, bbs.generateHash) && HiddenDir(entries, bbs.blockFiles)
    requires IsHash(bbs.generateHash(CStr(blockData))) && Room(bbs.st.table, bbs.generateHash(CStr(blockData)))
    modifies bbs, bbs.hashesFile
    ensures (exists u :: TableOk(u) && EncodeTable(u) == bbs.hashesFile.data)
            <==> || (forall i | 0 <= i < |old(bbs.st.table)| :: old(bbs.st.table)[i].counter > 0)
                 || Lookup(old(bbs.st.table), bbs.generateHash(CStr(blockData))) <= |old(bbs.st.blocks)|
    ensures (forall u | TableOk(u) :: EncodeTable(u) != bbs.hashesFile.data) ==>
              && id == |old(bbs.st.blocks)| + 1 <= |old(bbs.st.table)|
              && bbs.hashesFile.data == EncodeTable(old(bbs.st.table)) + Line(id, Record(1, bbs.generateHash(CStr(blockData))))
              && BlockDir(old(bbs.st.blocks)[id := CStr(blockData)], bbs.blockFiles)
  {
    hide Inv, BlockDir, HiddenDir, EncodeTable, TableOk, Lookup, Line, CStr, Generate;
    ghost var s, h := bbs.st, bbs.generateHash(CStr(blockData));
    RemountRecoversLastId(s, bbs.generateHash, bbs.blockFiles, entries);
    BlockDirCount(s.blocks, bbs.blockFiles);
    LookupRange(s.table, h);
    TableOkLength(s.table);
    Remount(bbs, entries);
    AppendedIdIsPosition(s.table, if bbs.lastId < 999 then bbs.lastId else 0, h);
    id := bbs.GenerateBlock(blockData);
  }
}
