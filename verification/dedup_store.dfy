/**
 our_lib.c and the two callbacks of bbfs.c that drive it, over a hashes file that is read and written
 through seeks, a hidden directory of block files named by their three-digit ids, and a root directory
 of pointer files. The ghost field `st` is the store these bytes stand for.
 */
module DedupStore {
  import opened Wrappers
  import opened DedupText
  import opened DedupTable
  import opened DedupModel
  import opened DedupProperties
  import opened DedupRuns

  /** The hidden directory holds exactly the blocks, each under its three-digit id. */
  ghost predicate BlockDir(blocks: map<nat, string>, dir: map<string, string>) {
    && (forall id | id in blocks :: id <= 999 && Padded(id, ID_LENGTH) in dir && dir[Padded(id, ID_LENGTH)] == blocks[id])
    && (forall name | name in dir :: Atoi(name) in blocks && name == Padded(Atoi(name), ID_LENGTH))
  }

  /** The root directory holds exactly the pointer files. */
  ghost predicate PointerDir(files: map<Path, seq<nat>>, dir: map<Path, string>) {
    && dir.Keys == files.Keys
    && forall p | p in files :: IdsOk(files[p]) && dir[p] == EncodeIds(files[p])
  }

  lemma BlockDirAdd(blocks: map<nat, string>, dir: map<string, string>, id: nat, data: string)
    requires BlockDir(blocks, dir) && id <= 999
    ensures BlockDir(blocks[id := data], dir[Padded(id, ID_LENGTH) := data])
  {
    AtoiPadded(id, ID_LENGTH);
    forall b | b in blocks && b != id ensures Padded(b, ID_LENGTH) != Padded(id, ID_LENGTH) {
      AtoiPadded(b, ID_LENGTH);
    }
  }

  lemma BlockDirRemove(blocks: map<nat, string>, dir: map<string, string>, id: nat)
    requires BlockDir(blocks, dir) && id <= 999
    ensures BlockDir(blocks - {id}, dir - {Padded(id, ID_LENGTH)})
  {
    hide Padded, Atoi;
    AtoiPadded(id, ID_LENGTH);
    var name := Padded(id, ID_LENGTH);
    forall b | b in blocks && b != id ensures Padded(b, ID_LENGTH) in dir - {name} {
      AtoiPadded(b, ID_LENGTH);
    }
    forall other | other in dir - {name} ensures Atoi(other) in blocks - {id} {
      assert other == Padded(Atoi(other), ID_LENGTH);
    }
  }

  /** What reading a record field by field gives. */
  lemma ReadRecord(t: seq<Record>, i: nat)
    requires TableOk(t) && i < |t|
    ensures var data, at := EncodeTable(t), LINE_LENGTH * i;
            && ReadAt(data, at, ID_LENGTH) == Padded(i + 1, ID_LENGTH)
            && ReadAt(data, at + 3, POINTERS_COUNTER_LENGTH) == Padded(t[i].counter, POINTERS_COUNTER_LENGTH)
            && ReadAt(data, at + 5, HASH_SIZE) == t[i].hash
            && Atoi(Padded(i + 1, ID_LENGTH)) == i + 1
            && Atoi(Padded(t[i].counter, POINTERS_COUNTER_LENGTH)) == t[i].counter
            && |Padded(i + 1, ID_LENGTH)| == 3 && |Padded(t[i].counter, POINTERS_COUNTER_LENGTH)| == 2
            && |t[i].hash| == HASH_SIZE
            && |data| == LINE_LENGTH * |t|
  {
    hide Padded, Atoi, EncodeTable, Line, ReadAt;
    EncodeAt(t, i);
    LineFields(i + 1, t[i]);
    FieldWidths(i + 1, t[i].counter);
    var data, at := EncodeTable(t), LINE_LENGTH * i;
    ReadInside(data, at, LINE_LENGTH, 0, ID_LENGTH);
    ReadInside(data, at, LINE_LENGTH, 3, POINTERS_COUNTER_LENGTH);
    ReadInside(data, at, LINE_LENGTH, 5, HASH_SIZE);
  }

  lemma ReadInside(data: string, at: nat, n: nat, a: nat, k: nat)
    requires at + n <= |data| && a + k <= n && k > 0
    ensures ReadAt(data, at + a, k) == data[at..at + n][a..a + k]
  {
    var l, m := data[at..at + n][a..a + k], data[at + a..at + a + k];
    assert |l| == |m| == k && forall j | 0 <= j < k :: l[j] == data[at + a + j] == m[j];
    assert l == m;
  }

  class BbState {
    const generateHash: string -> string
    const hashesFile: ByteFile
    var lastId: nat
    var blockFiles: map<string, string>    // the hidden directory
    var pointerFiles: map<Path, string>    // the root directory
    ghost var st: Store

    constructor (generateHash: string -> string)
      ensures Valid() && st == EmptyStore && this.generateHash == generateHash && fresh(hashesFile)
    {
      this.generateHash := generateHash;
      hashesFile := new ByteFile();
      lastId := 0;
      blockFiles, pointerFiles := map[], map[];
      st := EmptyStore;
    }

    ghost predicate TableStored()
      reads this`st, hashesFile`data
    {
      TableOk(st.table) && hashesFile.data == EncodeTable(st.table)
    }

    /** What a mount starts from: a last id that may be too small. */
    ghost predicate Mounted()
      reads this`st, this`lastId, this`blockFiles, hashesFile`data
    {
      TableStored() && lastId <= |st.table| && BlockDir(st.blocks, blockFiles)
    }

    ghost predicate BlocksStored()
      reads this`st, this`lastId, this`blockFiles, hashesFile`data
    {
      Mounted() && lastId == |st.table|
    }

    ghost predicate Valid()
      reads this, hashesFile`data
    {
      BlocksStored() && PointerDir(st.files, pointerFiles)
    }

    /** The id of the first live record with this hash, or the id after the last. */
    method CompareHashes(hashToCompare: string) returns (id: nat)
      requires TableStored()
      modifies hashesFile`pos
      ensures id == if Lookup(st.table, hashToCompare) <= |st.table| then Lookup(st.table, hashToCompare) else lastId + 1
    {
      hide TableOk, EncodeTable, Padded, Atoi, ReadAt, Lookup;
      LookupDefinition(st.table, hashToCompare);
      var zero := Padded(0, POINTERS_COUNTER_LENGTH);
      AtoiPadded(0, POINTERS_COUNTER_LENGTH);
      hashesFile.Open();
      hashesFile.SeekSet(ID_LENGTH);
      EncodeLength(st.table);
      ghost var t, i := st.table, 0;
      while true
        invariant i <= |t| && if i < |t| then hashesFile.pos == LINE_LENGTH * i + 3 else hashesFile.pos >= |hashesFile.data|
        invariant Lookup(t, hashToCompare) == FirstLive(t, hashToCompare, i)
        decreases |t| - i
      {
        if i < |t| {
          ReadRecord(t, i);
        } else {
          ReadAtEnd(hashesFile.data, hashesFile.pos, POINTERS_COUNTER_LENGTH);
        }
        var usage := hashesFile.Read(POINTERS_COUNTER_LENGTH);
        if |usage| != POINTERS_COUNTER_LENGTH {
          break;
        }
        var hash := hashesFile.Read(HASH_SIZE);
        if |hash| != HASH_SIZE {
          break;
        }
        if hash == hashToCompare && usage != zero {
          assert FirstLive(t, hashToCompare, i) == i + 1;
          hashesFile.SeekCur(-(HASH_SIZE as int) - ID_LENGTH as int - POINTERS_COUNTER_LENGTH as int);
          var digits := hashesFile.Read(ID_LENGTH);
          return Atoi(digits);
        }
        if i + 1 < |t| {
          ReadRecord(t, i + 1);
        } else {
          ReadAtEnd(hashesFile.data, hashesFile.pos, ID_LENGTH);
        }
        var tempId := hashesFile.Read(ID_LENGTH);
        i := i + 1;
      }
      id := lastId + 1;
    }

    /**
     Appends a record for an id after the last, or rewrites the record of an id up to the last with its counter one
     up. The file stays a table unless the id appended is not the number of its record.
     */
    method WriteHash(hash: string, id: nat)
      requires TableStored() && lastId <= |st.table| && 0 < id <= 999 && IsHash(hash)
      requires id <= lastId ==> st.table[id - 1].counter < 99
      modifies hashesFile, this`st
      ensures id <= lastId || id == |old(st.table)| + 1 ==>
                TableStored() && st == old(st).(table := AddRef(old(st.table), hash, id))
      ensures lastId < id <= |old(st.table)| ==>
                st == old(st) && hashesFile.data == EncodeTable(st.table) + Line(id, Record(1, hash))
    {
      hide TableOk, EncodeTable, Padded, Atoi, ReadAt, Overwrite;
      var line;
      hashesFile.Open();
      if id > lastId {
        line := Padded(id, ID_LENGTH) + "01" + hash;
        hashesFile.SeekEnd();
        OneInTwoDigits();
        EncodeAppend(st.table, Record(1, hash));
        OverwriteEnd(hashesFile.data, line);
        if id == |st.table| + 1 {
          TableOkAppend(st.table, Record(1, hash));
        }
      } else {
        var offset := (id - 1) * LINE_LENGTH;
        ReadRecord(st.table, id - 1);
        hashesFile.SeekSet(offset + ID_LENGTH);
        var usage := hashesFile.Read(POINTERS_COUNTER_LENGTH);
        var counter := Atoi(usage);
        counter := counter + 1;
        hashesFile.SeekCur(-(ID_LENGTH as int) - POINTERS_COUNTER_LENGTH as int);
        line := Padded(id, ID_LENGTH) + Padded(counter, POINTERS_COUNTER_LENGTH) + hash;
        EncodeUpdate(st.table, id - 1, Record(counter, hash));
      }
      hashesFile.Write(line);
      if id <= lastId || id == |st.table| + 1 {
        st := st.(table := AddRef(st.table, hash, id));
      }
    }

    /** The block is taken for a new one: no live record up to the last id has its hash. */
    ghost predicate TakenAsNew(h: string)
      reads this`st, this`lastId
    {
      Lookup(st.table, h) > lastId
    }

    /** The id and counter that a write needs still fit their fields of three and two digits. */
    ghost predicate HasRoom(h: string)
      reads this`st, this`lastId
    {
      if TakenAsNew(h) then lastId < 999
      else 0 < Lookup(st.table, h) <= |st.table| && st.table[Lookup(st.table, h) - 1].counter < 99
    }

    /**
     Stores the string in `blockData` once: counts one more pointer to its block, or makes a block for it. With a last
     id that is too small, a block taken for a new one is written over whatever block has the id after the last, and
     its record is appended under that id.
     */
    method GenerateBlock(blockData: string) returns (id: nat)
      requires Mounted()
      requires IsHash(generateHash(CStr(blockData))) && HasRoom(generateHash(CStr(blockData)))
      modifies hashesFile, this`st, this`lastId, this`blockFiles
      ensures lastId == old(lastId) + if old(TakenAsNew(generateHash(CStr(blockData)))) then 1 else 0
      ensures old(lastId == |st.table| || !TakenAsNew(generateHash(CStr(blockData)))) ==>
                && Mounted() && (old(lastId == |st.table|) ==> BlocksStored())
                && st == Generate(old(st), generateHash(CStr(blockData)), CStr(blockData))
                && id == Lookup(old(st.table), generateHash(CStr(blockData))) && id <= 999
      ensures old(lastId < |st.table| && TakenAsNew(generateHash(CStr(blockData)))) ==>
                && st == old(st) && id == lastId == old(lastId) + 1
                && hashesFile.data == EncodeTable(st.table) + Line(id, Record(1, generateHash(CStr(blockData))))
                && BlockDir(st.blocks[id := CStr(blockData)], blockFiles)
    {
      hide TableOk, EncodeTable, Lookup, Padded, CStr, BlockDir, Line;
      var content := CStr(blockData);
      var hash := generateHash(content);
      FirstLiveIsFirst(st.table, hash, 0);
      LookupDefinition(st.table, hash);
      TableOkLength(st.table);
      var lastID := CompareHashes(hash);
      var isNew := lastID > lastId;
      if !isNew {
        WriteHash(hash, lastID);
        return lastID;
      }
      var name := Padded(lastId + 1, ID_LENGTH);
      BlockDirAdd(st.blocks, blockFiles, lastId + 1, content);
      ghost var was, stale := blockFiles, lastId < |st.table|;
      blockFiles := blockFiles[name := ""];
      WriteHash(hash, lastId + 1);
      lastId := lastId + 1;
      blockFiles := blockFiles[name := content];
      assert blockFiles == was[name := content];
      if !stale {
        st := st.(blocks := st.blocks[lastId := content]);
      }
      id := lastId;
    }

    /** Copies one block out of the caller's buffer, stores it, and gives its id in three digits. */
    method WriteBlocks(buf: string, size: nat) returns (formattedId: string, ghost id: nat)
      requires size <= |buf| && size <= BLOCK_SIZE
      requires BlocksStored()
      requires IsHash(generateHash(CStr(buf[..size]))) && Room(st.table, generateHash(CStr(buf[..size])))
      modifies hashesFile, this`st, this`lastId, this`blockFiles
      ensures BlocksStored()
      ensures st == Generate(old(st), generateHash(CStr(buf[..size])), CStr(buf[..size]))
      ensures id == Lookup(old(st.table), generateHash(CStr(buf[..size]))) && id <= 999
      ensures formattedId == Padded(id, ID_LENGTH)
    {
      hide CStr, Padded, Room, Generate, Lookup, TableOk, BlockDir, EncodeTable;
      var blockData := new char[BLOCK_SIZE + 1];
      var i := 0;
      while i < size
        invariant i <= size && blockData[..i] == buf[..i]
        modifies blockData
      {
        blockData[i] := buf[i];
        i := i + 1;
      }
      blockData[i] := NUL;
      assert blockData[..] == buf[..size] + [NUL] + blockData[size + 1..];
      CStrStops(buf[..size], blockData[size + 1..]);
      LookupRange(st.table, generateHash(CStr(buf[..size])));
      var n := GenerateBlock(blockData[..]);
      id := n;
      formattedId := Padded(n, ID_LENGTH);
    }

    /**
     bb_write: stores the block and writes its id at the slot computed from the offset. The pointer file gets
     those three bytes in any case; it is again a list of ids if the slot is one of its own or the next one, and
     holds zero bytes and no list of ids otherwise.
     */
    method BbWrite(path: Path, buf: string, size: nat, offset: nat)
      requires Valid() && path in pointerFiles && size <= |buf| && size <= BLOCK_SIZE
      requires IsHash(generateHash(CStr(buf[..size]))) && Room(st.table, generateHash(CStr(buf[..size])))
      modifies hashesFile, this
      ensures BlocksStored()
      ensures pointerFiles == old(pointerFiles)[path := Overwrite(old(pointerFiles)[path], SlotOf(offset) * ID_LENGTH,
                Padded(Lookup(old(st.table), generateHash(CStr(buf[..size]))), ID_LENGTH))]
      ensures SlotOf(offset) <= |old(st.files)[path]| ==>
                && Valid()
                && st == WriteSlot(old(st), generateHash(CStr(buf[..size])), path, SlotOf(offset), CStr(buf[..size]))
      ensures SlotOf(offset) > |old(st.files)[path]| ==>
                && st == Generate(old(st), generateHash(CStr(buf[..size])), CStr(buf[..size]))
                && NUL in pointerFiles[path] && forall ids: seq<nat> :: EncodeIds(ids) != pointerFiles[path]
    {
      hide CStr, Padded, Room, Generate, Lookup, TableOk, BlockDir, EncodeTable, Overwrite, SlotOf;
      var blocks;
      ghost var id;
      blocks, id := WriteBlocks(buf, size);
      GenerateKeepsFiles(old(st), generateHash(CStr(buf[..size])), CStr(buf[..size]));
      pointerFiles := pointerFiles[path := Overwrite(pointerFiles[path], SlotOf(offset) * ID_LENGTH, blocks)];
      if SlotOf(offset) <= |st.files[path]| {
        PointerDirSet(st.files, old(pointerFiles), path, SlotOf(offset), id);
        st := st.(files := st.files[path := SetSlot(st.files[path], SlotOf(offset), id)]);
      } else {
        GapIsNoId(st.files[path], SlotOf(offset), id);
        assert SlotOf(offset) * ID_LENGTH == ID_LENGTH * SlotOf(offset);
      }
    }

    /** bb_mknod for a regular file: an empty pointer file, unless the path exists. */
    method BbMknod(path: Path)
      requires Valid()
      modifies this`pointerFiles, this`st
      ensures Valid() && st == Exec(old(st), generateHash, Create(path))
    {
      if path !in pointerFiles {
        pointerFiles := pointerFiles[path := ""];
        st := st.(files := st.files[path := []]);
      }
    }

    // ---------------------------------------------------------------- reading

    method ReadBlock(id: string) returns (block: Option<string>)
      ensures block == if id in blockFiles then Some(blockFiles[id]) else None
    {
      block := if id in blockFiles then Some(blockFiles[id]) else None;
    }

    /** Slot `i` of a path names a block file that exists and holds a C string. */
    lemma SlotBlock(path: Path, i: nat)
      requires Valid() && Inv(st, generateHash) && path in st.files && i < |st.files[path]|
      ensures var ids := st.files[path];
              && ReadAt(pointerFiles[path], ID_LENGTH * i, ID_LENGTH) == Padded(ids[i], ID_LENGTH)
              && |Padded(ids[i], ID_LENGTH)| == ID_LENGTH
              && Padded(ids[i], ID_LENGTH) in blockFiles
              && NoNul(blockFiles[Padded(ids[i], ID_LENGTH)])
              && Flatten(Contents(st.blocks, ids[..i + 1])) == Flatten(Contents(st.blocks, ids[..i])) + blockFiles[Padded(ids[i], ID_LENGTH)]
    {
      hide EncodeTable, EncodeIds, Padded, TableOk, HashesUnique, Counted, Flatten;
      var ids := st.files[path];
      ReachableBlocksExist(st, generateHash, path, i);
      ReadId(ids, i);
      FieldWidths(ids[i], 0);
      assert ids[i] in st.blocks && Live(st.table, ids[i]);
      FlattenSlot(st.blocks, ids, i);
    }

    lemma PointerFileLength(path: Path)
      requires Valid() && path in st.files
      ensures |pointerFiles[path]| == ID_LENGTH * |st.files[path]|
    {
      IdsLength(st.files[path]);
    }

    /** The sizes of the blocks that a pointer file names, added up; 0 for a missing file. */
    method GetRealSize(path: Path) returns (totalSize: nat)
      requires Valid() && Inv(st, generateHash)
      ensures totalSize == if path in st.files then |Flatten(Contents(st.blocks, st.files[path]))| else 0
    {
      hide EncodeTable, EncodeIds, Padded, Inv, Flatten, BlockDir, ReadAt;
      totalSize := 0;
      if path !in pointerFiles {
        return;
      }
      PointerFileLength(path);
      ghost var ids, i := st.files[path], 0;
      FlattenNothing(st.blocks, ids);
      var data, pos := pointerFiles[path], 0;
      while true
        invariant i <= |ids| && pos == ID_LENGTH * i
        invariant totalSize == |Flatten(Contents(st.blocks, ids[..i]))|
        decreases |ids| - i
      {
        if i < |ids| {
          SlotBlock(path, i);
        } else {
          ReadAtEnd(data, pos, ID_LENGTH);
        }
        var id := ReadAt(data, pos, ID_LENGTH);
        pos := pos + |id|;
        if |id| < 3 {
          break;
        }
        totalSize := totalSize + |blockFiles[id]|;
        i := i + 1;
      }
      assert ids[..|ids|] == ids;
    }

    /**
     Appends the contents of the file's blocks, in order, to a buffer of get_real_size plus ten bytes; null for
     a missing file. The text never outgrows the buffer.
     */
    method ReadFile(path: Path) returns (fileData: Option<string>)
      requires Valid() && Inv(st, generateHash)
      ensures fileData == if path in st.files then Some(Flatten(Contents(st.blocks, st.files[path]))) else None
    {
      hide EncodeTable, EncodeIds, Padded, Inv, Flatten, BlockDir, ReadAt, CStr;
      var size := GetRealSize(path);
      if path !in pointerFiles {
        return None;
      }
      PointerFileLength(path);
      ghost var ids := st.files[path];
      FlattenNothing(st.blocks, ids);
      var data, pos := pointerFiles[path], 0;
      var numOfBlocks := |data| / ID_LENGTH;
      var text := "";
      for block := 0 to numOfBlocks
        invariant pos == ID_LENGTH * block
        invariant text == Flatten(Contents(st.blocks, ids[..block])) && NoNul(text)
      {
        SlotBlock(path, block);
        var id := ReadAt(data, pos, ID_LENGTH);
        pos := pos + |id|;
        if |id| != ID_LENGTH {
          break;
        }
        var buffer := ReadBlock(id);
        CStrWhole(text);
        CStrWhole(buffer.value);
        text := CStr(text) + CStr(buffer.value);
        FlattenPrefixFits(st.blocks, ids, block + 1);
        assert |text| + 1 <= size + 10;
      }
      assert ids[..|ids|] == ids;
      fileData := Some(text);
    }

    // ---------------------------------------------------------------- deleting

    /** The loop body of delete_blocks: one pointer is taken off the record that `idToDelete` names. */
    method DropPointer(fpath: Path, idToDelete: string, ghost id: nat)
      requires BlocksStored() && BlocksMatch(st.table, st.blocks)
      requires 0 < id <= |st.table| && idToDelete == Padded(id, ID_LENGTH)
      modifies hashesFile, this`st, this`blockFiles, this`pointerFiles
      ensures BlocksStored() && st.files == old(st.files)
      ensures (st.table, st.blocks) == DropRef(old(st.table), old(st.blocks), id)
      ensures pointerFiles == if st.blocks == old(st.blocks) then old(pointerFiles) else old(pointerFiles)[fpath := ""]
      ensures forall b | b in st.blocks :: b in old(st.blocks)
    {
      hide EncodeTable, EncodeIds, Padded, BlockDir, ReadAt, Overwrite, Atoi, TableOk;
      TableOkLength(st.table);
      TableOkAt(st.table, id - 1);
      ReadRecord(st.table, id - 1);
      var idNumber := Atoi(idToDelete);
      var offset := (idNumber - 1) * LINE_LENGTH + ID_LENGTH;
      hashesFile.SeekSet(offset);
      var usage := hashesFile.Read(POINTERS_COUNTER_LENGTH);
      if Atoi(usage) == 0 {
        return;
      }
      if Atoi(usage) == 1 {
        pointerFiles := pointerFiles[fpath := ""];
        BlockDirRemove(st.blocks, blockFiles, idNumber);
        blockFiles := blockFiles - {idToDelete};
      }
      var hash := hashesFile.Read(HASH_SIZE);
      var updated := idToDelete + Padded(Atoi(usage) - 1, POINTERS_COUNTER_LENGTH) + hash;
      hashesFile.SeekCur(-(LINE_LENGTH as int));
      EncodeUpdate(st.table, idNumber - 1, Record(Atoi(usage) - 1, hash));
      hashesFile.Write(updated);
      var (t, b) := DropRef(st.table, st.blocks, idNumber);
      st := st.(table := t, blocks := b);
    }

    /**
     delete_blocks, reading the ids that the pointer file held when it was opened: every listed pointer is taken off
     its record, and the block file of a record that reaches zero is removed. That empties the pointer file.
     */
    method DeleteBlocks(fpath: Path)
      requires Valid() && (fpath in st.files ==> Known(st.table, st.files[fpath])) && BlocksMatch(st.table, st.blocks)
      modifies hashesFile, this`st, this`blockFiles, this`pointerFiles
      ensures BlocksStored() && st.files == old(st.files)
      ensures fpath !in old(st.files) ==> st == old(st) && pointerFiles == old(pointerFiles)
      ensures fpath in old(st.files) ==>
                && (st.table, st.blocks) == DropAll(old(st.table), old(st.blocks), old(st.files)[fpath])
                && pointerFiles == if st.blocks == old(st.blocks) then old(pointerFiles) else old(pointerFiles)[fpath := ""]
    {
      hide EncodeTable, EncodeIds, Padded, BlockDir, ReadAt, DropRef, TableOk, BlocksMatch;
      hashesFile.Open();
      if fpath !in pointerFiles {
        return;
      }
      PointerFileLength(fpath);
      ghost var ids, i := st.files[fpath], 0;
      var pointers, pos := pointerFiles[fpath], 0;
      while true
        invariant i <= |ids| && pos == ID_LENGTH * i
        invariant BlocksStored() && st.files == old(st.files) && |st.table| == |old(st.table)|
        invariant BlocksMatch(st.table, st.blocks)
        invariant (st.table, st.blocks) == DropAll(old(st.table), old(st.blocks), ids[..i])
        invariant forall b | b in st.blocks :: b in old(st.blocks)
        invariant pointerFiles == if st.blocks == old(st.blocks) then old(pointerFiles) else old(pointerFiles)[fpath := ""]
        decreases |ids| - i
      {
        if i < |ids| {
          ReadId(ids, i);
          FieldWidths(ids[i], 0);
          assert ids[..i + 1][..i] == ids[..i];
          DropRefDrops(st.table, st.blocks, ids[i]);
        } else {
          ReadAtEnd(pointers, pos, ID_LENGTH);
        }
        var idToDelete := ReadAt(pointers, pos, ID_LENGTH);
        pos := pos + |idToDelete|;
        if |idToDelete| != 3 {
          break;
        }
        DropPointer(fpath, idToDelete, ids[i]);
        i := i + 1;
      }
      assert ids[..|ids|] == ids;
    }

    /** bb_unlink: the blocks first, then the name. */
    method BbUnlink(path: Path)
      requires Valid() && Inv(st, generateHash)
      modifies hashesFile, this
      ensures Valid() && st == Unlink(old(st), path)
    {
      hide EncodeTable, EncodeIds, BlockDir, TableOk, DropAll, HashesUnique, ContentsHashed, Occurrences;
      DeleteBlocks(path);
      pointerFiles := pointerFiles - {path};
      st := st.(files := st.files - {path});
    }

    // ----------------------------------------------------------------- whole runs

    /** The callback that an operation stands for. */
    method Perform(op: Op)
      requires Valid() && Consistent(st, generateHash) && Permitted(st, generateHash, op)
      modifies hashesFile, this
      ensures Valid() && Consistent(st, generateHash)
      ensures op.WriteAt? ==> op.path in old(st.files) && SlotOf(op.offset) <= |old(st.files)[op.path]|
      ensures op.Remove? && op.path in old(st.files) ==> Known(old(st.table), old(st.files)[op.path])
      ensures st == Exec(old(st), generateHash, op)
      ensures Bytes(st) == PlainExec(Bytes(old(st)), op)
    {
      hide Inv, AllWhole, EncodeTable, EncodeIds, BlockDir, TableOk, Room, NoCollision, CStr, SlotOf, Flatten, WriteSlot, DropAll;
      StepRefines(st, generateHash, op);
      match op {
        case Create(p) =>
          BbMknod(p);
        case WriteAt(p, offset, data) =>
          CStrWhole(data);
          assert data[..|data|] == data;
          BbWrite(p, data, |data|, offset);
        case Remove(p) =>
          BbUnlink(p);
      }
    }

    /** Every callback of a run, one after the other: the store is that of the model, and holds what the plain file system holds. */
    method PerformAll(ops: seq<Op>)
      requires Valid() && Consistent(st, generateHash) && Runs(st, generateHash, ops)
      modifies hashesFile, this
      ensures Valid() && Consistent(st, generateHash)
      ensures st == ExecAll(old(st), generateHash, ops)
      ensures Bytes(st) == PlainAll(Bytes(old(st)), ops)
    {
      hide Consistent, Permitted, Exec, EncodeTable, BlockDir, PlainAll, Bytes, PlainExec;
      ghost var s := st;
      RunsRefine(s, generateHash, ops);
      var i := 0;
      while i < |ops|
        invariant i <= |ops|
        invariant Valid() && Consistent(st, generateHash) && Runs(st, generateHash, ops[i..])
        invariant ExecAll(st, generateHash, ops[i..]) == ExecAll(s, generateHash, ops)
      {
        assert ops[i..][0] == ops[i] && ops[i..][1..] == ops[i + 1..];
        Perform(ops[i]);
        i := i + 1;
      }
    }

    /** After any run, reading a path gives the bytes that the plain file system holds under it, and null if it holds none. */
    method PerformAndRead(ops: seq<Op>, path: Path) returns (fileData: Option<string>)
      requires Valid() && Consistent(st, generateHash) && Runs(st, generateHash, ops)
      modifies hashesFile, this
      ensures Valid() && Consistent(st, generateHash)
      ensures var plain := PlainAll(Bytes(old(st)), ops);
              fileData == if path in plain then Some(plain[path]) else None
    {
      hide EncodeTable, BlockDir, Flatten, Contents, ExecAll, PlainAll, Inv;
      PerformAll(ops);
      assert Inv(st, generateHash);
      fileData := ReadFile(path);
    }
  }

  lemma LookupRange(t: seq<Record>, h: string)
    ensures 0 < Lookup(t, h) <= |t| + 1
    ensures Room(t, h) ==> if Lookup(t, h) > |t| then |t| < 999 else t[Lookup(t, h) - 1].counter < 99
  {
    FirstLiveIsFirst(t, h, 0);
  }

  lemma LookupDefinition(t: seq<Record>, h: string)
    ensures Lookup(t, h) == FirstLive(t, h, 0)
  {}

  lemma OverwriteEnd(data: string, s: string)
    ensures Overwrite(data, |data|, s) == data + s
  {}

  lemma TableOkLength(t: seq<Record>)
    requires TableOk(t)
    ensures |t| <= 999
  {}

  lemma ReadAtEnd(data: string, pos: nat, n: nat)
    ensures pos >= |data| ==> ReadAt(data, pos, n) == ""
  {}

  lemma OneInTwoDigits()
    ensures Padded(1, POINTERS_COUNTER_LENGTH) == "01"
  {
    assert Padded(0, 1) == Padded(0, 0) + [Digit(0)];
  }

  lemma TableOkAppend(t: seq<Record>, r: Record)
    requires TableOk(t) && |t| < 999 && r.counter <= 99 && IsHash(r.hash)
    ensures TableOk(t + [r])
  {}

  lemma {:induction false} CStrStops(a: string, rest: string)
    ensures CStr(a + [NUL] + rest) == CStr(a)
  {
    if a != "" {
      assert (a + [NUL] + rest)[1..] == a[1..] + [NUL] + rest;
      CStrStops(a[1..], rest);
    }
  }

  lemma GenerateKeepsFiles(s: Store, h: string, data: string)
    ensures Generate(s, h, data).files == s.files
  {}

  lemma PointerDirSet(files: map<Path, seq<nat>>, dir: map<Path, string>, p: Path, k: nat, id: nat)
    requires PointerDir(files, dir) && p in files && k <= |files[p]| && id <= 999
    ensures PointerDir(files[p := SetSlot(files[p], k, id)], dir[p := Overwrite(dir[p], k * ID_LENGTH, Padded(id, ID_LENGTH))])
  {
    hide Padded, Overwrite, EncodeIds;
    IdsSet(files[p], k, id);
    assert k * ID_LENGTH == ID_LENGTH * k;
  }

  /** What reading the pointer file id by id gives. */
  lemma ReadId(ids: seq<nat>, i: nat)
    requires IdsOk(ids) && i < |ids|
    ensures ReadAt(EncodeIds(ids), ID_LENGTH * i, ID_LENGTH) == Padded(ids[i], ID_LENGTH)
    ensures |EncodeIds(ids)| == ID_LENGTH * |ids|
  {
    IdsAt(ids, i);
  }

  lemma TableOkAt(t: seq<Record>, i: nat)
    requires TableOk(t) && i < |t|
    ensures t[i].counter <= 99 && IsHash(t[i].hash)
  {}

  lemma FlattenNothing(blocks: map<nat, string>, ids: seq<nat>)
    ensures Flatten(Contents(blocks, ids[..0])) == ""
  {}

  lemma FlattenSlot(blocks: map<nat, string>, ids: seq<nat>, i: nat)
    requires i < |ids| && ids[i] in blocks
    ensures Flatten(Contents(blocks, ids[..i + 1])) == Flatten(Contents(blocks, ids[..i])) + blocks[ids[i]]
  {
    var v := Contents(blocks, ids[..i + 1]);
    assert v[..i] == Contents(blocks, ids[..i]);
  }

  lemma {:induction false} FlattenPrefixFits(blocks: map<nat, string>, ids: seq<nat>, i: nat)
    requires i <= |ids|
    ensures |Flatten(Contents(blocks, ids[..i]))| <= |Flatten(Contents(blocks, ids))|
    decreases |ids|
  {
    if i == |ids| {
      assert ids[..i] == ids;
    } else {
      var n := |ids| - 1;
      FlattenPrefixFits(blocks, ids[..n], i);
      assert ids[..n][..i] == ids[..i];
      assert Contents(blocks, ids)[..n] == Contents(blocks, ids[..n]);
    }
  }
}
