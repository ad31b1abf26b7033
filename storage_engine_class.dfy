/**
 * The StorageEngine class of db/storage_engine.h: the level lists, the file
 * map and the file id counter it updates in place, with the data folder it
 * creates, renames and removes segments in. The value-level steps its
 * methods are specified by live in module Engine.
 */
module StorageEngines {
  import opened Wrappers
  import opened Coding
  import opened Utils
  import opened Files
  import opened Segments
  import opened Engine
  import Merge
  import StorageBuffers
  import SkipListSpec

  class StorageEngine {
    /** Constant::DataFolder. */
    const folder: string
    const level0Limit: int
    /** Constant::TombValue, which marks a deleted key. */
    const tomb: Bytes
    const buffer: StorageBuffers.StorageBuffer
    var fileId: int
    /** level_files_ and files_map_, which the engine updates together. */
    var tables: Tables
    /** The data folder: path to contents. */
    var disk: Disk
    /** Whether event_compact_ has been notified. */
    var compactNotified: bool

    ghost predicate Valid()
      reads this`tables
    {
      WellFormed(tables)
    }

    /**
     * Reads every entry of the data folder but the hidden ones as a segment,
     * appends it to its level and maps its id, keeps the largest id, then
     * sorts each level by lower bound. names is the directory listing, in
     * the order readdir gives it.
     */
    constructor (folder: string, level0Limit: int, tomb: Bytes, buffer: StorageBuffers.StorageBuffer, disk: Disk, names: seq<string>)
      requires AllOpen(folder, disk, names)
      ensures Valid()
      ensures this.folder == folder && this.level0Limit == level0Limit && this.tomb == tomb && this.buffer == buffer
      ensures this.disk == disk && !compactNotified
      ensures var t := Listing(folder, disk, names, |names|);
        && tables.levels.Keys == t.levels.Keys && tables.files == t.files
        && (forall l :: l in tables.levels ==> multiset(tables.levels[l]) == multiset(t.levels[l]))
        && fileId == LargestId(folder, disk, names, |names|)
    {
      var t, largest := ScanFolder(folder, disk, names);
      ListingLabelled(folder, disk, names, |names|);
      var sorted := SortLevels(t.levels);
      this.folder := folder;
      this.level0Limit := level0Limit;
      this.tomb := tomb;
      this.buffer := buffer;
      this.disk := disk;
      tables := Tables(sorted, t.files);
      fileId := largest;
      compactNotified := false;
    }

    /** Takes the next file id and creates the empty file named for it on the given level. */
    method NewWritableFile(levelId: int) returns (id: int, name: string)
      modifies this
      ensures id == old(fileId) + 1 && fileId == id && name == FileName(levelId, id)
      ensures disk == old(disk)[FilePath(folder, name) := []]
      ensures tables == old(tables) && compactNotified == old(compactNotified)
    {
      fileId := fileId + 1;
      id := fileId;
      name := FileName(levelId, id);
      disk := disk[FilePath(folder, name) := []];
    }

    /**
     * Opens the named segment, inserts it into its level before the first
     * file whose lower bound is not smaller, maps its id, and notifies the
     * compaction event when level 0 holds more files than the limit. ok is
     * false, and nothing changes, where the file does not open.
     */
    method AddFile(name: string) returns (ok: bool)
      requires Valid()
      modifies this
      ensures Valid()
      ensures ok <==> Opens(folder, old(disk), name)
      ensures ok ==> tables == AfterAdd(old(tables), Opened(folder, old(disk), name))
      ensures !ok ==> unchanged(this)
      ensures compactNotified == (old(compactNotified) || (ok && level0Limit >= 0 && |LevelOf(tables.levels, 0)| > level0Limit))
      ensures unchanged(this`disk, this`fileId)
    {
      var t;
      ok, t := AddNamed(folder, disk, tables, name);
      if !ok {
        return;
      }
      tables := t;
      if level0Limit >= 0 && |LevelOf(t.levels, 0)| > level0Limit {
        compactNotified := true;
      }
    }

    /**
     * For each level in ascending order, the files whose range holds the key,
     * newest first. order lists the levels the lists belong to.
     */
    method GetContainsFiles(key: Bytes) returns (lists: seq<seq<File>>, ghost order: seq<int>)
      ensures |lists| == |order|
      ensures forall i, j :: 0 <= i < j < |order| ==> order[i] < order[j]
      ensures forall l :: l in tables.levels <==> l in order
      ensures forall i :: 0 <= i < |order| ==> order[i] in tables.levels && SortedBy(ByNewest, lists[i])
      ensures forall i :: 0 <= i < |order| ==> multiset(lists[i]) == multiset(Scanned(tables.levels[order[i]], key))
      ensures LevelsSorted(tables.levels) ==> forall i :: 0 <= i < |order| ==> multiset(lists[i]) == multiset(Covering(tables.levels[order[i]], key))
    {
      lists, order := ContainsFiles(tables.levels, key);
    }

    /** Adds the key-offset items of a mapped file's index to keyOffset; None where they do not parse. */
    method LoadKeyOffset(id: int, keyOffset: KeyOffset) returns (r: Option<KeyOffset>)
      requires id in tables.files
      ensures r == Loaded(tables.files[id].mmap, keyOffset)
    {
      r := LoadIndex(tables.files[id].mmap, keyOffset);
    }

    /** The value of the record at the offset of a mapped file; None where no record parses there. */
    method GetValueByOffset(id: int, offset: uint32) returns (r: Option<Bytes>)
      requires id in tables.files
      ensures r == ValueAt(tables.files[id].mmap, offset)
    {
      r := ReadValue(tables.files[id].mmap, offset);
    }

    /**
     * Erases the compacted files from their levels and the file map, installs
     * the new ones in order of lower bound, and removes the old files from
     * the folder when needRemove is set.
     */
    method UpdateMapAfterCompaction(compacted: seq<File>, compact: seq<File>, needRemove: bool)
      requires Valid()
      modifies this
      ensures Valid()
      ensures tables == InstallAll(RemoveAll(old(tables), compact), compacted)
      ensures disk == if needRemove then old(disk) - PathsOf(folder, compact) else old(disk)
      ensures fileId == old(fileId) && compactNotified == old(compactNotified)
    {
      var t := RemoveFiles(tables, compact);
      RemoveAllWellFormed(tables, compact);
      InstallAllWellFormed(t, compacted);
      t := InstallFiles(t, compacted);
      tables := t;
      if needRemove {
        disk := DeleteFiles(folder, disk, compact);
      }
    }

    /**
     * Moves a single file one level down: a new id, a rename to the name for
     * it, the file reopened there, and the tables updated without removing
     * anything from the folder. ok is false where the moved file does not open.
     */
    method TrivialMove(f: File) returns (ok: bool)
      requires Valid()
      modifies this
      ensures Valid()
      ensures fileId == old(fileId) + 1
      ensures var name := FileName(f.levelId + 1, fileId);
        && disk == Renamed(old(disk), FilePath(folder, f.fileName), FilePath(folder, name))
        && (ok <==> Opens(folder, disk, name))
        && (ok ==> tables == InstallAll(RemoveAll(old(tables), [f]), [Opened(folder, disk, name)]))
        && (!ok ==> tables == old(tables))
      ensures compactNotified == old(compactNotified)
    {
      ghost var before := tables;
      fileId := fileId + 1;
      var name := FileName(f.levelId + 1, fileId);
      disk := Renamed(disk, FilePath(folder, f.fileName), FilePath(folder, name));
      var r := OpenFile(folder, disk, name);
      if r.None? {
        return false;
      }
      UpdateMapAfterCompaction([r.value], [f], false);
      assert tables == InstallAll(RemoveAll(before, [f]), [r.value]);
      ok := true;
    }

    /**
     * Compacts a level whose file count is past its threshold: its first
     * file (on level 0 with the run of files overlapping it) and the files
     * of the next level it overlaps are moved down one level when that is a
     * single file, and merged into new files of the next level otherwise;
     * then the same level and the next one are compacted again. fuel bounds
     * the depth of that recursion. A level within its threshold is left
     * alone, and so is the engine when a move or a merge fails.
     */
    method Compact(levelId: int, fuel: nat)
      requires Valid()
      modifies this
      ensures Valid()
      ensures fileId >= old(fileId) && compactNotified == old(compactNotified)
      ensures fuel == 0 || WithinLimit(old(tables.levels), level0Limit, levelId) ==> unchanged(this)
      decreases fuel
    {
      if fuel == 0 || WithinLimit(tables.levels, level0Limit, levelId) {
        return;
      }
      var compact, k, upper := CompactionInputs(tables.levels, levelId);
      var ok;
      if |compact| == 1 {
        ok := TrivialMove(compact[0]);
      } else {
        var compacted; ghost var batches, streams, orders;
        ok, compacted, batches, streams, orders := NWayCompaction(compact, levelId);
        if ok {
          UpdateMapAfterCompaction(compacted, compact, true);
        }
      }
      if !ok {
        return;
      }
      Compact(levelId, fuel - 1);
      Compact(levelId + 1, fuel - 1);
    }

    /**
     * Merges the files to compact, newest entry of each key first, drops
     * deleted keys, and flushes each batch the merge cuts into a new file
     * on the next level, opened as it is written. ok is false, with nothing
     * written, where a file to compact does not hold a whole segment or two
     * files to compact share a file id (the C merges those in an unspecified
     * order), and it is false where a flushed file does not open.
     */
    method NWayCompaction(compact: seq<File>, levelId: int)
      returns (ok: bool, compacted: seq<File>, ghost batches: seq<seq<Bytes>>, ghost streams: seq<Bytes>, ghost orders: seq<seq<Bytes>>)
      modifies this
      ensures tables == old(tables) && compactNotified == old(compactNotified)
      ensures fileId == old(fileId) + |streams|
      ensures disk == Written(old(disk), folder, levelId, old(fileId), streams)
      ensures ok ==> Merge.Readable(compact, tomb) && Merge.Mapped32(compact) && Merge.Distinct(Merge.FileIds(compact))
      ensures ok ==> Merge.Joined(batches) == Merge.EntryRecords(Merge.Survivors(Merge.Greedy(Merge.Streams(compact, tomb))))
      ensures ok ==> Merge.Cuts(batches, buffer.bufferSize)
      ensures ok ==> |compacted| == |batches| && Outputs(compacted, batches, streams, orders, levelId, old(fileId))
    {
      batches, streams, orders := [], [], [];
      if !(Merge.Readable(compact, tomb) && Merge.Mapped32(compact) && Merge.Distinct(Merge.FileIds(compact))) {
        return false, [], batches, streams, orders;
      }
      var bufferSize := buffer.BufferSize();
      var cut, sizes := Merge.MergeFiles(compact, tomb, bufferSize);
      forall i | 0 <= i < |cut|
        ensures BatchReady(cut, sizes, i)
      {
        BatchFlushable(cut, bufferSize, i);
      }
      batches := cut;
      ok, compacted, streams, orders := FlushBatches(cut, sizes, levelId);
    }

    /** NWayCompaction's writes: each batch flushed into a new file of the next level and opened, in order. */
    method FlushBatches(batches: seq<seq<Bytes>>, sizes: seq<uint32>, levelId: int)
      returns (ok: bool, compacted: seq<File>, ghost streams: seq<Bytes>, ghost orders: seq<seq<Bytes>>)
      requires forall i :: 0 <= i < |batches| ==> BatchReady(batches, sizes, i)
      modifies this
      ensures tables == old(tables) && compactNotified == old(compactNotified)
      ensures fileId == old(fileId) + |streams|
      ensures disk == Written(old(disk), folder, levelId, old(fileId), streams)
      ensures ok ==> |compacted| == |batches| && Outputs(compacted, batches, streams, orders, levelId, old(fileId))
    {
      compacted, streams, orders := [], [], [];
      var i := 0;
      while i < |batches|
        invariant i <= |batches| && |compacted| == i && Outputs(compacted, batches, streams, orders, levelId, old(fileId))
        invariant tables == old(tables) && compactNotified == old(compactNotified)
        invariant fileId == old(fileId) + i && disk == Written(old(disk), folder, levelId, old(fileId), streams)
      {
        assert BatchReady(batches, sizes, i);
        var f, stream, order := FlushAndOpen(batches[i], sizes[i], levelId);
        WrittenSnoc(old(disk), folder, levelId, old(fileId), streams, fileId, stream);
        if f.None? {
          streams := streams + [stream];
          return false, compacted, streams, orders;
        }
        OutputSnoc(compacted, batches, streams, orders, levelId, old(fileId), fileId, f.value, stream, order);
        compacted, streams, orders := compacted + [f.value], streams + [stream], orders + [order];
        i := i + 1;
      }
      ok := true;
    }

    /** One batch of NWayCompaction: flushed by FlushCompactedFile to the next level, then opened. */
    method FlushAndOpen(batch: seq<Bytes>, size: uint32, levelId: int) returns (f: Option<File>, ghost stream: Bytes, ghost order: seq<Bytes>)
      requires Bounded(batch) && SkipListSpec.AllHaveKeys(batch)
      modifies this
      ensures fileId == old(fileId) + 1
      ensures disk == old(disk)[FilePath(folder, FileName(levelId + 1, fileId)) := stream]
      ensures FlushOf(stream, batch, size, order)
      ensures f.Some? ==> OpenedAs(f.value, FileName(levelId + 1, fileId), stream)
      ensures tables == old(tables) && compactNotified == old(compactNotified)
    {
      var name;
      name, stream, order := FlushCompactedFile(batch, size, levelId + 1);
      f := OpenFile(folder, disk, name);
      if f.Some? {
        OpenedFrom(folder, disk, name);
      }
    }

    /**
     * FlushCompactedFile: a new file on the given level, the batch flushed
     * into it with an empty key-offset map.
     */
    method FlushCompactedFile(content: seq<Bytes>, size: uint32, levelId: int) returns (name: string, ghost stream: Bytes, ghost order: seq<Bytes>)
      requires Bounded(content) && SkipListSpec.AllHaveKeys(content)
      modifies this
      ensures fileId == old(fileId) + 1 && name == FileName(levelId, fileId)
      ensures FlushOf(stream, content, size, order)
      ensures disk == old(disk)[FilePath(folder, name) := stream]
      ensures tables == old(tables) && compactNotified == old(compactNotified)
    {
      ghost var before := disk;
      var id;
      id, name := NewWritableFile(levelId);
      var bytes, offsets, o := buffer.Flush(content, map[], size);
      FlushedOf(bytes, content, size, o, offsets);
      stream, order := bytes, o;
      disk := disk[FilePath(folder, name) := bytes];
      Overwritten(before, FilePath(folder, name), [], bytes);
    }
  }
}
