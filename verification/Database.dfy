/** The database object (`src/database.cpp`), each of whose operations is proved to be a run
    of the step machine over the bytes of its directory. */
module Database {
  import opened ByteUtil
  import opened Results
  import opened WalRecord
  import opened Wal
  import opened FileSystem
  import opened SortedMap
  import opened Entries
  import opened MemTable
  import opened Layers
  import opened SSTableFormat
  import opened SSTable
  import opened FileNames
  import opened Recovery
  import opened Machine
  import opened LiveRefinement
  import opened Runs
  import opened WrittenTables
  import opened DiskOrder
  import opened KillPoints

  function NumberOfPath(path: string): nat {
    if ParseSSTableNumber(path).Number? then ParseSSTableNumber(path).number else 0
  }

  /** An open reader as the machine sees it. */
  ghost function FileOf(r: SSTableReader): File {
    File(NumberOfPath(r.path), r.Contents())
  }

  ghost function FilesOf(rs: seq<SSTableReader>): (fs: seq<File>)
    ensures |fs| == |rs|
    ensures forall i :: 0 <= i < |rs| ==> fs[i] == FileOf(rs[i])
  {
    seq(|rs|, i requires 0 <= i < |rs| => FileOf(rs[i]))
  }

  ghost predicate ReaderOk(r: SSTableReader) {
    r.Valid() && r.path == SSTableFilename(NumberOfPath(r.path))
  }

  ghost predicate ReadersOk(rs: seq<SSTableReader>) {
    forall i :: 0 <= i < |rs| ==> ReaderOk(rs[i])
  }

  lemma PushReader(rs: seq<SSTableReader>, r: SSTableReader)
    requires ReadersOk(rs) && ReaderOk(r)
    ensures ReadersOk(rs + [r]) && FilesOf(rs + [r]) == FilesOf(rs) + [FileOf(r)]
  {
    hide ReaderOk, FileOf;
  }

  // ----- answering from the layers -----

  /** The newest-first search over the readers. */
  method SearchReaders(readers: seq<SSTableReader>, key: Field) returns (found: Option<Entry>)
    requires ReadersOk(readers)
    ensures found == Search(Tables(FilesOf(readers)), key)
  {
    hide SSTableReader.Recs, TableOf, Sorted, ReaderOk, EncodeAll, IndexOf;
    ghost var tables := Tables(FilesOf(readers));
    var i := |readers|;
    assert tables[..i] == tables;
    while i > 0
      invariant 0 <= i <= |readers|
      invariant Search(tables, key) == Search(tables[..i], key)
    {
      i := i - 1;
      ReaderIsValid(readers, i);
      var result, _ := readers[i].Find(key);
      assert tables[..i + 1][..i] == tables[..i];
      if result.value.Some? {
        return result.value;
      }
    }
    return None;
  }

  lemma ReaderIsValid(readers: seq<SSTableReader>, i: nat)
    requires ReadersOk(readers) && i < |readers|
    ensures readers[i].Valid()
  {
  }

  /** All in-range entries of the tables, later tables overwriting earlier ones. */
  method MergeRangesOf(readers: seq<SSTableReader>, start: Field, end: Field) returns (merged: Table)
    requires ReadersOk(readers)
    ensures merged == RangeOf(Merge(Tables(FilesOf(readers))), start, end)
  {
    hide SSTableReader.Recs, TableOf, Sorted, ReaderOk, EncodeAll, IndexOf, Listing, RangeOf, Lists;
    ghost var tables := Tables(FilesOf(readers));
    ghost var ranges := seq(|tables|, i requires 0 <= i < |tables| => RangeOf(tables[i], start, end));
    merged := map[];
    for i := 0 to |readers|
      invariant merged == Merge(ranges[..i])
    {
      ReaderIsValid(readers, i);
      var pairs := readers[i].ScanRaw(start, end);
      merged := AssignAll(merged, pairs.value);
      ListingToMap(ranges[i]);
      assert ranges[..i + 1][..i] == ranges[..i];
    }
    assert ranges[..|readers|] == ranges;
    MergeRanges(tables, ranges, start, end);
  }

  lemma ListingToMap(m: Table)
    ensures ToMap(Listing(m)) == m
  {
    ListsToMap(Listing(m), m);
  }

  /** The live entries of a merged map, in its iteration order. */
  method LiveEntries(merged: Table) returns (results: seq<(Field, Field)>)
    ensures results == Listing(Live(merged))
  {
    hide Less, Listing, ToMap, Lists, Live;
    var listing := Listing(merged);
    results := [];
    EmptyLive();
    assert listing[..0] == [];
    for i := 0 to |listing|
      invariant Lists(results, Live(ToMap(listing[..i])))
    {
      LivePush(listing, merged, results, i);
      if !listing[i].1.isTombstone {
        results := results + [(listing[i].0, listing[i].1.value)];
      }
    }
    assert listing[..|listing|] == listing;
    ListingToMap(merged);
    ListsUnique(results, Listing(Live(merged)), Live(merged));
  }

  lemma EmptyLive()
    ensures Lists([], Live(ToMap([])))
  {
  }

  lemma LivePush(listing: seq<(Field, Entry)>, m: Table, results: seq<(Field, Field)>, i: nat)
    requires Lists(listing, m) && i < |listing|
    requires Lists(results, Live(ToMap(listing[..i])))
    ensures Lists(if listing[i].1.isTombstone then results else results + [(listing[i].0, listing[i].1.value)],
                  Live(ToMap(listing[..i + 1])))
  {
    hide Less, Live, ToMap;
    var before := ToMap(listing[..i]);
    var key, entry := listing[i].0, listing[i].1;
    assert ToMap(listing[..i + 1]) == before[key := entry] by { ToMapPush(listing, i); }
    AscendingLists(listing[..i]);
    BelowNext(listing, before, i);
    LiveUpdate(before, key, entry);
    if !entry.isTombstone {
      forall j | 0 <= j < |results|
        ensures Less(results[j].0, key)
      {
        LiveKeys(before, results[j].0);
      }
      ListsPush(results, Live(before), key, entry.value);
    }
  }

  lemma ToMapPush(listing: seq<(Field, Entry)>, i: nat)
    requires i < |listing|
    ensures ToMap(listing[..i + 1]) == ToMap(listing[..i])[listing[i].0 := listing[i].1]
  {
    assert listing[..i + 1][..i] == listing[..i];
  }

  lemma BelowNext(listing: seq<(Field, Entry)>, before: Table, i: nat)
    requires Ascending(listing) && i < |listing| && Lists(listing[..i], before)
    ensures forall k :: k in before ==> Less(k, listing[i].0)
    ensures listing[i].0 !in before
  {
    hide Less;
    forall k | k in before
      ensures Less(k, listing[i].0)
    {
      assert HasKey(listing[..i], k);
    }
    LessIrreflexive(listing[i].0);
  }

  lemma LiveUpdate(t: Table, key: Field, entry: Entry)
    requires key !in t
    ensures Live(t[key := entry]) == if entry.isTombstone then Live(t) else Live(t)[key := entry.value]
  {
  }

  lemma LiveKeys(t: Table, key: Field)
    requires key in Live(t)
    ensures key in t
  {
  }

  class Database {
    const directory: Directory
    const wal: WriteAheadLog
    const flushThresholdBytes: nat
    const compactionTriggerCount: nat
    var nextSSTableNumber: nat
    var memtable: MemTable
    var sstables: seq<SSTableReader>
    var compactionRequested: bool
    /** Where the background thread is within its loop. */
    ghost var compactor: Compactor

    /** The machine state this object and its directory stand for, nobody holding the lock. */
    ghost function Now(): State
      reads this, directory, memtable
    {
      Up(directory.files, flushThresholdBytes, compactionTriggerCount, nextSSTableNumber, FilesOf(sstables),
         memtable.table, Idle, compactor, compactionRequested)
    }

    ghost predicate Structure()
      reads this, memtable
    {
      wal.directory == directory && wal.path == WAL_NAME && memtable.Valid() && ReadersOk(sstables)
    }

    ghost predicate Valid()
      reads this, directory, memtable
    {
      Structure() && LiveInv(Now())
    }

    /** A flush caused by `op` stays within `size_t` and the 64-bit file numbers. */
    ghost predicate RoomFor(op: Record)
      reads this, directory, memtable
    {
      var mem := memtable.table[op.key := EntryFor(op)];
      TableSize(mem) >= flushThresholdBytes ==> Fits(mem) && nextSSTableNumber + 1 < TWO_64
    }

    constructor (directory: Directory, wal: WriteAheadLog, flushThresholdBytes: nat, compactionTriggerCount: nat,
                 next: nat, memtable: MemTable, sstables: seq<SSTableReader>)
      ensures this.directory == directory && this.wal == wal && this.memtable == memtable
      ensures this.flushThresholdBytes == flushThresholdBytes
      ensures this.compactionTriggerCount == compactionTriggerCount
      ensures nextSSTableNumber == next && this.sstables == sstables && !compactionRequested && compactor == Waiting
    {
      this.directory, this.wal := directory, wal;
      this.flushThresholdBytes, this.compactionTriggerCount := flushThresholdBytes, compactionTriggerCount;
      nextSSTableNumber, this.memtable, this.sstables := next, memtable, sstables;
      compactionRequested, compactor := false, Waiting;
    }

    // ----- reading -----

    method Get(key: Field) returns (value: Option<Field>)
      requires Valid()
      ensures value == if key in Seen(Now()) then Some(Seen(Now())[key]) else None
    {
      hide LiveInv, View, Search, Merge, Tables, FilesOf, ReaderOk;
      GetIsView(Tables(FilesOf(sstables)), memtable.table, key);
      var entry := memtable.Find(key);
      if entry.None? {
        entry := SearchReaders(sstables, key);
      }
      if entry.None? || entry.value.isTombstone {
        return None;
      }
      return Some(entry.value.value);
    }

    /** Every live entry with start <= key < end, in ascending key order. */
    method Scan(start: Field, end: Field) returns (results: seq<(Field, Field)>)
      requires Valid()
      ensures results == Listing(RangeOf(Seen(Now()), start, end))
      ensures forall i, j :: 0 <= i < j < |results| ==> Less(results[i].0, results[j].0)
      ensures forall i :: 0 <= i < |results| ==>
                results[i].0 in Seen(Now()) && Seen(Now())[results[i].0] == results[i].1
      ensures forall k: Field :: HasKey(results, k)
                <==> k in Seen(Now()) && (k == start || Less(start, k)) && Less(k, end)
    {
      hide LiveInv, Merge, Tables, FilesOf, ReaderOk, RangeOf, Listing, Live, Lists;
      var merged := MergeRangesOf(sstables, start, end);
      merged := AssignAll(merged, Listing(RangeOf(memtable.table, start, end)));
      ListingToMap(RangeOf(memtable.table, start, end));
      ghost var below := Merge(Tables(FilesOf(sstables)));
      RangeOfUnion(below, memtable.table, start, end);
      LiveRange(below + memtable.table, start, end);
      results := LiveEntries(merged);
      ListingOfRange(Seen(Now()), start, end);
    }

    // ----- writing -----

    method Put(key: Field, value: Field)
      requires Valid() && RoomFor(Record(RecordType.Put, key, value))
      modifies this, directory, memtable
      ensures var op := Record(RecordType.Put, key, value);
              && Valid() && (memtable == old(memtable) || fresh(memtable))
              && Leads(old(Now()), WriteLabels(old(Now()), op), Now(), WriteTrail(old(Now()), op))
              && directory.trail == old(directory.trail) + WriteTrail(old(Now()), op)
              && Seen(Now()) == old(Seen(Now()))[key := value]
    {
      hide Structure, LiveInv, Seen, RoomFor;
      Write(Record(RecordType.Put, key, value));
    }

    method Remove(key: Field)
      requires Valid() && RoomFor(Record(Delete, key, []))
      modifies this, directory, memtable
      ensures var op := Record(Delete, key, []);
              && Valid() && (memtable == old(memtable) || fresh(memtable))
              && Leads(old(Now()), WriteLabels(old(Now()), op), Now(), WriteTrail(old(Now()), op))
              && directory.trail == old(directory.trail) + WriteTrail(old(Now()), op)
              && Seen(Now()) == old(Seen(Now())) - {key}
    {
      hide Structure, LiveInv, Seen, RoomFor;
      Write(Record(Delete, key, []));
    }

    /** Log, memtable, and a flush when the threshold is reached. */
    method Write(op: Record)
      requires Valid() && Canonical(op) == op && RoomFor(op)
      modifies this, directory, memtable
      ensures Valid() && (memtable == old(memtable) || fresh(memtable))
      ensures Leads(old(Now()), WriteLabels(old(Now()), op), Now(), WriteTrail(old(Now()), op))
      ensures directory.trail == old(directory.trail) + WriteTrail(old(Now()), op)
      ensures Seen(Now()) == Apply(old(Seen(Now())), op)
    {
      hide TableSize, LiveInv, ReadersOk, EncodeRecordValue, Leads, AppendStates, WriteLabels, FilesOf, Seen, Apply,
           EntryFor, Canonical, Step, Exec, Trail, TableOnDisk, MaybeFlushed, FlushTrail, Fits, Structure, Released;
      ghost var s := Now();
      LiveHasLog(s);
      WriteRun(s, op);
      SeenWrite(s, op);
      FoldedReadsBack(s, op);
      LogAndApply(op);
      MaybeFlush(AppliedState(s, op));
    }

    /** The record goes to the log first, then to the memtable. */
    method LogAndApply(op: Record)
      requires Structure() && WAL_NAME in directory.files
      modifies directory, memtable
      ensures Structure() && Now() == Released(AppliedState(old(Now()), op))
      ensures directory.trail
           == old(directory.trail) + AppendStates(old(directory.files), WAL_NAME, EncodeRecordValue(op))
    {
      hide TableSize, ReadersOk, EncodeRecordValue, AppendStates, FilesOf, EntryFor;
      wal.Append(op.kind, op.key, op.value);
      EncodedAs(op);
      memtable.ApplyRecord(op);
    }

    method MaybeFlush(ghost a: State)
      requires Structure() && a.Up? && a.writer.Applied? && Now() == Released(a)
      requires WAL_NAME in a.files && TableOnDisk(a.mem) == a.mem
      requires TableSize(a.mem) >= a.flushThreshold ==> Fits(a.mem) && a.next + 1 < TWO_64
      modifies this, directory
      ensures Structure() && (memtable == old(memtable) || fresh(memtable))
      ensures Now() == Released(MaybeFlushed(a)) && directory.trail == old(directory.trail) + FlushTrail(a)
      ensures |sstables| == |old(sstables)| + if TableSize(a.mem) >= flushThresholdBytes then 1 else 0
      ensures TableSize(a.mem) >= flushThresholdBytes ==> memtable.table == map[]
    {
      hide TableBytes, Fits, TableSize, ReadersOk, WriteStates, FilesOf, SSTableFilename, TmpName, WrittenFiles,
           TableOnDisk;
      if memtable.approximateSizeBytes >= flushThresholdBytes {
        Flush();
      }
    }

    method Flush()
      requires Structure() && WAL_NAME in directory.files && Fits(memtable.table) && nextSSTableNumber + 1 < TWO_64
      requires TableOnDisk(memtable.table) == memtable.table
      modifies this, directory
      ensures Structure() && fresh(memtable) && memtable.table == map[] && compactor == old(compactor)
      ensures FilesOf(sstables) == old(FilesOf(sstables)) + [File(old(nextSSTableNumber), old(memtable.table))]
      ensures nextSSTableNumber == old(nextSSTableNumber) + 1
      ensures directory.files
           == WrittenFiles(old(directory.files), old(nextSSTableNumber),
                           TableBytes(old(memtable.table)))[WAL_NAME := []]
      ensures directory.trail ==
              old(directory.trail) + WriteStates(old(directory.files), SSTableFilename(old(nextSSTableNumber)),
                                                 TableBytes(old(memtable.table))) + [directory.files]
      ensures compactionRequested == (old(compactionRequested) || |sstables| >= compactionTriggerCount)
    {
      hide TableBytes, Fits, WriteStates, SSTableFilename, ParseTable, ReadersOk, ReaderOk, FilesOf, FileOf;
      var path := SSTableFilename(nextSSTableNumber);
      TmpNameIs(nextSSTableNumber);
      NamesDiffer(nextSSTableNumber, nextSSTableNumber);
      WriteSSTable(directory, path, memtable.table);
      var reader := OpenSSTable(directory, path);
      OpenedFresh(reader, nextSSTableNumber, memtable.table);
      PushReader(sstables, reader.value);
      sstables := sstables + [reader.value];
      nextSSTableNumber := nextSSTableNumber + 1;
      wal.Reset();
      memtable := new MemTable();
      MaybeTriggerCompaction();
    }

    // ----- the compaction thread, one critical section or file operation at a time -----

    method StartCompaction()
      requires Valid() && compactionRequested && compactor == Waiting
      modifies this`compactionRequested, this`compactor
      ensures Valid() && Leads(old(Now()), [CompactionStart], Now(), [])
      ensures !compactionRequested && compactor == Started
    {
      hide LiveInv, ReadersOk, FilesOf, TableSize, Step, Leads;
      ghost var s := Now();
      StartPossible(s);
      OneQuick(s, CompactionStart, s.(requested := false, compactor := Started));
      compactionRequested, compactor := false, Started;
    }

    /** Copies the list under the lock; nothing to do with fewer than two tables. */
    method TakeSnapshot() returns (toCompact: Option<seq<SSTableReader>>)
      requires Valid() && compactor == Started
      modifies this`compactor
      ensures Valid() && Leads(old(Now()), [Snapshot], Now(), [])
      ensures toCompact == if |sstables| < 2 then None else Some(sstables)
      ensures compactor == if |sstables| < 2 then Nothing else Merging(FilesOf(sstables))
    {
      hide LiveInv, ReadersOk, FilesOf, TableSize, Step, Leads;
      ghost var s := Now();
      SnapshotPossible(s);
      OneQuick(s, Snapshot, s.(compactor := if |s.sstables| < 2 then Nothing else Merging(s.sstables)));
      compactor := if |sstables| < 2 then Nothing else Merging(FilesOf(sstables));
      toCompact := if |sstables| < 2 then None else Some(sstables);
    }

    method AllocateNumber() returns (number: nat)
      requires Valid() && compactor.Merging? && nextSSTableNumber + 1 < TWO_64
      modifies this`nextSSTableNumber, this`compactor
      ensures Valid() && Leads(old(Now()), [Allocate], Now(), [])
      ensures number == old(nextSSTableNumber) && nextSSTableNumber == number + 1
      ensures compactor == Allocated(old(compactor).snapshot, number)
    {
      hide LiveInv, ReadersOk, FilesOf, TableSize, Step, Leads;
      ghost var s := Now();
      AllocatePossible(s);
      OneQuick(s, Allocate, s.(compactor := Allocated(s.compactor.snapshot, s.next), next := s.next + 1));
      number := nextSSTableNumber;
      nextSSTableNumber := nextSSTableNumber + 1;
      compactor := Allocated(compactor.snapshot, number);
    }

    /** Writes the merged table and opens it. */
    method WriteCompacted(merged: Table, ghost snapshot: seq<File>, number: nat) returns (reader: SSTableReader)
      requires Valid() && compactor == Allocated(snapshot, number)
      requires merged == Compacted(Tables(snapshot)) && Fits(merged)
      modifies this`compactor, directory
      ensures Valid() && compactor == Renamed(snapshot, number)
      ensures ReaderOk(reader) && FileOf(reader) == File(number, merged)
      ensures Leads(old(Now()), CompactWriteLabels(snapshot), Now(),
                    WriteStates(old(directory.files), SSTableFilename(number), TableBytes(merged)))
      ensures directory.trail == old(directory.trail) +
              WriteStates(old(directory.files), SSTableFilename(number), TableBytes(merged))
      ensures directory.files == WrittenFiles(old(directory.files), number, TableBytes(merged))
    {
      hide LiveInv, ReadersOk, FilesOf, TableSize, TableBytes, Fits, WriteStates, SSTableFilename, ParseTable,
           Compacted, CompactWriteLabels, Leads, ReaderOk, FileOf;
      ghost var s := Now();
      CompactWriteRun(s);
      assert number < TWO_64 by { NumberFits(s); }
      TmpNameIs(number);
      CompactedIsOnDisk(Tables(snapshot));
      WriteSSTable(directory, SSTableFilename(number), merged);
      var r := OpenSSTable(directory, SSTableFilename(number));
      OpenedFresh(r, number, merged);
      reader := r.value;
      compactor := Renamed(snapshot, number);
      RunsLive(s, CompactWriteLabels(snapshot), Now(),
               WriteStates(s.files, SSTableFilename(number), TableBytes(merged)));
    }

    /** The swap: one assignment under the lock. The paths of the replaced files are returned. */
    method SwapIn(toCompact: seq<SSTableReader>, reader: SSTableReader, number: nat) returns (oldPaths: seq<string>)
      requires Valid() && compactor == Renamed(FilesOf(toCompact), number)
      requires ReaderOk(reader) && FileOf(reader) == File(number, Compacted(Tables(FilesOf(toCompact))))
      modifies this
      ensures Valid() && memtable == old(memtable)
      ensures Leads(old(Now()), [Swap], Now(), [])
      ensures compactor == Deleting(FilesOf(toCompact)) && |toCompact| <= |old(sstables)|
      ensures sstables == [reader] + old(sstables)[|toCompact|..]
      ensures oldPaths == PathsOf(FilesOf(toCompact))
    {
      hide LiveInv, Compacted, SSTableFilename, TableBytes, Fits, ReaderOk, ReadersOk, TableAt, OpenedTable, Step,
           TableSize, Leads, Tables, FilesOf, PathsOf, FileOf;
      ghost var s := Now();
      SwapHappens(s);
      RunsOne(s, Swap);
      LiveStep(s, Swap);
      var n := |toCompact|;
      SwapLists(sstables, toCompact, reader);
      oldPaths := ReaderPaths(sstables[..n]);
      sstables := [reader] + sstables[n..];
      compactor := Deleting(FilesOf(toCompact));
    }

    /** Deletes one file, unless the file system refuses, which the source ignores. */
    method RemoveOldFile(path: string, refused: bool)
      requires Valid() && compactor.Deleting? && compactor.rest != []
      requires path == SSTableFilename(compactor.rest[0].number)
      modifies this`compactor, directory
      ensures Valid() && compactor == Deleting(old(compactor).rest[1..])
      ensures directory.files == if refused then old(directory.files) else old(directory.files) - {path}
      ensures Leads(old(Now()), [RemovalLabel(refused)], Now(), if refused then [] else [directory.files])
      ensures directory.trail == old(directory.trail) + if refused then [] else [directory.files]
    {
      hide LiveInv, ReadersOk, FilesOf, TableSize, SSTableFilename, Step, Trail, Leads;
      RemovalPossible(Now());
      RunsOne(Now(), RemovalLabel(refused));
      LiveStep(Now(), RemovalLabel(refused));
      if !refused {
        directory.Remove(path);
      }
      compactor := Deleting(compactor.rest[1..]);
    }

    /** The source's CompactOnce, undisturbed: what it does to the directory, step by step, and
        that no answer changes. Between its phases, other calls may run just as well. The file
        system refuses to delete the names in `undeletable`; if there are none, a kill at any
        point reopens to the same contents. */
    method CompactOnce(undeletable: set<string>) returns (ghost labels: seq<Label>, ghost trail: seq<Files>)
      requires Valid() && compactor == Started && nextSSTableNumber + 1 < TWO_64
      requires |sstables| >= 2 ==> Fits(Compacted(Tables(FilesOf(sstables))))
      modifies this, directory
      ensures Valid() && memtable == old(memtable)
      ensures compactor == Nothing || compactor == Deleting([])
      ensures Leads(old(Now()), labels, Now(), trail) && directory.trail == old(directory.trail) + trail
      ensures Seen(Now()) == old(Seen(Now()))
      ensures old(|sstables|) >= 2 ==>
                FilesOf(sstables) == [File(old(nextSSTableNumber), Compacted(Tables(old(FilesOf(sstables)))))]
      ensures directory.files == if old(|sstables|) < 2 then old(directory.files) else
                CompactedFiles(old(directory.files), old(FilesOf(sstables)), old(nextSSTableNumber), undeletable)
      ensures old(Sound(Now())) && undeletable == {} ==>
                forall i :: 0 <= i < |trail| ==> RecoveredView(trail[i]) == Success(old(Seen(Now())))
    {
      hide LiveInv, Leads, Compacted, SSTableFilename, TableBytes, Fits, ReaderOk, WriteStates,
           CompactWriteLabels, FileOf, View, TableSize, EncodeAll, Listing, Sound, RecoveredView, OnlyCompacts,
           Deletable, WrittenFiles, Step, Exec, Trail, Merge, ReadersOk;
      ghost var s := Now();
      ghost var files := FilesOf(sstables);
      var toCompact := TakeSnapshot();
      labels, trail := [Snapshot], [];
      if toCompact.None? {
        return;
      }
      var merged := MergeAndDrop(toCompact.value);
      ghost var t := Now();
      var number := AllocateNumber();
      RunsThen(s, labels, t, trail, [Allocate], Now(), []);
      labels, trail := labels + [Allocate], trail + [];
      t := Now();
      ghost var x := WriteStates(directory.files, SSTableFilename(number), TableBytes(merged));
      var reader := WriteCompacted(merged, files, number);
      RunsThen(s, labels, t, trail, CompactWriteLabels(files), Now(), x);
      labels, trail := labels + CompactWriteLabels(files), trail + x;
      t := Now();
      var oldPaths := SwapIn(toCompact.value, reader, number);
      RunsThen(s, labels, t, trail, [Swap], Now(), []);
      labels, trail := labels + [Swap], trail + [];
      SnapshotReplaced(files, number, memtable.table);
      assert FilesOf(sstables) == [File(number, Compacted(Tables(files)))];
      t := Now();
      ghost var deletions, y := RemoveOldFiles(oldPaths, undeletable, files);
      RunsThen(s, labels, t, trail, deletions, Now(), y);
      labels, trail := labels + deletions, trail + y;
      CompactionKillPoints(s, files, deletions, labels, Now(), trail, undeletable);
    }

    /** The deletion loop, oldest file first. */
    method RemoveOldFiles(oldPaths: seq<string>, undeletable: set<string>, ghost rest: seq<File>)
      returns (ghost labels: seq<Label>, ghost trail: seq<Files>)
      requires Valid() && compactor == Deleting(rest) && oldPaths == PathsOf(rest)
      modifies this`compactor, directory
      ensures Valid() && compactor == Deleting([])
      ensures Leads(old(Now()), labels, Now(), trail) && directory.trail == old(directory.trail) + trail
      ensures OnlyCompacts(labels, undeletable)
      ensures directory.files == old(directory.files) - Deletable(oldPaths, undeletable)
    {
      hide Valid, Now, Leads, Step, Trail, SSTableFilename, OnlyCompacts, Deletable;
      ghost var s := Now();
      labels, trail := [], [];
      RunsNothing(s);
      assert rest[0..] == rest;
      NothingDeleted(oldPaths, undeletable);
      for i := 0 to |oldPaths|
        invariant Valid() && compactor == Deleting(rest[i..])
        invariant Leads(s, labels, Now(), trail) && directory.trail == old(directory.trail) + trail
        invariant OnlyCompacts(labels, undeletable)
        invariant directory.files == old(directory.files) - Deletable(oldPaths[..i], undeletable)
      {
        ghost var t := Now();
        assert rest[i..][0] == rest[i] && rest[i..][1..] == rest[i + 1..];
        var refused := oldPaths[i] in undeletable;
        RemoveOldFile(oldPaths[i], refused);
        ghost var passed := if refused then [] else [directory.files];
        RunsThen(s, labels, t, trail, [RemovalLabel(refused)], Now(), passed);
        OneMoreDeleted(oldPaths, undeletable, labels, i);
        labels, trail := labels + [RemovalLabel(refused)], trail + passed;
      }
      assert oldPaths[..|oldPaths|] == oldPaths;
    }

    method FinishCompaction()
      requires Valid() && (compactor == Nothing || compactor == Deleting([]))
      modifies this`compactor
      ensures Valid() && compactor == Waiting && Leads(old(Now()), [CompactionFinish], Now(), [])
    {
      hide LiveInv, ReadersOk, FilesOf, TableSize, Step, Leads;
      ghost var s := Now();
      FinishPossible(s);
      OneQuick(s, CompactionFinish, s.(compactor := Waiting));
      compactor := Waiting;
    }

    method MaybeTriggerCompaction()
      modifies this`compactionRequested
      ensures compactionRequested == (old(compactionRequested) || |sstables| >= compactionTriggerCount)
    {
      if |sstables| < compactionTriggerCount {
        return;
      }
      compactionRequested := true;
    }
  }

  function RemovalLabel(refused: bool): Label {
    if refused then RemoveFails else RemoveOldest
  }

  /** The names that the deletion loop removes. */
  function Deletable(paths: seq<string>, undeletable: set<string>): set<string> {
    set path | path in paths && path !in undeletable
  }

  /** The directory after a compaction of `fs`: the merged table under `number`, and none of its
      sources but those that cannot be deleted. */
  function CompactedFiles(files: Files, fs: seq<File>, number: nat, undeletable: set<string>): Files {
    WrittenFiles(files, number, TableBytes(Compacted(Tables(fs)))) - Deletable(PathsOf(fs), undeletable)
  }

  lemma NothingDeleted(paths: seq<string>, undeletable: set<string>)
    ensures Deletable(paths[..0], undeletable) == {} && OnlyCompacts([], undeletable)
  {
  }

  lemma OneMoreDeleted(paths: seq<string>, undeletable: set<string>, labels: seq<Label>, i: nat)
    requires i < |paths|
    ensures Deletable(paths[..i + 1], undeletable)
         == Deletable(paths[..i], undeletable) + if paths[i] in undeletable then {} else {paths[i]}
    ensures OnlyCompacts(labels, undeletable) ==>
              OnlyCompacts(labels + [RemovalLabel(paths[i] in undeletable)], undeletable)
  {
    assert paths[..i + 1] == paths[..i] + [paths[i]];
  }

  /** Steps of a compaction, all removals successful if nothing is undeletable. */
  predicate OnlyCompacts(labels: seq<Label>, undeletable: set<string>) {
    undeletable == {} ==> forall i :: 0 <= i < |labels| ==> IsCompactionLabel(labels[i])
  }

  /** The directory states of a whole compaction reopen to what callers saw before it. */
  lemma CompactionKillPoints(s: State, snapshot: seq<File>, deletions: seq<Label>, labels: seq<Label>, t: State,
                             trail: seq<Files>, undeletable: set<string>)
    requires s.Up? && s.writer.Idle? && Leads(s, labels, t, trail) && OnlyCompacts(deletions, undeletable)
    requires labels == [Snapshot] + [Allocate] + CompactWriteLabels(snapshot) + [Swap] + deletions
    ensures Sound(s) && undeletable == {} ==>
              forall i :: 0 <= i < |trail| ==> RecoveredView(trail[i]) == Success(Seen(s))
  {
    hide Sound, Step, Exec, Trail, RecoveredView, Seen, Repeat, CompactedBytes;
    RepeatIs(CompactByte, |CompactedBytes(snapshot)|);
    if Sound(s) && undeletable == {} {
      forall i | 0 <= i < |trail|
        ensures RecoveredView(trail[i]) == Success(Seen(s))
      {
        CompactionIsInvisible(s, labels, i);
      }
    }
  }

  method MergeAndDrop(readers: seq<SSTableReader>) returns (merged: Table)
    requires ReadersOk(readers)
    ensures merged == Compacted(Tables(FilesOf(readers)))
  {
    hide SSTableReader.Valid, TableOf, Records, Merge, DropTombstones;
    assert forall r :: r in readers ==> r.Valid() by {
      forall r | r in readers
        ensures r.Valid()
      {
        var i :| 0 <= i < |readers| && readers[i] == r;
        ReaderIsValid(readers, i);
      }
    }
    var all := MergeSSTables(readers);
    assert TablesOf(readers) == Tables(FilesOf(readers));
    merged := EraseTombstones(all.value);
  }

  /** The erasing loop over the merged map. */
  method EraseTombstones(merged: Table) returns (live: Table)
    ensures live == DropTombstones(merged)
  {
    live := merged;
    var rest := merged.Keys;
    while rest != {}
      invariant rest <= merged.Keys
      invariant live.Keys <= merged.Keys
      invariant forall k :: k in merged && (k in rest || !merged[k].isTombstone) ==> k in live && live[k] == merged[k]
      invariant forall k :: k in live && k !in rest ==> !merged[k].isTombstone
    {
      var k :| k in rest;
      if live[k].isTombstone {
        live := live - {k};
      }
      rest := rest - {k};
    }
    assert forall k :: k in live ==> live[k] == merged[k];
  }

  /** Replacing the whole list by its compaction leaves one table and every answer as it was. */
  lemma SnapshotReplaced(fs: seq<File>, n: nat, mem: Table)
    ensures [File(n, Compacted(Tables(fs)))] + fs[|fs|..] == [File(n, Compacted(Tables(fs)))]
    ensures View(Tables([File(n, Compacted(Tables(fs)))]), mem) == View(Tables(fs), mem)
  {
    hide Compacted, View;
    SeenAfterSwap(fs, fs, n, mem);
  }

  function PathsOf(fs: seq<File>): (paths: seq<string>)
    ensures |paths| == |fs|
    ensures forall i :: 0 <= i < |fs| ==> paths[i] == SSTableFilename(fs[i].number)
  {
    seq(|fs|, i requires 0 <= i < |fs| => SSTableFilename(fs[i].number))
  }

  /** The lists on both sides of the swap. */
  lemma SwapLists(readers: seq<SSTableReader>, toCompact: seq<SSTableReader>, reader: SSTableReader)
    requires ReadersOk(readers) && ReaderOk(reader) && FilesOf(toCompact) <= FilesOf(readers)
    ensures var n := |toCompact|;
            && n <= |readers| && ReadersOk(readers[..n]) && ReadersOk([reader] + readers[n..])
            && FilesOf(readers[..n]) == FilesOf(toCompact)
            && FilesOf([reader] + readers[n..]) == [FileOf(reader)] + FilesOf(readers)[n..]
  {
    hide ReaderOk, FileOf;
    var n := |toCompact|;
    assert FilesOf(readers[..n]) == FilesOf(readers)[..n];
  }

  method ReaderPaths(readers: seq<SSTableReader>) returns (paths: seq<string>)
    requires ReadersOk(readers)
    ensures paths == PathsOf(FilesOf(readers))
  {
    hide ReaderOk, ReadersOk, FilesOf, FileOf, PathsOf, SSTableFilename;
    paths := [];
    ghost var fs := FilesOf(readers);
    assert PathsOf(fs[..0]) == [];
    for i := 0 to |readers|
      invariant paths == PathsOf(fs[..i])
    {
      PathIs(readers, i);
      PathsNext(fs, i);
      paths := paths + [readers[i].path];
    }
    assert fs[..|readers|] == fs;
  }

  lemma PathsNext(fs: seq<File>, i: nat)
    requires i < |fs|
    ensures PathsOf(fs[..i + 1]) == PathsOf(fs[..i]) + [SSTableFilename(fs[i].number)]
  {
    hide SSTableFilename;
  }

  lemma PathIs(readers: seq<SSTableReader>, i: nat)
    requires ReadersOk(readers) && i < |readers|
    ensures readers[i].path == SSTableFilename(FilesOf(readers)[i].number)
  {
  }

  lemma NumberFits(s: State)
    requires s.Up? && LiveInv(s) && s.compactor.Allocated?
    ensures s.compactor.number < TWO_64
  {
    hide WriterInv;
  }

  lemma CompactedIsOnDisk(tables: seq<Table>)
    ensures TableOnDisk(Compacted(tables)) == Compacted(tables)
  {
    hide Merge;
  }

  /** The swap is possible and puts exactly the merged table in place of its sources. */
  lemma SwapHappens(s: State)
    requires s.Up? && LiveInv(s) && s.compactor.Renamed? && s.writer.Idle?
    ensures var snapshot, n := s.compactor.snapshot, s.compactor.number;
            && snapshot <= s.sstables
            && Step(s, Swap) == Some(s.(sstables := [File(n, Compacted(Tables(snapshot)))] + s.sstables[|snapshot|..],
                                        compactor := Deleting(snapshot)))
  {
    hide SSTableFilename, TableBytes, OpenedTable, Compacted, WriterInv, WriterStep;
    CompactedReadsBack(Tables(s.compactor.snapshot));
    assert s.sstables[..|s.compactor.snapshot|] == s.compactor.snapshot;
  }

  // ----- opening a store -----

  predicate OnlyRecovers(labels: seq<Label>) {
    forall i :: 0 <= i < |labels| ==> IsRecoveryLabel(labels[i])
  }

  /** Leftover temporary files go first. */
  method CleanTemporaryFiles(directory: Directory) returns (ghost labels: seq<Label>, ghost trail: seq<Files>)
    modifies directory
    ensures forall name :: name in directory.files ==>
              name in old(directory.files) && directory.files[name] == old(directory.files)[name]
    ensures forall name :: name in old(directory.files) && !HasTmpExtension(name) ==> name in directory.files
    ensures forall name :: name in directory.files ==> !HasTmpExtension(name)
    ensures OnlyRecovers(labels)
    ensures Leads(Down(old(directory.files)), labels, Down(directory.files), trail)
    ensures directory.trail == old(directory.trail) + trail
  {
    hide Leads, HasTmpExtension;
    ghost var s := Down(directory.files);
    labels, trail := [], [];
    RunsNothing(s);
    var names := directory.files.Keys;
    while names != {}
      invariant names <= directory.files.Keys
      invariant forall name :: name in directory.files ==>
                  name in old(directory.files) && directory.files[name] == old(directory.files)[name]
      invariant forall name :: name in old(directory.files) && !HasTmpExtension(name) ==> name in directory.files
      invariant forall name :: name in directory.files && HasTmpExtension(name) ==> name in names
      invariant OnlyRecovers(labels)
      invariant Leads(s, labels, Down(directory.files), trail)
      invariant directory.trail == old(directory.trail) + trail
    {
      var name :| name in names;
      names := names - {name};
      if HasTmpExtension(name) {
        RunsStep(s, labels, Down(directory.files), trail, CleanTmp(name));
        directory.Remove(name);
        labels, trail := labels + [CleanTmp(name)], trail + [directory.files];
      }
    }
  }

  /** The numbers of the tables in the directory, sorted. */
  method ListNumbers(files: Files) returns (numbers: Result<seq<nat>>)
    ensures numbers == if exists name :: name in files && ParseSSTableNumber(name).OutOfRange?
                       then Failure(NumberOutOfRange) else Success(Sort(SSTableNumbers(files)))
  {
    hide ParseSSTableNumber, Sort;
    var found: set<nat> := {};
    var names := files.Keys;
    while names != {}
      invariant names <= files.Keys
      invariant forall name :: name in files && name !in names ==> !ParseSSTableNumber(name).OutOfRange?
      invariant found == set name | name in files && name !in names && ParseSSTableNumber(name).Number?
                           :: ParseSSTableNumber(name).number
    {
      var name :| name in names;
      names := names - {name};
      var parsed := ParseSSTableNumber(name);
      if parsed.OutOfRange? {
        return Failure(NumberOutOfRange);
      }
      if parsed.Number? {
        found := found + {parsed.number};
      }
    }
    assert found == SSTableNumbers(files);
    return Success(Sort(found));
  }

  lemma NumbersFit(files: Files)
    ensures forall n :: n in SSTableNumbers(files) ==> n < TWO_64
  {
  }

  /** A reader opened on any table file of a store. */
  lemma OpenedStored(r: Result<SSTableReader>, n: nat, contents: Bytes)
    requires n < TWO_64 && IsWritten(contents) && Opens(r, SSTableFilename(n), ParseTable(contents))
    ensures r.Success? && OpenedTable(contents).Success?
    ensures ReaderOk(r.value) && FileOf(r.value) == File(n, OpenedTable(contents).value)
  {
    hide ParseTable, TableBytes, Fits, ParseSSTableNumber, SSTableFilename, DataSection, IndexOf, TableOnDisk;
    var m: Table :| Fits(m) && contents == TableBytes(m);
    ParseWritten(m);
    ParseFilename(n);
    ReaderOfWritten(r.value, m);
    OpenWritten(m);
  }

  /** The first `i` tables have been opened as `fs`; the outcome depends on the others. */
  ghost predicate Continues(files: Files, ns: seq<nat>, i: nat, fs: seq<File>)
    requires i <= |ns|
  {
    match OpenAll(files, ns[i..])
    case Success(rest) => OpenAll(files, ns) == Success(fs + rest)
    case Failure(e) => OpenAll(files, ns) == Failure(e)
  }

  lemma OpenStarts(files: Files, ns: seq<nat>)
    ensures Continues(files, ns, 0, [])
  {
    assert ns[0..] == ns;
    assert OpenAll(files, ns).Success? ==> [] + OpenAll(files, ns).value == OpenAll(files, ns).value;
  }

  lemma OpenNext(files: Files, ns: seq<nat>, i: nat, fs: seq<File>)
    requires i < |ns| && Continues(files, ns, i, fs)
    ensures var path := SSTableFilename(ns[i]);
            && (path !in files ==> OpenAll(files, ns) == Failure(NoSuchFile))
            && (path in files && OpenedTable(files[path]).Success? ==>
                  Continues(files, ns, i + 1, fs + [File(ns[i], OpenedTable(files[path]).value)]))
  {
    hide SSTableFilename, OpenedTable;
    assert ns[i..][0] == ns[i] && ns[i..][1..] == ns[i + 1..];
    var path, rest := SSTableFilename(ns[i]), OpenAll(files, ns[i + 1..]);
    if path in files && OpenedTable(files[path]).Success? && rest.Success? {
      var f := File(ns[i], OpenedTable(files[path]).value);
      assert fs + ([f] + rest.value) == fs + [f] + rest.value;
    }
  }

  lemma OpenEnds(files: Files, ns: seq<nat>, fs: seq<File>)
    requires Continues(files, ns, |ns|, fs)
    ensures OpenAll(files, ns) == Success(fs)
  {
    assert ns[|ns|..] == [] && fs + [] == fs;
  }

  /** Opens the tables in the order given. */
  method OpenTables(directory: Directory, ns: seq<nat>) returns (readers: Result<seq<SSTableReader>>)
    requires AllWritten(directory.files) && forall n :: n in ns ==> n < TWO_64
    ensures readers.Success? <==> OpenAll(directory.files, ns).Success?
    ensures readers.Success? ==>
              ReadersOk(readers.value) && FilesOf(readers.value) == OpenAll(directory.files, ns).value
    ensures readers.Failure? ==> readers.error == OpenAll(directory.files, ns).error
  {
    hide ParseTable, OpenedTable, SSTableFilename, ParseSSTableNumber, ReaderOk, FileOf, FilesOf, ReadersOk,
         IsWritten, OpenAll, Continues;
    var opens: seq<SSTableReader> := [];
    NoReaders();
    OpenStarts(directory.files, ns);
    for i := 0 to |ns|
      invariant ReadersOk(opens) && Continues(directory.files, ns, i, FilesOf(opens))
    {
      var path := SSTableFilename(ns[i]);
      ParseFilename(ns[i]);
      assert ns[i] in ns;
      OpenNext(directory.files, ns, i, FilesOf(opens));
      var reader := OpenSSTable(directory, path);
      if path !in directory.files {
        return Failure(NoSuchFile);
      }
      assert IsWritten(directory.files[path]);
      OpenedStored(reader, ns[i], directory.files[path]);
      PushReader(opens, reader.value);
      opens := opens + [reader.value];
    }
    OpenEnds(directory.files, ns, FilesOf(opens));
    return Success(opens);
  }

  lemma NoReaders()
    ensures ReadersOk([]) && FilesOf([]) == []
  {
  }

  /** Recovery looks only at files named as tables. */
  ghost predicate SameTableFiles(before: Files, after: Files) {
    forall name :: !ParseSSTableNumber(name).NotAnSSTable? ==>
      (name in before <==> name in after) && (name in before && name in after ==> before[name] == after[name])
  }

  lemma SameRecovery(before: Files, after: Files)
    requires SameTableFiles(before, after)
    ensures RecoverTables(after) == RecoverTables(before)
    ensures AllWritten(before) ==> AllWritten(after)
  {
    hide ParseSSTableNumber, OpenedTable, SSTableFilename, IsWritten, OpenAll, Sort;
    assert SSTableNumbers(after) == SSTableNumbers(before);
    SameTables(before, after, Sort(SSTableNumbers(before)));
  }

  lemma {:induction false} SameTables(before: Files, after: Files, ns: seq<nat>)
    requires SameTableFiles(before, after)
    ensures OpenAll(after, ns) == OpenAll(before, ns)
  {
    hide ParseSSTableNumber, OpenedTable, SSTableFilename;
    if ns != [] {
      ParseFilename(ns[0]);
      SameTables(before, after, ns[1..]);
    }
  }

  lemma CleanedTables(before: Files, after: Files)
    requires forall name :: name in after ==> name in before && after[name] == before[name]
    requires forall name :: name in before && !HasTmpExtension(name) ==> name in after
    ensures SameTableFiles(before, after)
  {
    hide ParseSSTableNumber, HasTmpExtension;
    forall name | !ParseSSTableNumber(name).NotAnSSTable?
      ensures !HasTmpExtension(name)
    {
      if HasTmpExtension(name) {
        TmpNotTable(name);
      }
    }
  }

  lemma LogIsNoTable(files: Files, contents: Bytes)
    ensures SameTableFiles(files, files[WAL_NAME := contents])
  {
    TmpOnly(0);
  }

  lemma RecoveryFromListing(files: Files)
    ensures RecoverTables(files) ==
            if exists name :: name in files && ParseSSTableNumber(name).OutOfRange? then Failure(NumberOutOfRange)
            else OpenAll(files, Sort(SSTableNumbers(files)))
  {
  }

  lemma FoldNothing()
    ensures FoldRecords([]) == map[]
  {
  }

  lemma RecoveredViewIs(files: Files)
    requires RecoverTables(files).Success?
    ensures RecoveredView(files)
         == Success(View(Tables(RecoverTables(files).value), FoldRecords(Records(LogBytes(files)))))
  {
    hide RecoverTables, Records, FoldRecords, View;
  }

  lemma LastNumber(files: Files, ns: seq<nat>)
    requires OpenAll(files, ns).Success?
    ensures NextNumber(OpenAll(files, ns).value) == if ns == [] then 1 else ns[|ns| - 1] + 1
  {
    hide OpenAll;
    OpenAllNumbers(files, ns);
  }

  /** The directory that recovery leaves: no temporary files, and the log cut after its last good
      record, or new. */
  function RecoveredFiles(files: Files): Files {
    var log := if "wal.log" in files then files["wal.log"] else [];
    (map name | name in files && !HasTmpExtension(name) :: files[name])["wal.log" := log[..ValidEnd(log)]]
  }

  lemma CleanedAre(before: Files, after: Files)
    requires forall name :: name in after ==> name in before && after[name] == before[name]
    requires forall name :: name in before && !HasTmpExtension(name) ==> name in after
    requires forall name :: name in after ==> !HasTmpExtension(name)
    ensures RecoveredFiles(before) == after["wal.log" := LogBytes(after)[..ValidEnd(LogBytes(after))]]
  {
    hide HasTmpExtension, ValidEnd;
    TmpOnly(0);
  }

  /** The constructor. It fails exactly when recovery cannot list or open the tables, and
      otherwise yields the store that the machine's recovery steps reach. */
  method OpenDatabase(directory: Directory, flushThresholdBytes: nat, compactionTriggerCount: nat)
    returns (r: Result<Database>, ghost labels: seq<Label>, ghost trail: seq<Files>)
    requires AllWritten(directory.files)
    requires RecoverTables(directory.files).Success? ==>
               NextNumber(RecoverTables(directory.files).value) < TWO_64
    modifies directory
    ensures r.Success? <==> RecoverTables(old(directory.files)).Success?
    ensures r.Failure? ==> r.error == RecoverTables(old(directory.files)).error
    ensures r.Success? ==>
              && fresh(r.value) && fresh(r.value.memtable) && r.value.directory == directory && r.value.Valid()
              && r.value.flushThresholdBytes == flushThresholdBytes
              && r.value.compactionTriggerCount == compactionTriggerCount
              && r.value.nextSSTableNumber == NextNumber(RecoverTables(old(directory.files)).value)
              && FilesOf(r.value.sstables) == RecoverTables(old(directory.files)).value
              && r.value.memtable.table == FoldRecords(Records(LogBytes(old(directory.files))))
              && !r.value.compactionRequested && r.value.compactor == Waiting
              && directory.files == RecoveredFiles(old(directory.files))
              && Leads(Down(old(directory.files)), labels, r.value.Now(), trail)
              && directory.trail == old(directory.trail) + trail
              && Success(Seen(r.value.Now())) == RecoveredView(old(directory.files))
              && (DiskInv(Down(old(directory.files))) ==>
                    forall i :: 0 <= i < |trail| ==> RecoveredView(trail[i]) == RecoveredView(old(directory.files)))
  {
    hide Leads, RecoverTables, ParseSSTableNumber, OpenedTable, SSTableFilename, HasTmpExtension, Records,
         ValidEnd, ReaderOk, AllWritten, LiveInv, OpenAll, Sort, FoldRecords, View, SameTableFiles,
         Database.Valid, NextNumber, RecoveredView, FilesOf, Seen, DiskInv, OnlyRecovers;
    ghost var initial := directory.files;
    labels, trail := CleanTemporaryFiles(directory);
    ghost var cleaned := directory.files;
    CleanedTables(initial, cleaned);
    CleanedAre(initial, cleaned);
    SameRecovery(initial, cleaned);
    RecoveryFromListing(cleaned);
    TmpOnly(0);
    assert LogBytes(cleaned) == LogBytes(initial);
    var numbers := ListNumbers(directory.files);
    if numbers.Failure? {
      return Failure(numbers.error), labels, trail;
    }
    NumbersFit(cleaned);
    var readers := OpenTables(directory, numbers.value);
    if readers.Failure? {
      return Failure(readers.error), labels, trail;
    }
    LastNumber(cleaned, numbers.value);
    RecoveredViewIs(initial);
    var next := if numbers.value == [] then 1 else numbers.value[|numbers.value| - 1] + 1;
    var db;
    db, labels, trail := OpenOn(directory, flushThresholdBytes, compactionTriggerCount, next, readers.value,
                                initial, labels, trail);
    RecoveryKillPoints(initial, labels, db.Now(), trail);
    r := Success(db);
  }

  /** The directory states of recovery reopen to what it started from. */
  lemma RecoveryKillPoints(files: Files, labels: seq<Label>, t: State, trail: seq<Files>)
    requires Leads(Down(files), labels, t, trail) && OnlyRecovers(labels)
    ensures DiskInv(Down(files)) ==>
              forall i :: 0 <= i < |trail| ==> RecoveredView(trail[i]) == RecoveredView(files)
  {
    hide DiskInv, Step, Exec, Trail, RecoveredView, IsRecoveryLabel;
    if DiskInv(Down(files)) {
      forall i | 0 <= i < |trail|
        ensures RecoveredView(trail[i]) == RecoveredView(files)
      {
        RecoveryIsInvisible(files, labels, i);
      }
    }
  }

  /** The log is created if need be, replayed, and cut at the first bad record. */
  method OpenLog(directory: Directory, ghost initial: Files, ghost before: seq<Label>, ghost passed: seq<Files>)
    returns (wal: WriteAheadLog, applied: seq<Record>, ghost labels: seq<Label>, ghost trail: seq<Files>)
    requires Leads(Down(initial), before, Down(directory.files), passed) && OnlyRecovers(before)
    modifies directory
    ensures wal.directory == directory && wal.path == WAL_NAME == "wal.log" && WAL_NAME in directory.files
    ensures applied == Records(LogBytes(old(directory.files))) == Records(directory.files[WAL_NAME])
    ensures Clean(directory.files[WAL_NAME])
    ensures RecoverTables(directory.files) == RecoverTables(old(directory.files))
    ensures var log := LogBytes(old(directory.files));
            directory.files == old(directory.files)["wal.log" := log[..ValidEnd(log)]]
    ensures Leads(Down(initial), labels, Down(directory.files), trail) && OnlyRecovers(labels)
    ensures passed <= trail && directory.trail == old(directory.trail) + trail[|passed|..]
  {
    hide Leads, RecoverTables, Records, ValidEnd, SameTableFiles, Step, AllWritten;
    labels, trail := before, passed;
    ghost var files := directory.files;
    RecoveryEffects(files, 0, 0);
    if WAL_NAME !in files {
      RunsStep(Down(initial), labels, Down(files), trail, CreateLog);
      labels, trail := labels + [CreateLog], trail + [files[WAL_NAME := []]];
      LogIsNoTable(files, []);
      SameRecovery(files, files[WAL_NAME := []]);
    }
    wal := new WriteAheadLog(directory, WAL_NAME);
    ghost var created, contents := directory.files, directory.files[WAL_NAME];
    ReplayNormalises(contents);
    applied := wal.Replay();
    LogIsNoTable(created, contents[..ValidEnd(contents)]);
    SameRecovery(created, directory.files);
    if !Clean(contents) {
      RecoveryEffects(created, 0, 0);
      RunsStep(Down(initial), labels, Down(created), trail, TruncateLog);
      labels, trail := labels + [TruncateLog], trail + [directory.files];
    } else {
      CleanMeans(contents);
      SameFiles(created, WAL_NAME);
    }
  }

  /** The rest of the constructor: the log is replayed into a fresh memtable. */
  method OpenOn(directory: Directory, flushThresholdBytes: nat, compactionTriggerCount: nat, next: nat,
                readers: seq<SSTableReader>, ghost initial: Files, ghost before: seq<Label>, ghost passed: seq<Files>)
    returns (db: Database, ghost labels: seq<Label>, ghost trail: seq<Files>)
    requires ReadersOk(readers) && RecoverTables(directory.files) == Success(FilesOf(readers))
    requires next == NextNumber(FilesOf(readers)) && next < TWO_64
    requires Leads(Down(initial), before, Down(directory.files), passed) && OnlyRecovers(before)
    modifies directory
    ensures fresh(db) && fresh(db.memtable) && db.directory == directory && db.Valid()
    ensures db.flushThresholdBytes == flushThresholdBytes && db.compactionTriggerCount == compactionTriggerCount
    ensures db.nextSSTableNumber == next && db.sstables == readers && !db.compactionRequested
    ensures db.memtable.table == FoldRecords(Records(LogBytes(old(directory.files)))) && db.compactor == Waiting
    ensures var log := LogBytes(old(directory.files));
            directory.files == old(directory.files)["wal.log" := log[..ValidEnd(log)]]
    ensures Leads(Down(initial), labels, db.Now(), trail) && OnlyRecovers(labels)
    ensures passed <= trail && directory.trail == old(directory.trail) + trail[|passed|..]
    ensures Seen(db.Now()) == View(Tables(FilesOf(readers)), FoldRecords(Records(LogBytes(old(directory.files)))))
  {
    hide Leads, RecoverTables, Records, ValidEnd, ReadersOk, LiveInv, FoldRecords, View, NextNumber, FilesOf,
         TableSize, LogBytes, Step;
    var wal, applied;
    wal, applied, labels, trail := OpenLog(directory, initial, before, passed);
    var memtable := new MemTable();
    FoldNothing();
    memtable.ApplyLog(applied, []);
    assert [] + applied == applied;
    db := new Database(directory, wal, flushThresholdBytes, compactionTriggerCount, next, memtable, readers);
    ghost var l := Open(flushThresholdBytes, compactionTriggerCount);
    RecoveryEffects(directory.files, flushThresholdBytes, compactionTriggerCount);
    RunsStep(Down(initial), labels, Down(directory.files), trail, l);
    OpenStep(Down(directory.files), l);
    labels := labels + [l];
    assert trail + [] == trail;
  }

  // ----- what the write path relies on -----

  lemma EncodedAs(op: Record)
    ensures EncodeRecordValue(op) == Encode(op.kind, op.key, op.value)
  {
  }

  /** The memtable after a write is canonical, so it reads back from a table as it is. */
  lemma FoldedReadsBack(s: State, op: Record)
    requires s.Up? && LiveInv(s) && s.writer.Idle?
    ensures TableOnDisk(s.mem[op.key := EntryFor(op)]) == s.mem[op.key := EntryFor(op)]
  {
    hide CompactorInv, Records, ValidEnd;
    var rs := Records(s.files[WAL_NAME]);
    FoldPush(rs, op);
    FoldOnDisk(rs + [op]);
  }

  /** A reader opened on a table just written. */
  lemma OpenedFresh(r: Result<SSTableReader>, n: nat, m: Table)
    requires n < TWO_64 && Fits(m) && TableOnDisk(m) == m
    requires Opens(r, SSTableFilename(n), ParseTable(TableBytes(m)))
    ensures r.Success? && ReaderOk(r.value) && FileOf(r.value) == File(n, m)
  {
    hide ParseTable, TableBytes, Fits, ParseSSTableNumber, SSTableFilename, DataSection, IndexOf, TableOnDisk;
    ParseWritten(m);
    ParseFilename(n);
    ReaderOfWritten(r.value, m);
  }

  /** The view after a whole write. */
  lemma SeenWrite(s: State, op: Record)
    requires s.Up? && WAL_NAME in s.files
    ensures Seen(WriteResult(s, op)) == Apply(Seen(s), op)
  {
    hide View, TableSize, TableBytes, EncodeRecordValue, Apply, EntryFor, SSTableFilename, TmpName;
    var mem := s.mem[op.key := EntryFor(op)];
    SeenApply(Tables(s.sstables), s.mem, op);
    TablesConcat(s.sstables, [File(s.next, mem)]);
    assert Tables([File(s.next, mem)]) == [mem];
    SeenAfterFlush(Tables(s.sstables), mem);
  }
}
