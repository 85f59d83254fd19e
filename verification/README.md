# A verified model of tiny-lsm-kv

This project models the storage engine of tiny-lsm-kv, an LSM-tree key-value store: checksummed
records, the write-ahead log, the memtable, SSTable files with a sparse index, flushes,
background compaction and recovery. It proves that the store answers as one map, live and
after kills at any point, down to the bytes of its directory.

`dafny verify dfyconfig.toml` checks everything.

## How the model is built

- **Bytes and records** (`ByteUtil`, `Crc32`, `CrcVectors`, `WalRecord`, `Wal`). A byte is a number
  below 256; a 32-bit CRC register is its 32 bits, least significant first. The loops of the
  source are methods proved against recursive definitions. For the checksum these are the
  bit-by-bit definition (sample code of section 8 of RFC 1952). `CrcVectors` ties it to 32-bit integers, its
  residue and its check value. Lengths are cast to 32 bits as in the source; `Field` is a byte
  string whose length fits.
- **Tables** (`SortedMap`, `Entries`, `MemTable`, `SSTableFormat`, `SSTable`). A `std::map` is a
  Dafny map with its one ascending listing. `MemTable` and `SSTableReader` are classes; the
  reader's methods are proved against the map that the file was written from.
- **Layers** (`Layers`). Stacks of tables: merge, newest-first search, and what compaction may
  drop.
- **The step machine** (`FileSystem`, `FileNames`, `Recovery`, `Machine`). A state holds the whole
  directory as a map from names to bytes, the in-memory lists, and where the writer and the
  compaction thread are. A step is one file-system effect (a write lands byte by byte) or what
  happens between two lock operations. `Kill` is possible in every state; recovery is itself a
  sequence of steps and may be killed as well.
- **What is proved of it.** `LiveRefinement` (any run from any directory), `DiskOrder` (any run: the
  order of the files on disk, and for exactly which keys a reopened store is wrong),
  `CrashSafety` (quiet runs, with histories of writes), `WrittenTables`, `CompactionRequests`,
  `KillPoints`, `Witnesses`.
- **The object** (`Runs`, `Database`). The class `Database` does the byte work over a `Directory`.
  Each method is proved to be a run of the machine, and to take the directory through exactly
  the states of that run (`Directory.trail` records every one). Any compaction phase may be in
  progress when `Put`, `Remove`, `Get` or `Scan` is called.

The contents shown to callers are `Seen(s)`: the live entries of the merge of all tables under
the memtable. `Apply` is the effect of one write on such contents.

## Where the code is narrower than its comments

- **File numbers.** `CompactOnce` takes its file number after releasing the snapshot lock
  (src/database.cpp:235-265). A flush in between writes newer data under a smaller number.
  Answers of the running store stay right, but the sort of the constructor
  (src/database.cpp:76-80) puts the older data on top. The next compaction does not cure this
  before its own sources are deleted. `FlushInTheWindowLosesAWrite` is a run in which an
  acknowledged write is lost.
- **Failed removals.** The comment at src/database.cpp:299-305 calls them harmless. They are a step
  of the machine (`RemoveFails`), and `FailedRemovalResurrects` is a run in which one brings a
  deleted key back. `SurvivorsSeenIff` and `SurvivorsIff` say exactly when survivors are harmless,
  and `DeletionWindow` that the oldest-first loop is safe wherever it is killed.
- **Both together.** `ReopeningIsRightIffNoStaleKey` gives the exact condition, key by key, in every
  state of every run: a key is answered wrongly after a kill if and only if the compacted table
  hides a newer entry for it that sorts below, or has no entry for it while a table that it
  replaced is still there and does, and nothing newer covers the difference. `CrashSafety` shows
  that this never happens in quiet runs, those without a flush between snapshot and number and
  without a failed removal.
- **DELETE records with a value** are accepted by the decoder; `ReencodeIffCanonical` states when
  decoding and encoding are inverse in that direction.

## Model

| member | source | states |
|---|---|---|
| ByteUtil.PutUint32LE | src/byte_util.h:13-18 | appends the low 32 bits of the value, least significant byte first |
| ByteUtil.PutUint64LE | src/byte_util.h:27-31 | the same for 64 bits, as a loop |
| ByteUtil.GetUint64LE | src/byte_util.h:33-39 | the loop returns the number the eight bytes encode |
| ByteUtil.LittleEndianRoundTrip | src/byte_util.h:13-39 | reading a field back gives the value reduced to the field's width |
| ByteUtil.LittleEndianOfBytes | src/byte_util.h:20-39 | writing what was read gives the same bytes |
| ByteUtil.LittleEndianAt | src/byte_util.h:13-31 | byte i of a field is the number divided by 256 to the i, modulo 256 |
| ByteUtil.LessMeans | src/sstable.cpp:147-168 | the key order is the lexicographic one: at the first difference the smaller key has ended, or has the smaller unsigned byte |
| ByteUtil.LessTotal | src/sstable.cpp:147-168 | any two different keys are ordered one way or the other |
| ByteUtil.LessTransitive | src/sstable.cpp:147-168 | the unsigned lexicographic order of keys is transitive |
| Crc32.MakeCrc32Table | src/wal_record.cpp:16-26 | the nested loops fill entry i with eight bit steps of i |
| Crc32.TableStep | src/wal_record.cpp:38-41 | one table look-up equals the eight bit steps of one byte |
| Crc32.ComputeCrc32 | src/wal_record.cpp:35-43 | the table-driven checksum equals the bit-by-bit checksum |
| Crc32.BitStepsInjective | src/wal_record.cpp:20-22 | register steps are reversible |
| Crc32.WindowRun | src/wal_record.cpp:38-42 | feeding up to four bytes is adding their packed word and stepping it through |
| Crc32.DetectsWindow | src/wal_record.cpp:35-43 | inputs of equal length that differ only within four consecutive bytes have different checksums |
| CrcVectors.StepWord | src/wal_record.cpp:20-22 | one register step is the shift and combination with 0xEDB88320 of a 32-bit integer |
| CrcVectors.Residue | src/wal_record.cpp:35-43 | any data followed by its own checksum has checksum 0x2144DF1C |
| CrcVectors.CheckValue | src/wal_record.cpp:35-43 | the checksum of nothing is 0 and that of "123456789" is 0xCBF43926 |
| WalRecord.EncodeRecord | src/wal_record.cpp:45-64 | checksum, type, 32-bit lengths, key, value; a DELETE stores no value |
| WalRecord.DecodeRecord | src/wal_record.cpp:66-96 | incomplete, corrupt or decoded, in the source's order of tests |
| WalRecord.EncodedLayout | src/wal_record.cpp:45-64 | where each field of an encoded record is, and that PUT is 1 and DELETE is 2 |
| WalRecord.DecodeOutcomes | src/wal_record.cpp:66-89 | incomplete exactly when bytes are missing; corrupt exactly when none are and the checksum is wrong or the type is neither 1 nor 2 |
| WalRecord.DecodesExactly | src/wal_record.cpp:66-96 | a record is decoded if and only if its bytes come first |
| WalRecord.RoundTripIffLengthsFit | src/wal_record.cpp:45-96 | decoding an encoded record, whatever follows, gives it back exactly if and only if both lengths fit 32 bits |
| WalRecord.TornRecord | src/wal_record.cpp:66-83 | every strict prefix of an encoded record is incomplete, with no assumption on checksums |
| WalRecord.PrefixFree | src/wal_record.cpp:45-83 | no encoded record is a strict prefix of another |
| WalRecord.DecodeLocal | src/wal_record.cpp:66-96 | the result depends only on the bytes consumed |
| WalRecord.ReencodeIffCanonical | src/wal_record.cpp:66-96 | a decoded record re-encodes to the bytes consumed if and only if it is a PUT or has no value |
| WalRecord.DetectsChecksumDamage | src/wal_record.cpp:85-89 | altering only the stored checksum is reported as corrupt |
| WalRecord.DetectsWindowDamage | src/wal_record.cpp:85-89 | altering the type byte, or up to four consecutive key and value bytes, is reported as corrupt |
| FileSystem.Directory.WriteAll | src/posix_io.h:24-36 | appends all bytes, passing through every prefix |
| FileSystem.AppendStatesConcat | src/sstable.cpp:72-74 | successive writes pass through the states of one write of everything |
| Wal.WriteAheadLog.constructor | src/wal.cpp:10-18 | the log exists and keeps its contents |
| Wal.WriteAheadLog.Append | src/wal.cpp:26-35 | the file grows by exactly the encoded record |
| Wal.WriteAheadLog.Replay | src/wal.cpp:37-68 | applies all records up to the first bad one and cuts the file right after the last of them |
| Wal.WriteAheadLog.Reset | src/wal.cpp:70-74 | empties the file |
| Wal.ReplayThenMore | src/wal.cpp:51-67 | after truncation, whatever is appended replays as if it stood alone |
| Wal.ReplayStops | src/wal.cpp:51-67 | replay goes from record to record and stops at the first bytes that are none |
| Wal.ReplayNormalises | src/wal.cpp:51-67 | for any bytes, a second replay applies the same records and cuts nothing |
| Wal.AppendAfterReplay | src/wal.cpp:26-67 | appending one record after a replay adds exactly that record to the next replay |
| Wal.TornAppend | src/wal.cpp:51-67 | a record cut short after any clean log is ignored and is exactly what is cut off |
| Wal.TornTail | src/wal.cpp:51-67 | whole records followed by a strict prefix of one more replay to exactly those records and are cut to exactly their length |
| SortedMap.ListsUnique | src/sstable.cpp:36-43 | a map has exactly one ascending listing |
| SortedMap.ListingOfRange | src/database.cpp:141-167 | a range holds exactly the pairs with start <= key < end, ascending |
| MemTable.MemTable.Put | src/memtable.cpp:13-15 | the entry is set and the size counter stays exact |
| MemTable.MemTable.Remove | src/memtable.cpp:17 | a tombstone with an empty value is set and the size counter stays exact |
| MemTable.MemTable.Upsert | src/memtable.cpp:19-28 | the counter grows by the key and value lengths of the new entry less those of the replaced one, stays the sum over all entries, and never underflows |
| MemTable.MemTable.ApplyLog | src/database.cpp:86-92 | replaying a log gives the last-write-wins fold of it with exact size accounting |
| Entries.TableSizeUpsert | src/memtable.cpp:19-28 | how the sum of sizes changes when one entry is set |
| Entries.TableSizeIsSum | src/memtable.cpp:9-28 | the size of a table is the sum of the lengths of all keys and values |
| Entries.LiveOfRecords | src/database.cpp:86-92 | the live entries of a replayed log are the plain fold of its writes |
| SSTableFormat.RecordsOfTable | src/sstable.cpp:36-43 | the records written are sorted and read back as the table, tombstones without value |
| SSTableFormat.ParseEncodedIndex | src/sstable.cpp:121-136 | the index parser inverts the index writer |
| SSTableFormat.ParseWritten | src/sstable.cpp:103-137 | parsing a written file recovers data section and index exactly |
| SSTableFormat.WrittenFooter | src/sstable.cpp:54-58 | the fields of a written file's footer by position: sizes of data and index, number of entries, the four magic bytes |
| SSTableFormat.ParsesIndexExactly | src/sstable.cpp:121-136 | the index parser accepts exactly the encodings of indexes |
| SSTableFormat.ParsesExactly | src/sstable.cpp:103-137 | a file opens, with given data and index, if and only if it is that data, the encoded index and their footer |
| SSTableFormat.ParseFailures | src/sstable.cpp:103-136 | when each of the four failures is reported |
| SSTableFormat.DataSectionRecords | src/sstable.cpp:204-216 | the data section decodes to exactly the records written |
| SSTable.BuildSections | src/sstable.cpp:31-52 | the writer's loops produce the data section and the index of every sixteenth key |
| SSTable.IndexPointsAtRecords | src/sstable.cpp:36-43 | index entry j carries the key of record 16 j and the offset at which it decodes |
| SSTable.WriteSSTable | src/sstable.cpp:54-87 | the file appears under its name in one rename, after passing through every prefix under the temporary name |
| SSTable.ParseFile | src/sstable.cpp:103-137 | the constructor's parse with its four failures |
| SSTable.OpenSSTable | src/sstable.cpp:89-137 | opens what the parse yields, or fails as it does |
| SSTable.ReaderOfWritten | src/sstable.cpp:89-137 | a reader on a written file holds exactly the table |
| SSTable.UpperBound | src/sstable.cpp:147-148 | the first index position whose key is greater |
| SSTable.SSTableReader.Find | src/sstable.cpp:139-174 | returns exactly the table's entry for the key, or nothing; never fails; decodes at most 16 records |
| SSTable.SSTableReader.ScanRaw | src/sstable.cpp:176-202 | returns exactly the entries with start <= key < end in ascending order |
| SSTable.SSTableReader.AllRaw | src/sstable.cpp:204-216 | returns exactly the table in ascending order |
| SSTable.MergeSSTables | src/sstable.cpp:218-226 | the overwriting loop yields the merge of the readers' tables |
| Layers.MergeIsSearch | src/database.cpp:132-138 | the merge answers every key as the newest-first search does |
| Layers.GetIsView | src/database.cpp:120-139 | look-up through memtable and tables is look-up in the contents seen |
| Layers.MergeRanges | src/database.cpp:148-158 | merging ranges is taking the range of the merge |
| Layers.SwapKeepsView | src/database.cpp:246-297 | a compacted table without tombstones answers as its sources, under anything newer |
| Layers.DeletionWindow | src/database.cpp:282-309 | with any number of the oldest sources deleted, the rest under the compacted table answer as before |
| Layers.SurvivorsSeenIff | src/database.cpp:299-309 | under given newer tables and memtable, surviving sources change an answer exactly by a key that is live in them and in nothing above |
| Layers.SurvivorsIff | src/database.cpp:299-309 | surviving sources change no answer, whatever comes later, if and only if each key the compacted table lacks is absent or deleted in them |
| Layers.MisorderedIff | src/database.cpp:76-80 | with replaced tables still there and newer tables sorted below the compacted one, the answer for a key is right if and only if the key is not stale |
| FileNames.ParseFilename | src/database.cpp:15-44 | parsing the name of n gives n for every 64-bit n, and fails beyond |
| FileNames.TableNames | src/database.cpp:22-44 | table names are "sst-", one or more digits, ".sst" |
| FileNames.WhichName | src/database.cpp:15-44 | of the names that parse to a number, the store's own is the one with six digits, or longer without a leading zero |
| FileNames.NameExamples | src/database.cpp:15-19 | the names of tables 1 and 1234567 |
| FileNames.FilenameInjective | src/database.cpp:15-19 | different numbers have different names |
| FileNames.TmpInvisible | src/database.cpp:60-75 | a name with ".tmp" appended is never taken for a table and is removed by recovery |
| FileNames.TmpOnly | src/database.cpp:60-65 | recovery removes neither tables nor the log |
| FileNames.TmpNames | src/database.cpp:60-65 | recovery deletes exactly the names that end in ".tmp" after something |
| Recovery.RecoverExpected | src/database.cpp:70-80 | listing, sorting and opening rebuild exactly the ascending list of the files present |
| Recovery.OpensInOrder | src/database.cpp:77-80 | all tables are opened, each under its own name and number, or the first that cannot be is the failure |
| Recovery.RecoveredAscending | src/database.cpp:76-80 | what recovery opens is ascending and below the next number |
| Recovery.NextNumberIs | src/database.cpp:76-80 | the next number is 1, or one more than the largest found |
| LiveRefinement.LiveStep | src/database.cpp:106-310 | every step of writer, compactor, kill and recovery keeps the live invariant |
| LiveRefinement.FreshTablesOpen | src/database.cpp:185-271 | the readers opened on fresh files never fail |
| LiveRefinement.SeenStep | src/database.cpp:106-297 | only the step into the memtable changes what is seen, by exactly that write |
| LiveRefinement.LiveRefinement | src/database.cpp:106-310 | the same in every run from any directory, with no condition on file numbers |
| DiskOrder.OrderStep | src/database.cpp:185-310 | every step, whatever the file numbers and whether removals succeed or fail, keeps recovery's list equal to known leftovers followed by the machine's files |
| DiskOrder.RecoveryKeeps | src/database.cpp:60-92 | a kill during recovery changes neither tables nor log contents |
| DiskOrder.ReopenedIff | src/database.cpp:48-118 | in any such state reopening succeeds, and answers exactly the stale keys otherwise than what must survive |
| DiskOrder.ReopeningIsRightIffNoStaleKey | src/database.cpp:233-310 | the same in every running state of every run, with any number of kills, compactions, flushes in the window and failed removals: right if and only if no key is stale |
| CrashSafety.QuietOrderStep | src/database.cpp:261-297 | without flushes between snapshot and number, the list stays in number order |
| CrashSafety.QuietLeftStep | src/database.cpp:282-309 | if moreover no removal fails, only sources the deletion loop has not reached are left over, and they are harmless |
| CrashSafety.GenerationOrder | src/database.cpp:70-80 | in quiet runs the sort of the surviving files is their order of age, also between rename and swap |
| CrashSafety.Reopened | src/database.cpp:48-118 | a kill at any point of a quiet run reopens to what was seen, plus the write whose record is complete |
| CrashSafety.CrashSafety | src/database.cpp:48-310 | over all quiet runs with any kills, reopening shows the acknowledged writes in order, for each kill possibly with the write in flight |
| CrashSafety.OneSession | src/database.cpp:106-118 | without a kill the only history allowed is that of the calls that have returned, in order |
| CrashSafety.FirstKill | src/database.cpp:48-310 | the first kill of a quiet run reopens to exactly the writes that had returned, or those and the one begun |
| CrashSafety.AcknowledgedWritesAreSeen | src/database.cpp:106-167 | between writes the store shows exactly such a history |
| WrittenTables.OnlyWrittenTables | src/sstable.cpp:60-87 | in every reachable state each table file is a complete file of the writer |
| CompactionRequests.AccountedStep | src/database.cpp:202-241 | every step keeps excess tables accounted for by a request, a flush or a compaction |
| CompactionRequests.TablesStayBelowLimit | src/database.cpp:174-241 | with nothing pending, the table count is below the larger of two and the trigger |
| CompactionRequests.RequestsAreServed | src/database.cpp:213-241 | over runs: if a pending request is no longer pending later, with no kill between, a compaction started while it was pending, and it works on the whole list of a moment after its start |
| Runs.WriteRun | src/database.cpp:106-118 | a whole put or remove, flush included, as a run with all its directory states |
| Runs.FlushRunAll | src/database.cpp:185-200 | a flush as a run with all its directory states |
| Runs.CompactWriteRun | src/database.cpp:266-271 | writing the compacted file as a run |
| KillPoints.WriteIsAtomic | src/database.cpp:106-118 | every directory state a write passes through reopens to the contents before or after it |
| KillPoints.CompactionIsInvisible | src/database.cpp:233-310 | every directory state a compaction passes through reopens to the same contents, if the run so far is quiet and removals succeed |
| KillPoints.RecoveryIsInvisible | src/database.cpp:48-95 | every directory state the constructor passes through reopens to the contents it started from |
| Witnesses.FlushInTheWindowLosesAWrite | src/database.cpp:233-265 | a run without kills, all writes acknowledged, whose last write callers see and a kill now would lose |
| Witnesses.FailedRemovalResurrects | src/database.cpp:299-309 | a run without kills, all writes acknowledged, whose last write deleted a key that its directory reopens with, because an older file survived |
| Database.SearchReaders | src/database.cpp:132-138 | the reverse loop is the newest-first search |
| Database.MergeRangesOf | src/database.cpp:148-154 | the loop over tables builds the range of their merge |
| Database.LiveEntries | src/database.cpp:160-166 | the live entries in ascending order |
| Database.Database.Get | src/database.cpp:120-139 | exactly the value in the contents seen |
| Database.Database.Scan | src/database.cpp:141-167 | exactly the seen entries with start <= key < end, in ascending order of unsigned bytes |
| Database.Database.Put | src/database.cpp:106-111 | a run of the machine with its directory states, after which the key has the value and nothing else changed |
| Database.Database.Remove | src/database.cpp:113-118 | the same for a removal |
| Database.Database.Write | src/database.cpp:106-118 | what both share, including the threshold test |
| Database.Database.LogAndApply | src/database.cpp:108-109 | the log grows by exactly the record, byte by byte, and the memtable takes the write |
| Database.Database.MaybeFlush | src/database.cpp:179-183 | flushes exactly when the sum of key and value lengths reaches the threshold |
| Database.Database.Flush | src/database.cpp:185-200 | the new file, list, number, log and memtable, and every directory state on the way |
| Database.Database.MaybeTriggerCompaction | src/database.cpp:202-211 | requests a compaction exactly when the trigger is reached |
| Database.Database.StartCompaction | src/database.cpp:215-222 | consumes the request |
| Database.Database.TakeSnapshot | src/database.cpp:234-241 | copies the list, or stops below two tables |
| Database.MergeAndDrop | src/database.cpp:246-259 | the merged table without tombstones |
| Database.Database.AllocateNumber | src/database.cpp:261-265 | takes the next number |
| Database.Database.WriteCompacted | src/database.cpp:266-271 | the compacted file is written and opened |
| Database.Database.SwapIn | src/database.cpp:273-297 | the snapshot is replaced by the compacted table, later tables kept; returns the replaced paths |
| Database.Database.RemoveOldFiles | src/database.cpp:306-309 | deletes the replaced files, oldest first, and exactly those that the file system does not refuse to delete |
| Database.Database.FinishCompaction | src/database.cpp:226-228 | the compaction thread waits again |
| Database.Database.CompactOnce | src/database.cpp:233-310 | the whole compaction as a run: the directory afterwards, one table, no answer changed, and in a quiet run every directory state on the way reopens to the same contents |
| Database.CleanTemporaryFiles | src/database.cpp:60-65 | removes exactly the temporary files |
| Database.ListNumbers | src/database.cpp:70-76 | the sorted numbers of the tables present, or the conversion failure |
| Database.OpenTables | src/database.cpp:77-80 | opens them in order, with valid readers |
| Database.OpenLog | src/database.cpp:85-92 | opens, replays and cuts the log |
| Database.OpenDatabase | src/database.cpp:48-95 | fails exactly when tables cannot be listed or opened; otherwise a valid store in the state recovery reaches, with the directory recovery leaves, showing the recovered contents, which every directory state on the way reopens to |

## Left out

- Reads and writes that fail while the process goes on: the source treats them as violated invariants (include/tinylsm/wal.h:25-29), so no step models them.
- Power loss that reorders or drops completed file-system effects: a kill keeps every completed effect, in order.
- Real threads, condition variables, wake-ups, liveness, and the lifetime of shared readers: steps are atomic between lock operations, and a snapshot is a value.
- The destructor and the shutdown flag: closing a store is a kill while nobody writes.
- `size_t` and file numbers at their limits: a table is written only if its file stays below 2^64 bytes and the next number stays below 2^64.
- Database.Database.Put: keys and values are shorter than 2^32 bytes, the width of the record's length fields; `RoundTripIffLengthsFit` shows what longer ones do.
- Database.Database.Remove: keys are shorter than 2^32 bytes, for the same reason.
- SSTable.SSTableReader.Find: stated for readers of files the writer produced; `OnlyWrittenTables` shows that a store never meets others.
- SSTable.SSTableReader.ScanRaw: the same.
- SSTable.SSTableReader.AllRaw: the same.
- SSTable.MergeSSTables: the same.
- SSTable.ParseFile: the sum of the footer's two fields is not reduced modulo 2^64; only a hand-made footer could tell, and the source would then form a view outside the file's contents.
- Database.ListNumbers: two names for one number, which only foreign files could have, are listed once; the source opens that table twice.
- Database.OpenTables: the directory holds only table files of the writer.
- Database.OpenDatabase: the same, and the last number is below the 64-bit limit; there the source's next number wraps to zero.
- Database.CleanTemporaryFiles: the file system lets every temporary file go; the machine's recovery may skip any of them (`CleanTmp` is never forced before `Open`).
- Wal.WriteAheadLog.Replay: the callback is modelled by the list of records it is called with, in order.
- CrashSafety.CrashSafety: assumes that removals succeed unless the process is killed, and that no flush begins between a compaction's snapshot and its number; `ReopeningIsRightIffNoStaleKey` covers all other runs.
- Claims about arbitrary damage: checksums collide, so only the stated windows are proved to be detected.
- `MemTable::get` and `MemTable::scan`, the interactive shell, the benchmark and the crash harness: they add no property beyond those above.
