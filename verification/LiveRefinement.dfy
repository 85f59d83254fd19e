/** Live refinement: whatever the interleaving and whatever directory a store was opened on,
    `get` and `scan` answer from one map that only `put` and `remove` change. File numbers
    play no part. */
module LiveRefinement {
  import opened ByteUtil
  import opened Results
  import opened WalRecord
  import opened Wal
  import opened FileSystem
  import opened Entries
  import opened Layers
  import opened SSTableFormat
  import opened SSTable
  import opened FileNames
  import opened Recovery
  import opened Machine

  // ----- the invariant -----

  /** The log is a clean prefix, which the memtable reflects, and the first `j` bytes of `op`. */
  ghost predicate PendingWrite(log: Bytes, op: Record, j: nat, mem: Table) {
    && j <= |log| && j <= |EncodeRecordValue(op)|
    && Clean(log[..|log| - j])
    && log[|log| - j..] == EncodeRecordValue(op)[..j]
    && mem == FoldRecords(Records(log[..|log| - j]))
  }

  /** The memtable is what the log replays to. */
  ghost predicate Settled(log: Bytes, mem: Table) {
    Clean(log) && mem == FoldRecords(Records(log))
  }

  ghost predicate LastIs(fs: seq<File>, t: Table) {
    fs != [] && fs[|fs| - 1].table == t
  }

  ghost predicate Holds(files: Files, name: string, contents: Bytes) {
    name in files && files[name] == contents
  }

  ghost predicate WriterInv(s: State)
    requires s.Up? && WAL_NAME in s.files
  {
    var log := s.files[WAL_NAME];
    match s.writer
    case Appending(op, j) =>
      Canonical(op) == op && j < |EncodeRecordValue(op)| && PendingWrite(log, op, j, s.mem)
    case Logged(op) =>
      Canonical(op) == op && PendingWrite(log, op, |EncodeRecordValue(op)|, s.mem)
    case FlushWriting(op, j) =>
      Settled(log, s.mem) && Fits(s.mem) && j <= |TableBytes(s.mem)| && s.next + 1 < TWO_64
      && Holds(s.files, TmpName(s.next), TableBytes(s.mem)[..j])
    case FlushRenamed(op) =>
      Settled(log, s.mem) && Fits(s.mem) && s.next + 1 < TWO_64
      && Holds(s.files, SSTableFilename(s.next), TableBytes(s.mem))
    case FlushOpened(op) => Settled(log, s.mem) && LastIs(s.sstables, s.mem)
    case FlushReset(op) => log == [] && LastIs(s.sstables, s.mem)
    case _ => Settled(log, s.mem)
  }

  ghost predicate CompactorInv(s: State)
    requires s.Up?
  {
    match s.compactor
    case Merging(snapshot) => snapshot <= s.sstables
    case Allocated(snapshot, n) => snapshot <= s.sstables && n < s.next
    case Writing(snapshot, n, j) =>
      var c := Compacted(Tables(snapshot));
      snapshot <= s.sstables && n < s.next && Fits(c) && j <= |TableBytes(c)|
      && Holds(s.files, TmpName(n), TableBytes(c)[..j])
    case Renamed(snapshot, n) =>
      var c := Compacted(Tables(snapshot));
      snapshot <= s.sstables && n < s.next && Fits(c) && Holds(s.files, SSTableFilename(n), TableBytes(c))
    case Deleting(rest) => forall i :: 0 <= i < |rest| ==> rest[i].number < s.next
    case _ => true
  }

  ghost predicate LiveInv(s: State) {
    s.Up? ==>
      && WAL_NAME in s.files
      && s.next < TWO_64
      && (forall i :: 0 <= i < |s.sstables| ==> s.sstables[i].number < s.next)
      && WriterInv(s)
      && CompactorInv(s)
  }

  // ----- reading back what was written -----

  lemma TableBytesFirst(m: Table)
    ensures TableBytes(m)[..0] == [] && TableBytes(m)[..|TableBytes(m)|] == TableBytes(m)
  {
    hide TableBytes;
  }

  lemma TableBytesNext(m: Table, j: nat)
    requires j < |TableBytes(m)|
    ensures TableBytes(m)[..j] + [TableBytes(m)[j]] == TableBytes(m)[..j + 1]
  {
    hide TableBytes;
  }

  lemma MemTableReadsBack(log: Bytes, mem: Table)
    requires Settled(log, mem) && Fits(mem)
    ensures OpenedTable(TableBytes(mem)) == Success(mem)
  {
    hide TableBytes, OpenedTable, FoldRecords, Records, TableOnDisk;
    OpenWritten(mem);
    FoldOnDisk(Records(log));
  }

  lemma CompactedReadsBack(tables: seq<Table>)
    requires Fits(Compacted(tables))
    ensures OpenedTable(TableBytes(Compacted(tables))) == Success(Compacted(tables))
  {
    hide TableBytes, OpenedTable, Merge;
    OpenWritten(Compacted(tables));
    assert TableOnDisk(Compacted(tables)) == Compacted(tables);
  }

  // ----- appending to the log -----

  lemma PendingStart(log: Bytes, op: Record, mem: Table)
    requires Settled(log, mem)
    ensures PendingWrite(log, op, 0, mem)
  {
    hide EncodeRecordValue, Records, ValidEnd, FoldRecords;
    assert log[..|log|] == log;
  }

  lemma PendingByte(log: Bytes, op: Record, j: nat, mem: Table)
    requires PendingWrite(log, op, j, mem) && j < |EncodeRecordValue(op)|
    ensures PendingWrite(log + [EncodeRecordValue(op)[j]], op, j + 1, mem)
  {
    hide EncodeRecordValue, Records, ValidEnd, FoldRecords;
    var e := EncodeRecordValue(op);
    var grown := log + [e[j]];
    assert grown[..|grown| - (j + 1)] == log[..|log| - j];
    assert grown[|grown| - (j + 1)..] == log[|log| - j..] + [e[j]] == e[..j + 1];
  }

  lemma PendingDone(log: Bytes, op: Record, mem: Table)
    requires PendingWrite(log, op, |EncodeRecordValue(op)|, mem) && Canonical(op) == op
    ensures Settled(log, mem[op.key := EntryFor(op)])
  {
    hide EncodeRecordValue, Records, ValidEnd, FoldRecords;
    var base := log[..|log| - |EncodeRecordValue(op)|];
    assert log == base + EncodeRecordValue(op);
    CleanAppend(base, op);
    FoldPush(Records(base), op);
  }

  lemma EmptyLogSettled()
    ensures Settled([], map[])
  {
    NothingToReplay([]);
  }

  // ----- the writer -----

  lemma AppendSteps(s: State, l: Label)
    requires s.Up? && LiveInv(s) && Step(s, l).Some?
    requires l.Begin? || l.AppendByte? || l.ApplyToMemTable? || l.Return?
    ensures LiveInv(Step(s, l).value)
  {
    hide SSTableFilename, TmpName, TableBytes, EncodeRecordValue, Records, ValidEnd, FoldRecords, TableSize,
         PendingWrite, Settled, Compacted, LastIs, Canonical, EntryFor;
    var t, log := Step(s, l).value, s.files[WAL_NAME];
    NamesDiffer(s.next, s.next);
    match s.writer {
      case Idle =>
        PendingStart(log, l.op, s.mem);
      case Appending(op, j) =>
        PendingByte(log, op, j, s.mem);
        OtherFilesKept(s, t, WAL_NAME);
      case Logged(op) =>
        PendingDone(log, op, s.mem);
      case _ =>
    }
  }

  /** The compactor's files survive a change of any other file. */
  lemma OtherFilesKept(s: State, t: State, name: string)
    requires s.Up? && LiveInv(s)
    requires t.Up? && t.compactor == s.compactor && s.next <= t.next && s.sstables <= t.sstables
    requires forall n :: n in s.files && n != name ==> n in t.files && t.files[n] == s.files[n]
    requires name == WAL_NAME || name == TmpName(s.next) || name == SSTableFilename(s.next)
    ensures CompactorInv(t)
  {
    hide SSTableFilename, TmpName, TableBytes, Compacted, WriterInv;
    match s.compactor {
      case Writing(snapshot, n, j) =>
        NamesDiffer(n, s.next);
        NamesDiffer(s.next, n);
      case Renamed(snapshot, n) =>
        NamesDiffer(n, s.next);
        NamesDiffer(s.next, n);
      case _ =>
    }
  }

  lemma FlushWriteSteps(s: State, l: Label)
    requires s.Up? && LiveInv(s) && Step(s, l).Some?
    requires l.FlushCreate? || l.FlushByte?
    ensures LiveInv(Step(s, l).value)
  {
    hide SSTableFilename, TmpName, TableBytes, Records, ValidEnd, FoldRecords, TableSize, PendingWrite, Settled,
         Compacted, LastIs, CompactorInv, CompactorStep, EncodeRecordValue, Canonical, EntryFor, TableAt;
    var t := Step(s, l).value;
    NamesDiffer(s.next, s.next);
    TableBytesFirst(s.mem);
    if l.FlushByte? {
      TableBytesNext(s.mem, s.writer.written);
    }
    OtherFilesKept(s, t, TmpName(s.next));
  }

  lemma FlushRenameStep(s: State)
    requires s.Up? && LiveInv(s) && Step(s, FlushRename).Some?
    ensures LiveInv(Step(s, FlushRename).value)
  {
    hide SSTableFilename, TmpName, TableBytes, Records, ValidEnd, FoldRecords, PendingWrite, Settled, LastIs,
         CompactorInv, Step;
    FlushRenameEffect(s);
    var t := Step(s, FlushRename).value;
    NamesDiffer(s.next, s.next);
    TableBytesFirst(s.mem);
    var m := s.(files := s.files - {TmpName(s.next)});
    OtherFilesKept(s, m, TmpName(s.next));
    RenamedFilesKept(s, m, t);
  }

  lemma RenamedFilesKept(s: State, m: State, t: State)
    requires s.Up? && LiveInv(s) && m.Up? && t.Up? && CompactorInv(m)
    requires m.compactor == t.compactor == s.compactor && m.next == t.next == s.next && m.sstables == t.sstables
    requires forall n :: n in m.files && n != SSTableFilename(s.next) ==> n in t.files && t.files[n] == m.files[n]
    ensures CompactorInv(t)
  {
    hide SSTableFilename, TmpName, TableBytes, Compacted, WriterInv;
    match s.compactor {
      case Writing(snapshot, n, j) => NamesDiffer(s.next, n);
      case Renamed(snapshot, n) => NamesDiffer(n, s.next);
      case _ =>
    }
  }

  lemma FlushOpenStep(s: State)
    requires s.Up? && LiveInv(s) && Step(s, FlushOpen).Some?
    ensures LiveInv(Step(s, FlushOpen).value)
  {
    hide SSTableFilename, TmpName, TableBytes, Records, ValidEnd, FoldRecords, TableSize, PendingWrite, Settled,
         Compacted, OpenedTable, CompactorInv, Step;
    FlushOpenEffect(s);
    MemTableReadsBack(s.files[WAL_NAME], s.mem);
    OtherFilesKept(s, Step(s, FlushOpen).value, WAL_NAME);
  }

  lemma FlushMemorySteps(s: State, l: Label)
    requires s.Up? && LiveInv(s) && Step(s, l).Some?
    requires l.FlushResetLog? || l.FlushClear? || l.FlushTrigger?
    ensures LiveInv(Step(s, l).value)
  {
    hide SSTableFilename, TmpName, TableBytes, Records, ValidEnd, FoldRecords, TableSize, PendingWrite, Settled,
         Compacted, OpenedTable, CompactorInv, Step;
    FlushMemoryEffect(s, l);
    EmptyLogSettled();
    OtherFilesKept(s, Step(s, l).value, WAL_NAME);
  }

  // ----- the compactor -----

  /** The writer's files survive a change of a file that belongs to the compactor. */
  lemma WriterFilesKept(s: State, t: State, name: string, number: nat)
    requires s.Up? && LiveInv(s) && number < s.next
    requires name == TmpName(number) || name == SSTableFilename(number)
    requires t.Up? && t.writer == s.writer && t.mem == s.mem && t.next == s.next && t.sstables == s.sstables
    requires forall n :: n in s.files && n != name ==> n in t.files && t.files[n] == s.files[n]
    ensures WAL_NAME in t.files && t.files[WAL_NAME] == s.files[WAL_NAME] && WriterInv(t)
  {
    hide SSTableFilename, TmpName, TableBytes, Records, ValidEnd, FoldRecords, PendingWrite, Settled,
         CompactorInv, EncodeRecordValue;
    NamesDiffer(number, s.next);
    NamesDiffer(s.next, number);
    NamesDiffer(number, number);
  }

  lemma CompactionWriteSteps(s: State, l: Label)
    requires s.Up? && LiveInv(s) && Step(s, l).Some?
    requires l.CompactCreate? || l.CompactByte?
    ensures LiveInv(Step(s, l).value)
  {
    hide SSTableFilename, TmpName, TableBytes, Compacted, WriterInv, WriterStep;
    var t := Step(s, l).value;
    var snapshot, n := s.compactor.snapshot, s.compactor.number;
    var c := Compacted(Tables(snapshot));
    if l.CompactCreate? {
      TableBytesFirst(c);
    } else {
      TableBytesNext(c, s.compactor.written);
    }
    WriterFilesKept(s, t, TmpName(n), n);
  }

  lemma CompactionRenameStep(s: State)
    requires s.Up? && LiveInv(s) && Step(s, CompactRename).Some?
    ensures LiveInv(Step(s, CompactRename).value)
  {
    hide SSTableFilename, TmpName, TableBytes, Compacted, WriterInv, Step;
    CompactRenameEffect(s);
    var t := Step(s, CompactRename).value;
    var n := s.compactor.number;
    TableBytesFirst(Compacted(Tables(s.compactor.snapshot)));
    var m := s.(files := s.files - {TmpName(n)});
    WriterFilesKept(s, m, TmpName(n), n);
    CompactRenameKept(s, m, t, n);
  }

  lemma RemoveOldestStep(s: State)
    requires s.Up? && LiveInv(s) && Step(s, RemoveOldest).Some?
    ensures LiveInv(Step(s, RemoveOldest).value)
  {
    hide SSTableFilename, WriterInv, Step;
    RemoveOldestEffect(s);
    var rest := s.compactor.rest;
    assert rest[0].number < s.next;
    WriterFilesKept(s, Step(s, RemoveOldest).value, SSTableFilename(rest[0].number), rest[0].number);
  }

  lemma CompactRenameKept(s: State, m: State, t: State, n: nat)
    requires s.Up? && LiveInv(s) && m.Up? && t.Up? && n < s.next
    requires WAL_NAME in m.files && WriterInv(m)
    requires m.writer == t.writer && m.next == t.next == s.next && m.sstables == t.sstables && m.mem == t.mem
    requires forall x :: x in m.files && x != SSTableFilename(n) ==> x in t.files && t.files[x] == m.files[x]
    ensures WAL_NAME in t.files && t.files[WAL_NAME] == m.files[WAL_NAME] && WriterInv(t)
  {
    hide SSTableFilename, TmpName, TableBytes, Records, ValidEnd, FoldRecords, PendingWrite, Settled,
         CompactorInv, EncodeRecordValue;
    NamesDiffer(n, s.next);
    NamesDiffer(n, n);
  }

  lemma CompactionMemorySteps(s: State, l: Label)
    requires s.Up? && LiveInv(s) && Step(s, l).Some?
    requires l.CompactionStart? || l.Snapshot? || l.Allocate? || l.RemoveFails? || l.CompactionFinish?
    ensures LiveInv(Step(s, l).value)
  {
    hide SSTableFilename, TmpName, TableBytes, Records, ValidEnd, FoldRecords, PendingWrite, Settled,
         EncodeRecordValue, Compacted, Step;
    CompactionMemoryEffect(s, l);
  }

  lemma SwapStep(s: State)
    requires s.Up? && LiveInv(s) && Step(s, Swap).Some?
    ensures LiveInv(Step(s, Swap).value)
  {
    hide SSTableFilename, TmpName, TableBytes, Records, ValidEnd, FoldRecords, PendingWrite, Settled,
         EncodeRecordValue, Compacted, Step, OpenedTable;
    SwapEffect(s);
    var t := Step(s, Swap).value;
    assert forall i :: 0 < i < |t.sstables| ==> t.sstables[i] == s.sstables[|s.compactor.snapshot| + i - 1];
  }

  // ----- reopening -----

  lemma OpenStep(s: State, l: Label)
    requires s.Down? && Step(s, l).Some?
    ensures LiveInv(Step(s, l).value)
  {
    hide RecoverTables, Records, ValidEnd, FoldRecords, NextNumber, InNumberOrder;
    if l.Open? {
      RecoveredAscending(s.files);
    }
  }

  /** Every step keeps the invariant. */
  lemma LiveStep(s: State, l: Label)
    requires LiveInv(s) && Step(s, l).Some?
    ensures LiveInv(Step(s, l).value)
  {
    hide LiveInv, WriterStep, CompactorStep, Recover;
    if s.Down? {
      OpenStep(s, l);
    } else {
      match l {
        case Begin(_) => AppendSteps(s, l);
        case AppendByte => AppendSteps(s, l);
        case ApplyToMemTable => AppendSteps(s, l);
        case Return => AppendSteps(s, l);
        case FlushCreate => FlushWriteSteps(s, l);
        case FlushByte => FlushWriteSteps(s, l);
        case FlushRename => FlushRenameStep(s);
        case FlushOpen => FlushOpenStep(s);
        case FlushResetLog => FlushMemorySteps(s, l);
        case FlushClear => FlushMemorySteps(s, l);
        case FlushTrigger => FlushMemorySteps(s, l);
        case CompactCreate => CompactionWriteSteps(s, l);
        case CompactByte => CompactionWriteSteps(s, l);
        case CompactRename => CompactionRenameStep(s);
        case RemoveOldest => RemoveOldestStep(s);
        case Kill => DownLive(s.files);
        case _ => OtherLabels(s, l);
      }
    }
  }

  lemma DownLive(files: Files)
    ensures LiveInv(Down(files))
  {
  }

  lemma OtherLabels(s: State, l: Label)
    requires s.Up? && LiveInv(s) && Step(s, l).Some?
    requires l.CompactionStart? || l.Snapshot? || l.Allocate? || l.Swap? || l.RemoveFails?
          || l.CompactionFinish? || l.CleanTmp? || l.CreateLog? || l.TruncateLog? || l.Open?
    ensures LiveInv(Step(s, l).value)
  {
    hide LiveInv, WriterStep, CompactorStep;
    if l.Swap? {
      SwapStep(s);
    } else if l.CompactionStart? || l.Snapshot? || l.Allocate? || l.RemoveFails? || l.CompactionFinish? {
      CompactionMemorySteps(s, l);
    } else {
      NotWhileUp(s, l);
    }
  }

  /** It holds in every state reachable from any directory whatever. */
  lemma {:induction false} LiveReachable(files: Files, ls: seq<Label>)
    requires Exec(Down(files), ls).Some?
    ensures LiveInv(Exec(Down(files), ls).value)
  {
    hide LiveInv, Step;
    if ls == [] {
      DownLive(files);
    } else {
      LiveReachable(files, ls[..|ls| - 1]);
      LiveStep(Exec(Down(files), ls[..|ls| - 1]).value, ls[|ls| - 1]);
    }
  }

  /** The readers opened on freshly written files never fail: from a reachable state, the step
      after each rename is possible. */
  lemma FreshTablesOpen(files: Files, ls: seq<Label>)
    requires Exec(Down(files), ls).Some? && Exec(Down(files), ls).value.Up?
    ensures var s := Exec(Down(files), ls).value;
            && (s.writer.FlushRenamed? ==> Step(s, FlushOpen).Some?)
            && (s.compactor.Renamed? && s.writer.Idle? ==> Step(s, Swap).Some?)
  {
    hide SSTableFilename, TmpName, TableBytes, Records, ValidEnd, FoldRecords, PendingWrite, Settled,
         EncodeRecordValue, Compacted, OpenedTable, Exec;
    LiveReachable(files, ls);
    var s := Exec(Down(files), ls).value;
    if s.writer.FlushRenamed? {
      MemTableReadsBack(s.files[WAL_NAME], s.mem);
    }
    if s.compactor.Renamed? {
      CompactedReadsBack(Tables(s.compactor.snapshot));
    }
  }

  // ----- what callers see -----

  lemma SeenAfterFlush(tables: seq<Table>, mem: Table)
    ensures View(tables + [mem], mem) == View(tables, mem)
    ensures View(tables + [mem], map[]) == View(tables, mem)
  {
    hide Live;
    MergeConcat(tables, [mem]);
    MergeOne(mem);
    assert Merge(tables) + mem + mem == Merge(tables) + mem;
    assert Merge(tables) + mem + map[] == Merge(tables) + mem;
  }

  lemma SeenAfterSwap(fs: seq<File>, snapshot: seq<File>, n: nat, mem: Table)
    requires snapshot <= fs
    ensures View(Tables([File(n, Compacted(Tables(snapshot)))] + fs[|snapshot|..]), mem) == View(Tables(fs), mem)
  {
    hide View, Compacted;
    var later := fs[|snapshot|..];
    assert fs == snapshot + later;
    TablesConcat(snapshot, later);
    TablesConcat([File(n, Compacted(Tables(snapshot)))], later);
    assert Tables([File(n, Compacted(Tables(snapshot)))]) == [Compacted(Tables(snapshot))];
    SwapKeepsView(Tables(snapshot), Tables(later), mem);
  }

  lemma SeenApply(tables: seq<Table>, mem: Table, op: Record)
    ensures View(tables, mem[op.key := EntryFor(op)]) == Apply(View(tables, mem), op)
  {
    LiveUpsert(Merge(tables) + mem, op);
    assert (Merge(tables) + mem)[op.key := EntryFor(op)] == Merge(tables) + mem[op.key := EntryFor(op)];
  }

  /** The step that reaches the memtable applies exactly the write; no other step of a running
      store, by the writer or by the compactor, changes any answer. */
  lemma SeenStep(s: State, l: Label)
    requires s.Up? && LiveInv(s) && Step(s, l).Some? && !l.Kill?
    ensures Step(s, l).value.Up?
    ensures Seen(Step(s, l).value) == if l.ApplyToMemTable? then Apply(Seen(s), s.writer.op) else Seen(s)
  {
    hide SSTableFilename, TmpName, TableBytes, Records, ValidEnd, FoldRecords, TableSize, PendingWrite, Settled,
         EncodeRecordValue, OpenedTable, View, Compacted, Fits, Apply, EntryFor;
    var t := Step(s, l).value;
    match l {
      case ApplyToMemTable =>
        SeenApply(Tables(s.sstables), s.mem, s.writer.op);
      case FlushOpen =>
        MemTableReadsBack(s.files[WAL_NAME], s.mem);
        TablesConcat(s.sstables, [File(s.next, s.mem)]);
        assert Tables([File(s.next, s.mem)]) == [s.mem];
        SeenAfterFlush(Tables(s.sstables), s.mem);
      case FlushClear =>
        var fs := s.sstables[..|s.sstables| - 1];
        assert Tables(s.sstables) == Tables(fs) + [s.mem];
        SeenAfterFlush(Tables(fs), s.mem);
      case Swap =>
        var snapshot, n := s.compactor.snapshot, s.compactor.number;
        CompactedReadsBack(Tables(snapshot));
        SeenAfterSwap(s.sstables, snapshot, n, s.mem);
      case _ =>
    }
  }

  /** Live refinement over whole runs. Of any run from any directory, what a running store
      shows next is what it showed before, with the write applied at the one step that applies
      it. */
  lemma LiveRefinement(files: Files, ls: seq<Label>, l: Label)
    requires Exec(Down(files), ls + [l]).Some?
    requires Exec(Down(files), ls).value.Up? && !l.Kill?
    ensures Exec(Down(files), ls + [l]).value.Up?
    ensures var s := Exec(Down(files), ls).value;
            Seen(Exec(Down(files), ls + [l]).value)
            == if l.ApplyToMemTable? then Apply(Seen(s), s.writer.op) else Seen(s)
  {
    hide Step, Seen, Apply, LiveInv;
    ExecPush(Down(files), ls, l);
    LiveReachable(files, ls);
    SeenStep(Exec(Down(files), ls).value, l);
  }
}
