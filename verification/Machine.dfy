/** The database as a step machine (`src/database.cpp`). A step is what happens between two
    lock operations or is a single file-system effect, so that a writer, the compaction thread
    and a kill may interleave at every point where they can in the program. */
module Machine {
  import opened ByteUtil
  import opened Results
  import opened WalRecord
  import opened Wal
  import opened FileSystem
  import opened Entries
  import opened Layers
  import opened SSTableFormat
  import opened SSTable
  import opened FileNames
  import opened Recovery

  /** Where the thread holding the exclusive lock is within `put` or `remove`. `Idle` means
      that nobody holds it. */
  datatype Writer =
    | Idle
    | Appending(op: Record, written: nat)     // inside WriteAheadLog::Append
    | Logged(op: Record)                      // record complete, memtable not updated
    | Applied(op: Record)                     // memtable updated, about to test the threshold
    | FlushWriting(op: Record, written: nat)  // temporary file holds the first bytes
    | FlushRenamed(op: Record)
    | FlushOpened(op: Record)                 // new reader pushed, number consumed
    | FlushReset(op: Record)                  // log emptied
    | FlushCleared(op: Record)                // fresh memtable
    | Finished(op: Record)                    // compaction requested if due

  /** Where the compaction thread is. */
  datatype Compactor =
    | Waiting
    | Started
    | Merging(snapshot: seq<File>)                               // snapshot taken, lock released
    | Allocated(snapshot: seq<File>, number: nat)
    | Writing(snapshot: seq<File>, number: nat, written: nat)
    | Renamed(snapshot: seq<File>, number: nat)
    | Deleting(rest: seq<File>)                                  // swapped; files still to delete
    | Nothing                                                    // fewer than two tables

  datatype State =
    | Down(files: Files)
    | Up(files: Files, flushThreshold: nat, compactionTrigger: nat, next: nat, sstables: seq<File>,
         mem: Table, writer: Writer, compactor: Compactor, requested: bool)

  datatype Label =
    | Begin(op: Record) | AppendByte | ApplyToMemTable | Return
    | FlushCreate | FlushByte | FlushRename | FlushOpen | FlushResetLog | FlushClear | FlushTrigger
    | CompactionStart | Snapshot | Allocate | CompactCreate | CompactByte | CompactRename | Swap
    | RemoveOldest | RemoveFails | CompactionFinish
    | Kill | CleanTmp(name: string) | CreateLog | TruncateLog | Open(flushThreshold: nat, compactionTrigger: nat)

  // ----- one step -----

  function AppendTo(files: Files, name: string, b: Byte): Files
    requires name in files
  {
    files[name := files[name] + [b]]
  }

  function RenameTo(files: Files, from: string, to: string): Files
    requires from in files
  {
    (files - {from})[to := files[from]]
  }

  ghost function Step(s: State, l: Label): Option<State> {
    if s.Down? then Recover(s, l)
    else if l.Kill? then Some(Down(s.files))
    else if IsWriterLabel(l) then WriterStep(s, l)
    else CompactorStep(s, l)
  }

  predicate IsWriterLabel(l: Label) {
    l.Begin? || l.AppendByte? || l.ApplyToMemTable? || l.Return? || l.FlushCreate? || l.FlushByte?
    || l.FlushRename? || l.FlushOpen? || l.FlushResetLog? || l.FlushClear? || l.FlushTrigger?
  }

  /** `put` and `remove`, with the flush they may perform. */
  ghost function WriterStep(s: State, l: Label): Option<State>
    requires s.Up?
  {
    var w := s.writer;
    match l
    case Begin(op) =>
      if w.Idle? && Canonical(op) == op then Some(s.(writer := Appending(op, 0))) else None
    case AppendByte =>
      if w.Appending? && WAL_NAME in s.files && w.written < |EncodeRecordValue(w.op)| then
        Some(s.(files := AppendTo(s.files, WAL_NAME, EncodeRecordValue(w.op)[w.written]),
                writer := if w.written + 1 < |EncodeRecordValue(w.op)| then Appending(w.op, w.written + 1)
                          else Logged(w.op)))
      else None
    case ApplyToMemTable =>
      if w.Logged? then Some(s.(mem := s.mem[w.op.key := EntryFor(w.op)], writer := Applied(w.op))) else None
    case Return =>
      if w.Finished? || (w.Applied? && TableSize(s.mem) < s.flushThreshold) then Some(s.(writer := Idle)) else None
    case FlushCreate =>
      if w.Applied? && TableSize(s.mem) >= s.flushThreshold && Fits(s.mem) && s.next + 1 < TWO_64 then
        Some(s.(files := s.files[TmpName(s.next) := []], writer := FlushWriting(w.op, 0)))
      else None
    case FlushByte =>
      if w.FlushWriting? && TmpName(s.next) in s.files && w.written < |TableBytes(s.mem)| then
        Some(s.(files := AppendTo(s.files, TmpName(s.next), TableBytes(s.mem)[w.written]),
                writer := FlushWriting(w.op, w.written + 1)))
      else None
    case FlushRename =>
      if w.FlushWriting? && TmpName(s.next) in s.files && w.written == |TableBytes(s.mem)| then
        Some(s.(files := RenameTo(s.files, TmpName(s.next), SSTableFilename(s.next)), writer := FlushRenamed(w.op)))
      else None
    case FlushOpen =>
      if w.FlushRenamed? && TableAt(s.files, SSTableFilename(s.next)).Success? then
        Some(s.(sstables := s.sstables + [File(s.next, TableAt(s.files, SSTableFilename(s.next)).value)],
                next := s.next + 1, writer := FlushOpened(w.op)))
      else None
    case FlushResetLog =>
      if w.FlushOpened? && WAL_NAME in s.files then
        Some(s.(files := s.files[WAL_NAME := []], writer := FlushReset(w.op)))
      else None
    case FlushClear =>
      if w.FlushReset? then Some(s.(mem := map[], writer := FlushCleared(w.op))) else None
    case FlushTrigger =>
      if w.FlushCleared? then
        Some(s.(requested := s.requested || |s.sstables| >= s.compactionTrigger, writer := Finished(w.op)))
      else None
    case _ => None
  }

  /** Opening a table by name. */
  function TableAt(files: Files, name: string): Result<Table> {
    if name in files then OpenedTable(files[name]) else Failure(NoSuchFile)
  }

  /** The bytes a compaction of `snapshot` writes. */
  function CompactedBytes(snapshot: seq<File>): Bytes {
    TableBytes(Compacted(Tables(snapshot)))
  }

  /** The compaction thread. The snapshot, the allocation of the number and the swap need the
      lock, so they wait until no writer holds it; everything else may happen at any time. The
      source ignores a removal that fails. */
  ghost function CompactorStep(s: State, l: Label): Option<State>
    requires s.Up?
  {
    var c := s.compactor;
    match l
    case CompactionStart =>
      if c.Waiting? && s.requested then Some(s.(requested := false, compactor := Started)) else None
    case Snapshot =>
      if c.Started? && s.writer.Idle? then
        Some(s.(compactor := if |s.sstables| < 2 then Nothing else Merging(s.sstables)))
      else None
    case Allocate =>
      if c.Merging? && s.writer.Idle? && s.next + 1 < TWO_64 then
        Some(s.(compactor := Allocated(c.snapshot, s.next), next := s.next + 1))
      else None
    case CompactCreate =>
      if c.Allocated? && Fits(Compacted(Tables(c.snapshot))) then
        Some(s.(files := s.files[TmpName(c.number) := []], compactor := Writing(c.snapshot, c.number, 0)))
      else None
    case CompactByte =>
      if c.Writing? && TmpName(c.number) in s.files && c.written < |CompactedBytes(c.snapshot)| then
        Some(s.(files := AppendTo(s.files, TmpName(c.number), CompactedBytes(c.snapshot)[c.written]),
                compactor := Writing(c.snapshot, c.number, c.written + 1)))
      else None
    case CompactRename =>
      if c.Writing? && TmpName(c.number) in s.files && c.written == |CompactedBytes(c.snapshot)| then
        Some(s.(files := RenameTo(s.files, TmpName(c.number), SSTableFilename(c.number)),
                compactor := Renamed(c.snapshot, c.number)))
      else None
    case Swap =>
      if c.Renamed? && s.writer.Idle? && |c.snapshot| <= |s.sstables|
         && TableAt(s.files, SSTableFilename(c.number)).Success? then
        Some(s.(sstables := [File(c.number, TableAt(s.files, SSTableFilename(c.number)).value)]
                            + s.sstables[|c.snapshot|..],
                compactor := Deleting(s.sstables[..|c.snapshot|])))
      else None
    case RemoveOldest =>
      if c.Deleting? && c.rest != [] then
        Some(s.(files := s.files - {SSTableFilename(c.rest[0].number)}, compactor := Deleting(c.rest[1..])))
      else None
    case RemoveFails =>
      if c.Deleting? && c.rest != [] then Some(s.(compactor := Deleting(c.rest[1..]))) else None
    case CompactionFinish =>
      if c.Nothing? || c == Deleting([]) then Some(s.(compactor := Waiting)) else None
    case _ => None
  }

  /** The constructor: leftover temporary files go, the log is created or cut at the first bad
      record, and the store opens on what the directory holds. */
  ghost function Recover(s: State, l: Label): Option<State>
    requires s.Down?
  {
    match l
    case Kill => Some(s)
    case CleanTmp(name) =>
      if name in s.files && HasTmpExtension(name) then Some(Down(s.files - {name})) else None
    case CreateLog =>
      if WAL_NAME !in s.files then Some(Down(s.files[WAL_NAME := []])) else None
    case TruncateLog =>
      if WAL_NAME in s.files then
        Some(Down(s.files[WAL_NAME := s.files[WAL_NAME][..ValidEnd(s.files[WAL_NAME])]]))
      else None
    case Open(threshold, trigger) =>
      if WAL_NAME in s.files && Clean(s.files[WAL_NAME]) && RecoverTables(s.files).Success?
         && NextNumber(RecoverTables(s.files).value) < TWO_64 then
        var fs := RecoverTables(s.files).value;
        Some(Up(s.files, threshold, trigger, NextNumber(fs), fs, FoldRecords(Records(s.files[WAL_NAME])),
                Idle, Waiting, false))
      else None
    case _ => None
  }

  // ----- what some steps do, one at a time -----

  lemma WriterStepIs(s: State, l: Label)
    requires s.Up? && IsWriterLabel(l)
    ensures Step(s, l) == WriterStep(s, l)
  {
    hide WriterStep, CompactorStep;
  }

  lemma KillEffect(s: State)
    requires s.Up?
    ensures Step(s, Kill) == Some(Down(s.files))
  {
    hide WriterStep, CompactorStep;
  }

  lemma CompactorStepIs(s: State, l: Label)
    requires s.Up? && !IsWriterLabel(l) && !l.Kill?
    ensures Step(s, l) == CompactorStep(s, l)
  {
    hide WriterStep, CompactorStep;
  }

  lemma RemoveOldestEffect(s: State)
    requires s.Up? && Step(s, RemoveOldest).Some?
    ensures s.compactor.Deleting? && s.compactor.rest != []
    ensures Step(s, RemoveOldest).value ==
            s.(files := s.files - {SSTableFilename(s.compactor.rest[0].number)},
               compactor := Deleting(s.compactor.rest[1..]))
  {
    hide WriterStep, SSTableFilename, TmpName, TableAt, TableBytes, CompactedBytes, Compacted, Tables, Fits,
         AppendTo, RenameTo;
  }

  lemma CompactionMemoryEffect(s: State, l: Label)
    requires s.Up? && Step(s, l).Some?
    requires l.CompactionStart? || l.Snapshot? || l.Allocate? || l.RemoveFails? || l.CompactionFinish?
    ensures var t := Step(s, l).value;
            && (l.CompactionStart? ==>
                  s.compactor == Waiting && s.requested && t == s.(requested := false, compactor := Started))
            && (l.Snapshot? ==>
                  s.compactor == Started && s.writer.Idle?
                  && t == s.(compactor := if |s.sstables| < 2 then Nothing else Merging(s.sstables)))
            && (l.Allocate? ==>
                  s.compactor.Merging? && s.writer.Idle? && s.next + 1 < TWO_64
                  && t == s.(compactor := Allocated(s.compactor.snapshot, s.next), next := s.next + 1))
            && (l.RemoveFails? ==>
                  s.compactor.Deleting? && s.compactor.rest != []
                  && t == s.(compactor := Deleting(s.compactor.rest[1..])))
            && (l.CompactionFinish? ==>
                  (s.compactor == Nothing || s.compactor == Deleting([])) && t == s.(compactor := Waiting))
  {
    hide Step, SSTableFilename, TmpName, TableAt, TableBytes, CompactedBytes, Compacted, Tables, Fits, AppendTo,
         RenameTo;
    CompactorStepIs(s, l);
  }

  lemma StartPossible(s: State)
    requires s.Up? && s.compactor == Waiting && s.requested
    ensures Step(s, CompactionStart) == Some(s.(requested := false, compactor := Started))
  {
    hide Step, SSTableFilename, TmpName, TableAt, TableBytes, CompactedBytes, Compacted, Tables, Fits, AppendTo,
         RenameTo;
    CompactorStepIs(s, CompactionStart);
  }

  lemma SnapshotPossible(s: State)
    requires s.Up? && s.compactor == Started && s.writer.Idle?
    ensures Step(s, Snapshot) == Some(s.(compactor := if |s.sstables| < 2 then Nothing else Merging(s.sstables)))
  {
    hide Step, SSTableFilename, TmpName, TableAt, TableBytes, CompactedBytes, Compacted, Tables, Fits, AppendTo,
         RenameTo;
    CompactorStepIs(s, Snapshot);
  }

  lemma AllocatePossible(s: State)
    requires s.Up? && s.compactor.Merging? && s.writer.Idle? && s.next + 1 < TWO_64
    ensures Step(s, Allocate) == Some(s.(compactor := Allocated(s.compactor.snapshot, s.next), next := s.next + 1))
  {
    hide Step, SSTableFilename, TmpName, TableAt, TableBytes, CompactedBytes, Compacted, Tables, Fits, AppendTo,
         RenameTo;
    CompactorStepIs(s, Allocate);
  }

  lemma FinishPossible(s: State)
    requires s.Up? && (s.compactor == Nothing || s.compactor == Deleting([]))
    ensures Step(s, CompactionFinish) == Some(s.(compactor := Waiting))
  {
    hide Step, SSTableFilename, TmpName, TableAt, TableBytes, CompactedBytes, Compacted, Tables, Fits, AppendTo,
         RenameTo;
    CompactorStepIs(s, CompactionFinish);
  }

  lemma RemovalPossible(s: State)
    requires s.Up? && s.compactor.Deleting? && s.compactor.rest != []
    ensures Step(s, RemoveFails) == Some(s.(compactor := Deleting(s.compactor.rest[1..])))
    ensures Step(s, RemoveOldest) == Some(s.(files := s.files - {SSTableFilename(s.compactor.rest[0].number)},
                                             compactor := Deleting(s.compactor.rest[1..])))
  {
    hide Step, SSTableFilename, TmpName, TableAt, TableBytes, CompactedBytes, Compacted, Tables, Fits, AppendTo,
         RenameTo;
    CompactorStepIs(s, RemoveFails);
    CompactorStepIs(s, RemoveOldest);
  }

  lemma CompactionTmpEffect(s: State, l: Label)
    requires s.Up? && Step(s, l).Some?
    requires l.CompactCreate? || l.CompactByte?
    ensures l.CompactCreate? ==> s.compactor.Allocated?
    ensures l.CompactByte? ==> s.compactor.Writing?
    ensures var t, n := Step(s, l).value, s.compactor.number;
            && t == s.(files := t.files, compactor := t.compactor)
            && t.compactor.Writing? && t.compactor.snapshot == s.compactor.snapshot && t.compactor.number == n
            && OnlyChanged(s.files, t.files, TmpName(n))
  {
    hide WriterStep, SSTableFilename, TmpName, TableAt, TableBytes, CompactedBytes, Compacted, Tables, Fits;
  }

  lemma CompactRenameEffect(s: State)
    requires s.Up? && Step(s, CompactRename).Some?
    ensures s.compactor.Writing?
    ensures var snapshot, n := s.compactor.snapshot, s.compactor.number;
            && TmpName(n) in s.files && s.compactor.written == |CompactedBytes(snapshot)|
            && Step(s, CompactRename).value ==
               s.(files := RenameTo(s.files, TmpName(n), SSTableFilename(n)), compactor := Renamed(snapshot, n))
  {
    hide WriterStep, SSTableFilename, TmpName, TableAt, TableBytes, CompactedBytes, Compacted, Tables, Fits,
         RenameTo;
  }

  lemma SwapEffect(s: State)
    requires s.Up? && Step(s, Swap).Some?
    ensures s.compactor.Renamed? && s.writer.Idle? && |s.compactor.snapshot| <= |s.sstables|
    ensures var snapshot, n := s.compactor.snapshot, s.compactor.number;
            && TableAt(s.files, SSTableFilename(n)).Success?
            && Step(s, Swap).value ==
               s.(sstables := [File(n, TableAt(s.files, SSTableFilename(n)).value)] + s.sstables[|snapshot|..],
                  compactor := Deleting(s.sstables[..|snapshot|]))
  {
    hide WriterStep, SSTableFilename, TmpName, TableAt, TableBytes;
  }

  lemma FlushRenameEffect(s: State)
    requires s.Up? && Step(s, FlushRename).Some?
    ensures s.writer.FlushWriting?
    ensures TmpName(s.next) in s.files && s.writer.written == |TableBytes(s.mem)|
    ensures Step(s, FlushRename).value ==
            s.(files := RenameTo(s.files, TmpName(s.next), SSTableFilename(s.next)),
               writer := FlushRenamed(s.writer.op))
  {
    hide CompactorStep, SSTableFilename, TmpName, TableAt, TableBytes, RenameTo;
  }

  lemma FlushOpenEffect(s: State)
    requires s.Up? && Step(s, FlushOpen).Some?
    ensures s.writer.FlushRenamed?
    ensures TableAt(s.files, SSTableFilename(s.next)).Success?
    ensures Step(s, FlushOpen).value ==
            s.(sstables := s.sstables + [File(s.next, TableAt(s.files, SSTableFilename(s.next)).value)],
               next := s.next + 1, writer := FlushOpened(s.writer.op))
  {
    hide CompactorStep, SSTableFilename, TmpName, TableAt, TableBytes;
  }

  /** When a flush can go on after its rename. */
  lemma FlushTailPossible(s: State)
    requires s.Up?
    ensures s.writer.FlushRenamed? && TableAt(s.files, SSTableFilename(s.next)).Success? ==>
              Step(s, FlushOpen)
              == Some(s.(sstables := s.sstables + [File(s.next, TableAt(s.files, SSTableFilename(s.next)).value)],
                         next := s.next + 1, writer := FlushOpened(s.writer.op)))
    ensures s.writer.FlushOpened? && WAL_NAME in s.files ==>
              Step(s, FlushResetLog) == Some(s.(files := s.files[WAL_NAME := []], writer := FlushReset(s.writer.op)))
    ensures s.writer.FlushReset? ==>
              Step(s, FlushClear) == Some(s.(mem := map[], writer := FlushCleared(s.writer.op)))
    ensures s.writer.FlushCleared? ==>
              Step(s, FlushTrigger) == Some(s.(requested := s.requested || |s.sstables| >= s.compactionTrigger,
                                               writer := Finished(s.writer.op)))
  {
    hide Step, SSTableFilename, TmpName, TableAt, TableBytes, EncodeRecordValue, TableSize, Fits, Canonical,
         AppendTo, RenameTo;
    WriterStepIs(s, FlushOpen);
    WriterStepIs(s, FlushResetLog);
    WriterStepIs(s, FlushClear);
    WriterStepIs(s, FlushTrigger);
  }

  lemma FlushMemoryEffect(s: State, l: Label)
    requires s.Up? && Step(s, l).Some?
    requires l.FlushResetLog? || l.FlushClear? || l.FlushTrigger?
    ensures var t := Step(s, l).value;
            && (l.FlushResetLog? ==>
                  s.writer.FlushOpened? && WAL_NAME in s.files
                  && t == s.(files := s.files[WAL_NAME := []], writer := FlushReset(s.writer.op)))
            && (l.FlushClear? ==>
                  s.writer.FlushReset? && t == s.(mem := map[], writer := FlushCleared(s.writer.op)))
            && (l.FlushTrigger? ==>
                  s.writer.FlushCleared?
                  && t == s.(requested := s.requested || |s.sstables| >= s.compactionTrigger,
                             writer := Finished(s.writer.op)))
  {
    hide CompactorStep, SSTableFilename, TmpName, TableAt, TableBytes;
  }

  /** The write has reached the memtable. */
  predicate Visible(w: Writer) {
    !w.Idle? && !w.Appending? && !w.Logged?
  }

  /** How a step moves the writer. */
  lemma WriterPhases(s: State, l: Label)
    requires s.Up? && Step(s, l).Some? && !l.Kill?
    ensures var t := Step(s, l).value;
            && t.Up?
            && (l.Begin? ==> s.writer.Idle? && t.writer == Appending(l.op, 0))
            && (l.AppendByte? ==>
                  s.writer.Appending? && (t.writer.Appending? || t.writer.Logged?) && t.writer.op == s.writer.op)
            && (l.ApplyToMemTable? ==> s.writer.Logged? && t.writer == Applied(s.writer.op))
            && (l.Return? ==> Visible(s.writer) && t.writer.Idle?)
            && (!l.Begin? && !l.AppendByte? && !l.ApplyToMemTable? && !l.Return? ==>
                  t.writer == s.writer
                  || (Visible(s.writer) && Visible(t.writer) && t.writer.op == s.writer.op))
  {
    hide WriterStep, CompactorStep;
    if IsWriterLabel(l) {
      WriterLabelPhases(s, l);
    } else {
      CompactorKeepsWriter(s, l);
    }
  }

  lemma WriterKeepsCompactor(s: State, l: Label)
    requires s.Up? && IsWriterLabel(l) && WriterStep(s, l).Some?
    ensures WriterStep(s, l).value.Up? && WriterStep(s, l).value.compactor == s.compactor
  {
    hide TmpName, SSTableFilename, TableAt, Fits, AppendTo, RenameTo, TableBytes, TableSize, EncodeRecordValue,
         Canonical;
  }

  lemma CompactorKeepsWriter(s: State, l: Label)
    requires s.Up? && CompactorStep(s, l).Some?
    ensures CompactorStep(s, l).value.Up? && CompactorStep(s, l).value.writer == s.writer
  {
    hide SSTableFilename, TmpName, TableAt, TableBytes, CompactedBytes, Compacted, Tables, Fits, AppendTo,
         RenameTo;
  }

  lemma WriterLabelPhases(s: State, l: Label)
    requires s.Up? && WriterStep(s, l).Some? && IsWriterLabel(l)
    ensures var t := WriterStep(s, l).value;
            && t.Up?
            && (l.Begin? ==> s.writer.Idle? && t.writer == Appending(l.op, 0))
            && (l.AppendByte? ==>
                  s.writer.Appending? && (t.writer.Appending? || t.writer.Logged?) && t.writer.op == s.writer.op)
            && (l.ApplyToMemTable? ==> s.writer.Logged? && t.writer == Applied(s.writer.op))
            && (l.Return? ==> Visible(s.writer) && t.writer.Idle?)
            && (!l.Begin? && !l.AppendByte? && !l.ApplyToMemTable? && !l.Return? ==>
                  Visible(s.writer) && Visible(t.writer) && t.writer.op == s.writer.op)
  {
    hide SSTableFilename, TmpName, TableAt, TableBytes, EncodeRecordValue, TableSize, Fits, Canonical;
  }

  /** Writer steps that leave the tables on disk and in the list alone: they change at most the
      log or the temporary file of the next number. */
  lemma UnlistedFilesEffect(s: State, l: Label)
    requires s.Up? && WriterStep(s, l).Some? && IsWriterLabel(l) && !l.FlushRename? && !l.FlushOpen?
    ensures var t := WriterStep(s, l).value;
            && t.Up? && t.compactor == s.compactor && t.sstables == s.sstables && t.next == s.next
            && !s.writer.FlushRenamed? && !t.writer.FlushRenamed?
            && (t.writer.FlushWriting? ==> l.FlushCreate? || s.writer.FlushWriting?)
            && (t.files == s.files || OnlyChanged(s.files, t.files, WAL_NAME)
                || OnlyChanged(s.files, t.files, TmpName(s.next)))
  {
    hide SSTableFilename, TmpName, TableAt, TableBytes, EncodeRecordValue, TableSize, Fits, Canonical;
  }

  ghost predicate OnlyChanged(before: Files, after: Files, name: string) {
    name in after && after == before[name := after[name]]
  }

  /** A running store cannot perform the constructor's steps. */
  lemma NotWhileUp(s: State, l: Label)
    requires s.Up? && (l.CleanTmp? || l.CreateLog? || l.TruncateLog? || l.Open?)
    ensures Step(s, l) == None
  {
    hide WriterStep, SSTableFilename, TmpName, TableAt, TableBytes, CompactedBytes, Compacted, Tables, Fits,
         AppendTo, RenameTo, Recover;
  }

  /** The constructor's steps on the log, and the opening itself. */
  lemma RecoveryEffects(files: Files, threshold: nat, trigger: nat)
    ensures WAL_NAME !in files ==> Step(Down(files), CreateLog) == Some(Down(files[WAL_NAME := []]))
    ensures WAL_NAME in files ==>
              Step(Down(files), TruncateLog)
              == Some(Down(files[WAL_NAME := files[WAL_NAME][..ValidEnd(files[WAL_NAME])]]))
    ensures WAL_NAME in files && Clean(files[WAL_NAME]) && RecoverTables(files).Success?
            && NextNumber(RecoverTables(files).value) < TWO_64 ==>
              Step(Down(files), Open(threshold, trigger)) ==
              Some(Up(files, threshold, trigger, NextNumber(RecoverTables(files).value), RecoverTables(files).value,
                      FoldRecords(Records(files[WAL_NAME])), Idle, Waiting, false))
  {
    hide WriterStep, CompactorStep, RecoverTables, Records, ValidEnd, FoldRecords;
  }

  // ----- runs -----

  /** The state after the steps `ls`, if all of them are possible. */
  ghost function Exec(s: State, ls: seq<Label>): Option<State> {
    if ls == [] then Some(s)
    else
      var before := Exec(s, ls[..|ls| - 1]);
      if before.None? then None else Step(before.value, ls[|ls| - 1])
  }

  lemma ExecPush(s: State, ls: seq<Label>, l: Label)
    ensures Exec(s, ls + [l]) == if Exec(s, ls).None? then None else Step(Exec(s, ls).value, l)
  {
    assert (ls + [l])[..|ls|] == ls;
  }

  lemma {:induction false} ExecConcat(s: State, a: seq<Label>, b: seq<Label>)
    requires Exec(s, a).Some?
    ensures Exec(s, a + b) == Exec(Exec(s, a).value, b)
  {
    hide Step;
    if b == [] {
      assert a + b == a;
    } else {
      assert (a + b)[..|a + b| - 1] == a + b[..|b| - 1];
      ExecConcat(s, a, b[..|b| - 1]);
    }
  }

  predicate NoKill(ls: seq<Label>) {
    forall i :: 0 <= i < |ls| ==> !ls[i].Kill?
  }

  /** The discipline under which file numbers order files by age and nothing outlives its
      deletion: no flush happens between a compaction's snapshot and the allocation of its file
      number, and no removal fails. */
  ghost predicate QuietStep(s: State, l: Label) {
    && (l.FlushCreate? && s.Up? ==> !s.compactor.Merging?)
    && !l.RemoveFails?
  }

  ghost predicate Quiet(s: State, ls: seq<Label>) {
    ls != [] ==>
      Quiet(s, ls[..|ls| - 1])
      && (Exec(s, ls[..|ls| - 1]).Some? ==> QuietStep(Exec(s, ls[..|ls| - 1]).value, ls[|ls| - 1]))
  }

  // ----- what callers see -----

  /** The contents that `get` and `scan` answer from. */
  ghost function Seen(s: State): Contents
    requires s.Up?
  {
    View(Tables(s.sstables), s.mem)
  }

  /** The histories of writes that a caller may hold the store to, given the labels of a run:
      every acknowledged write in order, and for each kill possibly the write in flight. The
      second component is the write in flight now. */
  ghost predicate Allowed(ls: seq<Label>, history: seq<Record>, pending: Option<Record>) {
    if ls == [] then history == [] && pending == None
    else
      var before, l := ls[..|ls| - 1], ls[|ls| - 1];
      match l
      case Begin(op) => pending == Some(op) && Allowed(before, history, None)
      case Return => pending == None && |history| > 0
                     && Allowed(before, history[..|history| - 1], Some(history[|history| - 1]))
      case Open(_, _) => pending == None
                     && ((exists p :: Allowed(before, history, p))
                         || (|history| > 0 && Allowed(before, history[..|history| - 1], Some(history[|history| - 1]))))
      case _ => Allowed(before, history, pending)
  }
}
