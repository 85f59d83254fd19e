/** The compaction request protocol: the flags by which a flush asks the background thread for
    a compaction, and what they guarantee about the number of tables. */
module CompactionRequests {
  import opened Results
  import opened WalRecord
  import opened Wal
  import opened FileSystem
  import opened Entries
  import opened Layers
  import opened SSTableFormat
  import opened FileNames
  import opened Recovery
  import opened Machine

  /** A compaction of fewer than two tables does nothing, whatever the trigger. */
  function TableLimit(compactionTrigger: nat): nat {
    if compactionTrigger < 2 then 2 else compactionTrigger
  }

  /** A flush has added its table but has not yet tested the trigger. */
  predicate MidFlush(w: Writer) {
    w.FlushOpened? || w.FlushReset? || w.FlushCleared?
  }

  /** A compaction holds a snapshot of at least two tables. */
  ghost predicate SnapshotInv(s: State) {
    s.Up? && (s.compactor.Merging? || s.compactor.Allocated? || s.compactor.Writing? || s.compactor.Renamed?)
    ==> |s.compactor.snapshot| >= 2
  }

  /** Too many tables are always accounted for: by a request, by a flush about to make one, or
      by the compaction under way. */
  ghost predicate Accounted(s: State)
    requires s.Up?
  {
    s.requested || MidFlush(s.writer) ||
    match s.compactor
    case Started => true
    case Merging(snapshot) => CoveredBy(snapshot, s)
    case Allocated(snapshot, _) => CoveredBy(snapshot, s)
    case Writing(snapshot, _, _) => CoveredBy(snapshot, s)
    case Renamed(snapshot, _) => CoveredBy(snapshot, s)
    case _ => |s.sstables| < TableLimit(s.compactionTrigger)
  }

  ghost predicate CoveredBy(snapshot: seq<File>, s: State)
    requires s.Up?
  {
    |s.sstables| == |snapshot| || |s.sstables| < s.compactionTrigger
  }

  lemma SnapshotStep(s: State, l: Label)
    requires SnapshotInv(s) && Step(s, l).Some?
    ensures SnapshotInv(Step(s, l).value)
  {
    hide WriterStep, TmpName, SSTableFilename, TableAt, CompactedBytes, Compacted, Fits, AppendTo, RenameTo,
         Tables, RecoverTables, Records, ValidEnd, FoldRecords;
    if s.Up? && IsWriterLabel(l) {
      WriterKeepsCompactor(s, l);
    }
  }

  lemma AccountedStep(s: State, l: Label)
    requires s.Up? && SnapshotInv(s) && Accounted(s) && Step(s, l).Some? && !l.Kill?
    ensures Step(s, l).value.Up? && Accounted(Step(s, l).value)
  {
    hide SnapshotInv, Accounted, WriterStep, CompactorStep;
    if IsWriterLabel(l) {
      AccountedWriter(s, l);
    } else if l.Swap? {
      AccountedSwap(s);
    } else {
      AccountedCompactor(s, l);
    }
  }

  lemma AccountedWriter(s: State, l: Label)
    requires s.Up? && Accounted(s) && Step(s, l).Some? && IsWriterLabel(l)
    ensures Step(s, l).value.Up? && Accounted(Step(s, l).value)
  {
    hide Step, WriterStep, TmpName, SSTableFilename, TableAt, RenameTo;
    if l.FlushOpen? {
      FlushOpenEffect(s);
    } else if l.FlushRename? {
      FlushRenameEffect(s);
    } else if l.FlushResetLog? || l.FlushClear? || l.FlushTrigger? {
      FlushMemoryEffect(s, l);
    } else {
      WriterStepIs(s, l);
      BeforeFlushed(s, l);
    }
  }

  /** The other writer steps happen outside the interval in which a flush owes its test. */
  lemma BeforeFlushed(s: State, l: Label)
    requires s.Up? && WriterStep(s, l).Some? && IsWriterLabel(l) && !l.FlushOpen? && !l.FlushRename?
    requires !l.FlushResetLog? && !l.FlushClear? && !l.FlushTrigger?
    ensures var t := WriterStep(s, l).value;
            && t.Up? && !MidFlush(s.writer) && t.sstables == s.sstables && t.compactor == s.compactor
            && t.requested == s.requested && t.compactionTrigger == s.compactionTrigger
  {
    hide SSTableFilename, TmpName, TableAt, TableBytes, EncodeRecordValue, TableSize, Fits, Canonical, AppendTo,
         RenameTo;
  }

  lemma AccountedSwap(s: State)
    requires s.Up? && SnapshotInv(s) && Accounted(s) && Step(s, Swap).Some?
    ensures Step(s, Swap).value.Up? && Accounted(Step(s, Swap).value)
  {
    hide Step, TableAt, SSTableFilename;
    SwapEffect(s);
  }

  lemma AccountedCompactor(s: State, l: Label)
    requires s.Up? && Accounted(s) && Step(s, l).Some? && !l.Kill? && !IsWriterLabel(l) && !l.Swap?
    ensures Step(s, l).value.Up? && Accounted(Step(s, l).value)
  {
    hide Step, SSTableFilename, TmpName, RenameTo, CompactedBytes;
    match l {
      case CompactCreate => CompactionTmpEffect(s, l);
      case CompactByte => CompactionTmpEffect(s, l);
      case CompactRename => CompactRenameEffect(s);
      case RemoveOldest => RemoveOldestEffect(s);
      case _ =>
        if l.CleanTmp? || l.CreateLog? || l.TruncateLog? || l.Open? {
          NotWhileUp(s, l);
        } else {
          CompactionMemoryEffect(s, l);
        }
    }
  }

  /** The test after a flush accounts for all tables, whatever was the case before. */
  lemma TriggerAccounts(s: State)
    requires s.Up? && SnapshotInv(s) && Step(s, FlushTrigger).Some?
    ensures Step(s, FlushTrigger).value.Up? && Accounted(Step(s, FlushTrigger).value)
  {
    hide Step;
    FlushMemoryEffect(s, FlushTrigger);
  }

  /** The store was opened with few tables, or has flushed since it was opened. */
  ghost predicate OpenedSmallOrFlushed(s: State, ls: seq<Label>) {
    ls != [] &&
    var before, l := ls[..|ls| - 1], ls[|ls| - 1];
    if l.Open? then
      Exec(s, ls).Some? && Exec(s, ls).value.Up?
      && |Exec(s, ls).value.sstables| < TableLimit(l.compactionTrigger)
    else l.FlushTrigger? || OpenedSmallOrFlushed(s, before)
  }

  lemma OpenAccounts(s: State, l: Label)
    requires s.Down? && l.Open? && Step(s, l).Some?
    requires |Step(s, l).value.sstables| < TableLimit(l.compactionTrigger)
    ensures Accounted(Step(s, l).value)
  {
    hide RecoverTables, Records, ValidEnd, FoldRecords, NextNumber;
  }

  lemma OpenNeedsDown(s: State, l: Label)
    requires l.Open? && Step(s, l).Some?
    ensures s.Down?
  {
    if s.Up? {
      NotWhileUp(s, l);
    }
  }

  lemma StaysDown(s: State, l: Label)
    requires s.Down? && !l.Open? && Step(s, l).Some?
    ensures Step(s, l).value.Down?
  {
  }

  lemma {:induction false} AccountedReachable(files: Files, ls: seq<Label>)
    requires Exec(Down(files), ls).Some?
    ensures SnapshotInv(Exec(Down(files), ls).value)
    ensures OpenedSmallOrFlushed(Down(files), ls) && Exec(Down(files), ls).value.Up? ==>
              Accounted(Exec(Down(files), ls).value)
  {
    hide Step, SnapshotInv, Accounted;
    var t := Exec(Down(files), ls).value;
    if ls == [] {
      SnapshotDown(files);
    } else {
      var before, l := ls[..|ls| - 1], ls[|ls| - 1];
      var s := Exec(Down(files), before).value;
      AccountedReachable(files, before);
      SnapshotStep(s, l);
      if OpenedSmallOrFlushed(Down(files), ls) && t.Up? {
        if l.Open? {
          OpenNeedsDown(s, l);
          OpenAccounts(s, l);
        } else if s.Down? {
          StaysDown(s, l);
        } else if l.FlushTrigger? {
          TriggerAccounts(s);
        } else if !l.Kill? {
          AccountedStep(s, l);
        } else {
          KillEffect(s);
        }
      }
    }
  }

  lemma SnapshotDown(files: Files)
    ensures SnapshotInv(Down(files))
  {
  }

  /** The protocol. In every state reachable from any directory in which no flush is between
      adding its table and testing the trigger, no request is pending and no compaction runs,
      the number of tables is below the trigger count, or below two, provided the store was
      opened below that limit or has flushed since. */
  lemma TablesStayBelowLimit(files: Files, ls: seq<Label>)
    requires Exec(Down(files), ls).Some? && OpenedSmallOrFlushed(Down(files), ls)
    requires var s := Exec(Down(files), ls).value;
             s.Up? && !MidFlush(s.writer) && !s.requested && s.compactor.Waiting?
    ensures var s := Exec(Down(files), ls).value;
            |s.sstables| < 2 || |s.sstables| < s.compactionTrigger
  {
    hide Exec, OpenedSmallOrFlushed, SnapshotInv;
    AccountedReachable(files, ls);
  }

  // ----- no request is lost -----

  /** The state after the first `j` steps. */
  ghost function At(s: State, ls: seq<Label>, j: nat): (t: State)
    requires s.Up? && NoKill(ls) && Exec(s, ls).Some? && j <= |ls|
    ensures t.Up? && Exec(s, ls[..j]) == Some(t)
  {
    StaysUp(s, ls, j);
    Exec(s, ls[..j]).value
  }

  lemma {:induction false} StaysUp(s: State, ls: seq<Label>, j: nat)
    requires s.Up? && NoKill(ls) && Exec(s, ls).Some? && j <= |ls|
    ensures Exec(s, ls[..j]).Some? && Exec(s, ls[..j]).value.Up?
  {
    hide Step;
    if ls == [] {
      assert ls[..j] == ls;
    } else {
      var init := ls[..|ls| - 1];
      StaysUp(s, init, |init|);
      assert init[..|init|] == init;
      WriterPhases(Exec(s, init).value, ls[|ls| - 1]);
      if j == |ls| {
        assert ls[..j] == ls;
      } else {
        StaysUp(s, init, j);
        assert init[..j] == ls[..j];
      }
    }
  }

  lemma AtNext(s: State, ls: seq<Label>, j: nat)
    requires s.Up? && NoKill(ls) && Exec(s, ls).Some? && j < |ls|
    ensures Step(At(s, ls, j), ls[j]) == Some(At(s, ls, j + 1))
  {
    hide Step;
    assert ls[..j + 1] == ls[..j] + [ls[j]];
    ExecPush(s, ls[..j], ls[j]);
  }

  lemma WriterKeepsRequest(s: State, l: Label)
    requires s.Up? && s.requested && IsWriterLabel(l) && WriterStep(s, l).Some?
    ensures WriterStep(s, l).value.Up? && WriterStep(s, l).value.requested
  {
    hide TmpName, SSTableFilename, TableAt, Fits, AppendTo, RenameTo, TableBytes, TableSize, EncodeRecordValue,
         Canonical;
  }

  /** The flag is cleared only by the step that starts a compaction. */
  lemma ClearedByStart(s: State, l: Label)
    requires s.Up? && s.requested && Step(s, l).Some? && Step(s, l).value.Up? && !Step(s, l).value.requested
    ensures l == CompactionStart && Step(s, l).value.compactor == Started
  {
    hide Step, WriterStep, SSTableFilename, TmpName, RenameTo, CompactedBytes, TableAt;
    if IsWriterLabel(l) {
      WriterStepIs(s, l);
      WriterKeepsRequest(s, l);
    } else {
      match l {
        case CompactCreate => CompactionTmpEffect(s, l);
        case CompactByte => CompactionTmpEffect(s, l);
        case CompactRename => CompactRenameEffect(s);
        case Swap => SwapEffect(s);
        case RemoveOldest => RemoveOldestEffect(s);
        case Kill => KillEffect(s);
        case _ =>
          if l.CleanTmp? || l.CreateLog? || l.TruncateLog? || l.Open? {
            NotWhileUp(s, l);
          } else {
            CompactionMemoryEffect(s, l);
          }
      }
    }
  }

  /** What a compaction works on: the whole list, if it has at least two tables. */
  ghost function WorkOn(fs: seq<File>): Compactor {
    if |fs| < 2 then Nothing else Merging(fs)
  }

  lemma StartedStep(s: State, l: Label)
    requires s.Up? && s.compactor.Started? && Step(s, l).Some? && !l.Kill?
    ensures var t := Step(s, l).value; t.Up? && t.compactor == if l.Snapshot? then WorkOn(s.sstables) else Started
  {
    hide WriterStep, TmpName, SSTableFilename, TableAt, CompactedBytes, Compacted, Fits, AppendTo, RenameTo,
         TableBytes, TableSize, EncodeRecordValue, Canonical, Tables;
    if IsWriterLabel(l) {
      WriterKeepsCompactor(s, l);
    }
  }

  ghost predicate NoSnapshot(ls: seq<Label>, from: nat, to: nat)
    requires to <= |ls|
  {
    forall m :: from <= m < to ==> !ls[m].Snapshot?
  }

  /** From position `i` on, the compaction waits for its snapshot, and that snapshot is the whole
      list of its moment. */
  ghost predicate TakesWholeList(s: State, ls: seq<Label>, i: nat)
    requires s.Up? && NoKill(ls) && Exec(s, ls).Some?
  {
    forall j :: i <= j < |ls| && NoSnapshot(ls, i, j) ==>
      At(s, ls, j).compactor == Started
      && (ls[j].Snapshot? ==> At(s, ls, j + 1).compactor == WorkOn(At(s, ls, j).sstables))
  }

  lemma {:induction false} WaitsForSnapshot(s: State, ls: seq<Label>, i: nat, j: nat)
    requires s.Up? && NoKill(ls) && Exec(s, ls).Some?
    requires i <= j <= |ls| && NoSnapshot(ls, i, j) && At(s, ls, i).compactor == Started
    ensures At(s, ls, j).compactor == Started
  {
    hide Step, Exec, At, WorkOn;
    if i < j {
      WaitsForSnapshot(s, ls, i, j - 1);
      AtNext(s, ls, j - 1);
      StartedStep(At(s, ls, j - 1), ls[j - 1]);
    }
  }

  /** No request is lost. If a request is pending at some time and at a later time, with no kill
      between, it is not, then a compaction was started in the meantime while it was pending,
      and that compaction works on the whole list of a moment after its start. */
  lemma RequestsAreServed(s: State, ls: seq<Label>) returns (i: nat)
    requires s.Up? && s.requested && NoKill(ls) && Exec(s, ls).Some? && !At(s, ls, |ls|).requested
    ensures i < |ls| && ls[i] == CompactionStart && TakesWholeList(s, ls, i + 1)
    ensures forall j :: 0 <= j <= i ==> At(s, ls, j).requested
  {
    hide Step, Exec, At, WorkOn;
    i := FirstCleared(s, ls);
    AtNext(s, ls, i);
    ClearedByStart(At(s, ls, i), ls[i]);
    forall j | i + 1 <= j < |ls| && NoSnapshot(ls, i + 1, j)
      ensures At(s, ls, j).compactor == Started
      ensures ls[j].Snapshot? ==> At(s, ls, j + 1).compactor == WorkOn(At(s, ls, j).sstables)
    {
      WaitsForSnapshot(s, ls, i + 1, j);
      AtNext(s, ls, j);
      StartedStep(At(s, ls, j), ls[j]);
    }
  }

  lemma FirstCleared(s: State, ls: seq<Label>) returns (i: nat)
    requires s.Up? && s.requested && NoKill(ls) && Exec(s, ls).Some? && !At(s, ls, |ls|).requested
    ensures i < |ls| && !At(s, ls, i + 1).requested && forall j :: 0 <= j <= i ==> At(s, ls, j).requested
  {
    hide Step, Exec, At;
    i := 0;
    AtStart(s, ls);
    while At(s, ls, i + 1).requested
      invariant i < |ls| && forall j :: 0 <= j <= i ==> At(s, ls, j).requested
      decreases |ls| - i
    {
      i := i + 1;
    }
  }

  lemma AtStart(s: State, ls: seq<Label>)
    requires s.Up? && NoKill(ls) && Exec(s, ls).Some?
    ensures At(s, ls, 0) == s
  {
    assert ls[..0] == [];
  }
}
