/** Crash safety over whole runs: any interleaving of writes, flushes and compaction, killed
    after any file-system effect, any number of times, including during recovery. */
module CrashSafety {
  import opened Results
  import opened WalRecord
  import opened Wal
  import opened FileSystem
  import opened Entries
  import opened Layers
  import opened SSTableFormat
  import opened FileNames
  import opened Recovery
  import opened Machine
  import opened LiveRefinement
  import opened DiskOrder

  // ----- quiet runs keep file numbers in the order of age -----

  ghost predicate QuietOrder(s: State) {
    s.Up? ==>
      InNumberOrder(s.sstables)
      && match s.compactor
         case Merging(snapshot) => s.sstables == snapshot && !s.writer.FlushWriting? && !s.writer.FlushRenamed?
         case Allocated(snapshot, n) => AllAbove(s.sstables, |snapshot|, n)
         case Writing(snapshot, n, _) => AllAbove(s.sstables, |snapshot|, n)
         case Renamed(snapshot, n) => AllAbove(s.sstables, |snapshot|, n)
         case _ => true
  }

  /** Nothing is left over but the sources that the deletion loop has not reached, and they are
      harmless under their compaction. */
  ghost predicate QuietLeft(s: State) {
    s.Up? ==>
      match s.compactor
      case Deleting(rest) =>
        Leftovers(s) == rest && s.sstables != [] && Harmless(Tables(rest), s.sstables[0].table)
      case _ => Leftovers(s) == []
  }

  lemma QuietWriter(s: State, l: Label)
    requires s.Up? && LiveInv(s) && QuietOrder(s) && QuietStep(s, l) && Step(s, l).Some? && IsWriterLabel(l)
    ensures QuietOrder(Step(s, l).value)
  {
    hide WriterStep, CompactorStep, WriterInv, Holds, Fits, Compacted, TableBytes, SSTableFilename, TmpName,
         TableAt, RenameTo;
    if l.FlushOpen? {
      FlushOpenEffect(s);
    } else if l.FlushRename? {
      FlushRenameEffect(s);
    } else {
      UnlistedFilesEffect(s, l);
    }
  }

  lemma QuietSwap(s: State)
    requires s.Up? && LiveInv(s) && QuietOrder(s) && Step(s, Swap).Some?
    ensures QuietOrder(Step(s, Swap).value)
  {
    hide Step, LiveInv, TableAt, SSTableFilename;
    SwapEffect(s);
    var t, p := Step(s, Swap).value, |s.compactor.snapshot|;
    assert forall i :: 0 < i < |t.sstables| ==> t.sstables[i] == s.sstables[p + i - 1];
  }

  lemma QuietCompactor(s: State, l: Label)
    requires s.Up? && LiveInv(s) && QuietOrder(s) && Step(s, l).Some? && !IsWriterLabel(l) && !l.Kill?
    ensures QuietOrder(Step(s, l).value)
  {
    hide SSTableFilename, TmpName, TableAt, CompactedBytes, Compacted, Fits, AppendTo, RenameTo, WriterInv,
         CompactorInv, WriterStep, Tables, InNumberOrder;
    if l.Swap? {
      QuietSwap(s);
    }
  }

  lemma QuietOrderStep(s: State, l: Label)
    requires LiveInv(s) && QuietOrder(s) && QuietStep(s, l) && Step(s, l).Some?
    ensures QuietOrder(Step(s, l).value)
  {
    hide WriterStep, CompactorStep, LiveInv, QuietStep, RecoverTables, InNumberOrder;
    if s.Down? {
      if l.Open? {
        RecoveredAscending(s.files);
      }
    } else if IsWriterLabel(l) {
      QuietWriter(s, l);
    } else if !l.Kill? {
      QuietCompactor(s, l);
    }
  }

  lemma QuietLeftStep(s: State, l: Label)
    requires LiveInv(s) && DiskInv(s) && QuietOrder(s) && QuietLeft(s) && QuietStep(s, l) && Step(s, l).Some?
    ensures QuietLeft(Step(s, l).value)
  {
    hide LiveInv, DiskInv, Step, Leftovers, LeftAfter, QuietOrder, QuietLeft;
    OrderStep(s, l);
    var t := Step(s, l).value;
    if t.Down? {
      DownQuiet(t.files);
    } else if s.Down? {
      OpensWaiting(s, l);
      QuietWaiting(t);
    } else if l.Swap? {
      QuietSwapLeft(s, t);
    } else if l.RemoveOldest? {
      QuietRemoveLeft(s, t);
    } else {
      OtherLeft(s, l, t);
    }
  }

  lemma QuietWaiting(t: State)
    requires t.Up? && t.compactor.Waiting? && Leftovers(t) == []
    ensures QuietLeft(t)
  {
  }

  lemma OpensWaiting(s: State, l: Label)
    requires s.Down? && Step(s, l).Some?
    ensures Step(s, l).value.Up? ==> Step(s, l).value.compactor.Waiting?
  {
    hide RecoverTables, Records, ValidEnd, FoldRecords;
  }

  lemma QuietSwapLeft(s: State, t: State)
    requires s.Up? && LiveInv(s) && DiskInv(s) && QuietOrder(s) && QuietLeft(s)
    requires t.Up? && Step(s, Swap) == Some(t) && Leftovers(t) == LeftAfter(s, Swap)
    ensures QuietLeft(t)
  {
    hide Step, LiveInv, FoundOnDisk, Leftovers, Compacted, Harmless, Reorder;
    SwapOrder(s, Leftovers(s));
    var snapshot := s.compactor.snapshot;
    SnapshotInOrder(s);
    ReorderAscending(snapshot);
    SnapshotHarmless(Tables(snapshot));
  }

  lemma SnapshotInOrder(s: State)
    requires s.Up? && LiveInv(s) && QuietOrder(s) && s.compactor.Renamed?
    ensures InNumberOrder(s.compactor.snapshot)
  {
    hide WriterInv, Compacted, TableBytes, Fits;
  }

  lemma QuietRemoveLeft(s: State, t: State)
    requires s.Up? && QuietLeft(s)
    requires t.Up? && Step(s, RemoveOldest) == Some(t) && Leftovers(t) == LeftAfter(s, RemoveOldest)
    ensures QuietLeft(t)
  {
    hide Step, Leftovers, Harmless, Tables;
    RemoveOldestEffect(s);
    var rest := s.compactor.rest;
    TablesTail(rest);
    DropOldestHarmless(Tables(rest), s.sstables[0].table);
  }

  lemma TablesTail(fs: seq<File>)
    requires fs != []
    ensures Tables(fs)[1..] == Tables(fs[1..])
  {
  }

  /** The other steps neither start nor move the deletion loop, and leave the first table. */
  lemma OtherLeft(s: State, l: Label, t: State)
    requires s.Up? && QuietLeft(s) && t.Up? && Step(s, l) == Some(t)
    requires QuietStep(s, l) && !l.Swap? && !l.RemoveOldest? && Leftovers(t) == LeftAfter(s, l)
    ensures QuietLeft(t)
  {
    hide WriterStep, Leftovers, Harmless, Tables, SSTableFilename, TmpName, TableAt, CompactedBytes, Compacted,
         Fits, AppendTo, RenameTo, TableBytes, TableSize, EncodeRecordValue;
    if IsWriterLabel(l) {
      if l.FlushOpen? {
        FlushOpenEffect(s);
      } else if l.FlushRename? {
        FlushRenameEffect(s);
      } else {
        UnlistedFilesEffect(s, l);
      }
    }
  }

  /** In a quiet run nothing is ever stale. */
  lemma QuietNothingStale(s: State, mem: Table)
    requires s.Up? && LiveInv(s) && QuietOrder(s) && QuietLeft(s)
    ensures NoStaleKey(s, mem)
  {
    hide WriterInv, StaleUnder, Compacted, TableBytes, Fits, Leftovers, Harmless, Tables, Reorder;
    forall k
      ensures !KeyIsStale(s, mem, k)
    {
      match s.compactor {
        case Renamed(snapshot, n) =>
          ReorderAscending(snapshot);
          assert Leftovers(s) + Reorder(snapshot) == snapshot;
          SnapshotHarmless(Tables(snapshot));
          NothingStale(k, snapshot, File(n, Compacted(Tables(snapshot))), s.sstables[|snapshot|..], mem);
        case _ =>
          if s.sstables != [] {
            NothingUnder(s.sstables[0].table);
            NothingStale(k, Leftovers(s), s.sstables[0], s.sstables[1..], mem);
          }
      }
    }
  }

  /** Reopening after a kill at any point of a quiet run. */
  lemma Reopened(s: State)
    requires s.Up? && LiveInv(s) && DiskInv(s) && QuietOrder(s) && QuietLeft(s)
    ensures RecoveredView(s.files) == Success(Durable(s))
  {
    hide LiveInv, DiskInv, QuietOrder, QuietLeft, RecoveredView, Durable, NoStaleKey, Replayed;
    QuietNothingStale(s, Replayed(s));
    ReopenedIff(s);
  }

  // ----- histories -----

  /** Reopening succeeds and shows the history, or the history and the write in flight. */
  ghost predicate RecoversTo(files: Files, history: seq<Record>, pending: Option<Record>) {
    RecoveredView(files) == Success(ApplyAll(history))
    || (pending.Some? && RecoveredView(files) == Success(ApplyAll(history + [pending.value])))
  }

  /** How a state relates to a history of writes and the write in flight. */
  ghost predicate Explains(s: State, history: seq<Record>, pending: Option<Record>) {
    match s
    case Down(files) => RecoversTo(files, history, pending)
    case Up(_, _, _, _, _, _, writer, _, _) =>
      match writer
      case Idle => pending == None && Seen(s) == ApplyAll(history)
      case Appending(op, _) => pending == Some(op) && Seen(s) == ApplyAll(history)
      case Logged(op) => pending == Some(op) && Seen(s) == ApplyAll(history)
      case _ => pending == Some(writer.op) && Seen(s) == ApplyAll(history + [writer.op])
  }

  lemma KillExplained(s: State, history: seq<Record>, pending: Option<Record>)
    requires s.Up? && LiveInv(s) && DiskInv(s) && QuietOrder(s) && QuietLeft(s) && Explains(s, history, pending)
    ensures Explains(Down(s.files), history, pending)
  {
    hide LiveInv, DiskInv, QuietOrder, QuietLeft, RecoveredView, Seen, Apply, ApplyAll;
    Reopened(s);
    if s.writer.Logged? {
      ApplyAllPush(history, s.writer.op);
    }
  }

  lemma ApplyAllPush(history: seq<Record>, r: Record)
    ensures ApplyAll(history + [r]) == Apply(ApplyAll(history), r)
  {
    FoldPush(history, r);
  }

  lemma RunningExplained(s: State, l: Label, history: seq<Record>, pending: Option<Record>)
    requires s.Up? && LiveInv(s) && Explains(s, history, pending)
    requires Step(s, l).Some? && !l.Kill?
    ensures l.Begin? ==> pending == None && Explains(Step(s, l).value, history, Some(l.op))
    ensures l.Return? ==> pending.Some? && Explains(Step(s, l).value, history + [pending.value], None)
    ensures !l.Begin? && !l.Return? ==> Explains(Step(s, l).value, history, pending)
  {
    hide LiveInv, Seen, Apply, ApplyAll, Step, RecoveredView;
    SeenStep(s, l);
    WriterPhases(s, l);
    if l.ApplyToMemTable? {
      ApplyAllPush(history, s.writer.op);
    }
  }

  lemma OpenExplained(files: Files, l: Label, history: seq<Record>, pending: Option<Record>)
    requires l.Open? && Explains(Down(files), history, pending) && Step(Down(files), l).Some?
    ensures var t := Step(Down(files), l).value;
            Explains(t, history, None) || (pending.Some? && Explains(t, history + [pending.value], None))
  {
    hide RecoverTables, Records, FoldRecords, ValidEnd, ApplyAll, View;
  }

  /** One step of the run, on the level of histories. */
  lemma ExplainStep(s: State, l: Label, ls: seq<Label>, history: seq<Record>, pending: Option<Record>)
    returns (h: seq<Record>, p: Option<Record>)
    requires LiveInv(s) && DiskInv(s) && QuietOrder(s) && QuietLeft(s) && Step(s, l).Some?
    requires Allowed(ls, history, pending) && Explains(s, history, pending)
    ensures Allowed(ls + [l], h, p) && Explains(Step(s, l).value, h, p)
  {
    hide LiveInv, DiskInv, QuietOrder, QuietLeft, WriterStep, CompactorStep, Recover, RecoveredView, Seen,
         ApplyAll, Explains;
    h, p := history, pending;
    assert (ls + [l])[..|ls|] == ls;
    if s.Up? {
      if l.Kill? {
        KillExplained(s, history, pending);
      } else {
        RunningExplained(s, l, history, pending);
        if l.Begin? {
          p := Some(l.op);
        } else if l.Return? {
          h, p := history + [pending.value], None;
          assert h[..|history|] == history;
        } else if l.Open? {
          NotWhileUp(s, l);
        }
      }
    } else if l.Open? {
      OpenExplained(s.files, l, history, pending);
      p := None;
      if !Explains(Step(s, l).value, history, None) {
        h := history + [pending.value];
        assert h[..|history|] == history;
      }
    } else {
      RecoveryKeeps(s.files, l);
      DownExplained(s.files, Step(s, l).value.files, history, pending);
      NotWhileDown(s.files, l);
    }
  }

  lemma DownExplained(files: Files, other: Files, history: seq<Record>, pending: Option<Record>)
    requires RecoveredView(files) == RecoveredView(other) && Explains(Down(files), history, pending)
    ensures Explains(Down(other), history, pending)
  {
    hide RecoveredView;
  }

  lemma NotWhileDown(files: Files, l: Label)
    requires Step(Down(files), l).Some?
    ensures l.Kill? || l.CleanTmp? || l.CreateLog? || l.TruncateLog? || l.Open?
  {
  }

  // ----- the theorem -----

  lemma FreshStore()
    ensures DiskInv(Down(map[])) && Explains(Down(map[]), [], None)
  {
    FreshDirectory();
    RecoverExpected(map[], []);
    NothingToReplay([]);
    assert LogBytes(map[]) == [];
    assert Tables([]) == [] && View([], map[]) == map[];
    assert ApplyAll([]) == map[];
    assert RecoveredView(map[]) == Success(View([], map[]));
    assert RecoversTo(map[], [], None);
  }

  /** Every quiet run from an empty directory keeps the invariants and is explained by some
      history that it allows. */
  lemma {:induction false} QuietRunsExplained(ls: seq<Label>) returns (h: seq<Record>, p: Option<Record>)
    requires Exec(Down(map[]), ls).Some? && Quiet(Down(map[]), ls)
    ensures var s := Exec(Down(map[]), ls).value;
            LiveInv(s) && DiskInv(s) && QuietOrder(s) && QuietLeft(s) && Explains(s, h, p)
    ensures Allowed(ls, h, p)
  {
    hide LiveInv, DiskInv, QuietOrder, QuietLeft, Step, Explains, QuietStep;
    if ls == [] {
      FreshStore();
      DownLive(map[]);
      DownQuiet(map[]);
      h, p := [], None;
    } else {
      var before, l := ls[..|ls| - 1], ls[|ls| - 1];
      h, p := QuietRunsExplained(before);
      var s := Exec(Down(map[]), before).value;
      LiveStep(s, l);
            OrderStep(s, l);
      QuietOrderStep(s, l);
      QuietLeftStep(s, l);
      h, p := ExplainStep(s, l, before, h, p);
      assert ls == before + [l];
    }
  }

  lemma DownQuiet(files: Files)
    ensures QuietOrder(Down(files)) && QuietLeft(Down(files))
  {
  }

  /** Crash safety. After any quiet run from an empty directory, with any number of kills, a
      kill now is followed by a successful reopening whose contents are the fold of a history
      the callers were promised: the acknowledged writes in order, for each earlier kill
      possibly the write then in flight, and possibly the write in flight now. */
  lemma CrashSafety(ls: seq<Label>)
    requires Exec(Down(map[]), ls).Some? && Quiet(Down(map[]), ls)
    ensures exists h, p :: Allowed(ls, h, p) && RecoversTo(Exec(Down(map[]), ls).value.files, h, p)
  {
    hide LiveInv, DiskInv, QuietOrder, QuietLeft, Step, RecoveredView, ApplyAll, Exec, Quiet, Allowed;
    var h, p := QuietRunsExplained(ls);
    var s := Exec(Down(map[]), ls).value;
    if s.Up? {
      KillExplained(s, h, p);
    }
    assert Allowed(ls, h, p) && RecoversTo(s.files, h, p);
  }

  // ----- one session, in full -----

  /** The writes begun, in order. */
  function Begun(ls: seq<Label>): seq<Record> {
    if ls == [] then []
    else Begun(ls[..|ls| - 1]) + if ls[|ls| - 1].Begin? then [ls[|ls| - 1].op] else []
  }

  /** How many calls have returned. */
  function Returned(ls: seq<Label>): nat {
    if ls == [] then 0 else Returned(ls[..|ls| - 1]) + if ls[|ls| - 1].Return? then 1 else 0
  }

  /** Without a kill only one history is allowed: the calls that have returned, in order. */
  lemma {:induction false} OneSession(files: Files, ls: seq<Label>, h: seq<Record>, p: Option<Record>)
    requires Exec(Down(files), ls).Some? && NoKill(ls) && Allowed(ls, h, p)
    ensures Exec(Down(files), ls).value.Down? ==> Begun(ls) == []
    ensures Returned(ls) == |h| && Begun(ls) == h + if p.Some? then [p.value] else []
  {
    hide Step;
    if ls != [] {
      var before, l := ls[..|ls| - 1], ls[|ls| - 1];
      var s := Exec(Down(files), before).value;
      SessionStep(s, l);
      if l.Begin? {
        OneSession(files, before, h, None);
      } else if l.Return? {
        OneSession(files, before, h[..|h| - 1], Some(h[|h| - 1]));
      } else if l.Open? {
        if q :| Allowed(before, h, q) {
          OneSession(files, before, h, q);
        } else {
          OneSession(files, before, h[..|h| - 1], Some(h[|h| - 1]));
        }
      } else {
        OneSession(files, before, h, p);
      }
    }
  }

  lemma SessionStep(s: State, l: Label)
    requires Step(s, l).Some? && !l.Kill?
    ensures l.Begin? || l.Return? ==> s.Up?
    ensures l.Open? ==> s.Down?
    ensures s.Up? ==> Step(s, l).value.Up?
  {
    hide Step;
    if s.Down? {
      NotWhileDown(s.files, l);
    } else {
      WriterPhases(s, l);
      if l.Open? {
        NotWhileUp(s, l);
      }
    }
  }

  /** A kill of a store that has not been killed before: reopening shows exactly the writes that
      had returned, in order, or those and the one that had begun. */
  lemma FirstKill(ls: seq<Label>)
    requires Exec(Down(map[]), ls).Some? && Quiet(Down(map[]), ls) && NoKill(ls)
    ensures Returned(ls) <= |Begun(ls)| <= Returned(ls) + 1
    ensures var view := RecoveredView(Exec(Down(map[]), ls).value.files);
            view == Success(ApplyAll(Begun(ls)[..Returned(ls)])) || view == Success(ApplyAll(Begun(ls)))
  {
    hide Step, RecoveredView, ApplyAll, Exec, Quiet, Allowed;
    CrashSafety(ls);
    var h, p :| Allowed(ls, h, p) && RecoversTo(Exec(Down(map[]), ls).value.files, h, p);
    OneSession(map[], ls, h, p);
    assert Begun(ls)[..Returned(ls)] == h;
  }

  /** Between kills, a store nobody is writing to shows exactly such a history. */
  lemma AcknowledgedWritesAreSeen(ls: seq<Label>)
    requires Exec(Down(map[]), ls).Some? && Quiet(Down(map[]), ls)
    requires Exec(Down(map[]), ls).value.Up? && Exec(Down(map[]), ls).value.writer.Idle?
    ensures exists h :: Allowed(ls, h, None) && Seen(Exec(Down(map[]), ls).value) == ApplyAll(h)
  {
    hide LiveInv, DiskInv, QuietOrder, QuietLeft, Step, Seen, RecoveredView, ApplyAll, Exec, Quiet, Allowed;
    var h, p := QuietRunsExplained(ls);
    assert p == None;
  }

  /** Generation order: in every running state of a quiet run the open list is in number order
      and below the next number, and the constructor's sort of the surviving files finds the
      tables on disk in age order: sources still to be deleted, the compacted file (swapped in
      or only renamed), and what was flushed since. */
  lemma GenerationOrder(ls: seq<Label>)
    requires Exec(Down(map[]), ls).Some? && Quiet(Down(map[]), ls) && Exec(Down(map[]), ls).value.Up?
    ensures var s := Exec(Down(map[]), ls).value;
            && InNumberOrder(s.sstables) && AllBelow(s.sstables, s.next)
            && RecoverTables(s.files) == Success(AgeOrder(s))
  {
    hide Step, Exec, Quiet, Explains, Allowed, FilesAre, RecoverTables, WriterInv, CompactorInv, Compacted, Order,
         InNumberOrder, Leftovers, ListOrder;
    var h, p := QuietRunsExplained(ls);
    var s := Exec(Down(map[]), ls).value;
    RecoverExpected(s.files, Leftovers(s) + DiskFiles(s));
    AgeOrderOnDisk(s);
  }

  /** The tables on disk in age order. */
  ghost function AgeOrder(s: State): seq<File>
    requires s.Up?
  {
    (match s.compactor
     case Renamed(snapshot, n) =>
       if |snapshot| <= |s.sstables| then
         snapshot + [File(n, Compacted(Tables(snapshot)))] + s.sstables[|snapshot|..]
       else s.sstables
     case Deleting(rest) => rest + s.sstables
     case _ => s.sstables)
    + if s.writer.FlushRenamed? then [File(s.next, s.mem)] else []
  }

  lemma AgeOrderOnDisk(s: State)
    requires s.Up? && LiveInv(s) && QuietOrder(s) && QuietLeft(s)
    ensures Leftovers(s) + DiskFiles(s) == AgeOrder(s)
  {
    hide LiveInv, Compacted, Reorder, Insert, Leftovers, Harmless, InNumberOrder, AllAbove, Tables;
    ReorderAscending(s.sstables);
    if s.compactor.Renamed? {
      SnapshotInOrder(s);
      ReorderAscending(s.compactor.snapshot);
      RenamedAbove(s);
      NothingBelow(File(s.compactor.number, Compacted(Tables(s.compactor.snapshot))),
                   s.sstables[|s.compactor.snapshot|..]);
    }
    AgePieces(Leftovers(s), SettledFiles(s), DiskFiles(s)[|SettledFiles(s)|..]);
  }

  lemma AgePieces(left: seq<File>, settled: seq<File>, flushed: seq<File>)
    ensures left + (settled + flushed) == left + settled + flushed
  {
  }

  lemma RenamedAbove(s: State)
    requires s.Up? && LiveInv(s) && QuietOrder(s) && s.compactor.Renamed?
    ensures |s.compactor.snapshot| <= |s.sstables|
    ensures AllAbove(s.sstables[|s.compactor.snapshot|..], 0, s.compactor.number)
  {
    hide WriterInv, Compacted, TableBytes, Fits, InNumberOrder;
  }

  lemma NothingBelow(f: File, fs: seq<File>)
    requires AllAbove(fs, 0, f.number)
    ensures Insert(f, fs) == [f] + fs
  {
  }
}
