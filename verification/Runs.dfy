/** Whole operations as runs of the step machine, with the directory states they pass through. */
module Runs {
  import opened ByteUtil
  import opened Results
  import opened WalRecord
  import opened Wal
  import opened FileSystem
  import opened Entries
  import opened Layers
  import opened SSTableFormat
  import opened SSTable
  import opened FileNames
  import opened Recovery
  import opened Machine
  import opened LiveRefinement

  /** Steps that are a file-system effect. */
  predicate IsFileLabel(l: Label) {
    l.AppendByte? || l.FlushCreate? || l.FlushByte? || l.FlushRename? || l.FlushResetLog?
    || l.CompactCreate? || l.CompactByte? || l.CompactRename? || l.RemoveOldest?
    || l.CleanTmp? || l.CreateLog? || l.TruncateLog?
  }

  /** The directory after each file-system effect of a run. */
  ghost function Trail(s: State, ls: seq<Label>): seq<Files> {
    if ls == [] then []
    else
      Trail(s, ls[..|ls| - 1])
      + (if IsFileLabel(ls[|ls| - 1]) && Exec(s, ls).Some? then [Exec(s, ls).value.files] else [])
  }

  /** From `s` the steps `ls` lead to `t` and take the directory through `trail`. */
  ghost predicate Leads(s: State, ls: seq<Label>, t: State, trail: seq<Files>) {
    Exec(s, ls) == Some(t) && Trail(s, ls) == trail
  }

  lemma RunsNothing(s: State)
    ensures Leads(s, [], s, [])
  {
  }

  lemma RunsOne(s: State, l: Label)
    requires Step(s, l).Some?
    ensures Leads(s, [l], Step(s, l).value, if IsFileLabel(l) then [Step(s, l).value.files] else [])
  {
    hide Step;
    assert [l][..0] == [];
    assert Exec(s, []) == Some(s) && Trail(s, []) == [];
  }

  lemma {:induction false} RunsThen(s: State, a: seq<Label>, t: State, x: seq<Files>,
                                    b: seq<Label>, u: State, y: seq<Files>)
    requires Leads(s, a, t, x) && Leads(t, b, u, y)
    ensures Leads(s, a + b, u, x + y)
  {
    hide Step;
    ExecConcat(s, a, b);
    TrailConcat(s, a, b);
  }

  lemma {:induction false} TrailConcat(s: State, a: seq<Label>, b: seq<Label>)
    requires Exec(s, a).Some?
    ensures Trail(s, a + b) == Trail(s, a) + Trail(Exec(s, a).value, b)
  {
    hide Step, Exec;
    if b == [] {
      assert a + b == a;
    } else {
      var init := b[..|b| - 1];
      assert (a + b)[..|a + b| - 1] == a + init;
      TrailConcat(s, a, init);
      ExecConcat(s, a, b);
    }
  }

  lemma RunsStep(s: State, ls: seq<Label>, t: State, trail: seq<Files>, l: Label)
    requires Leads(s, ls, t, trail) && Step(t, l).Some?
    ensures Leads(s, ls + [l], Step(t, l).value, trail + if IsFileLabel(l) then [Step(t, l).value.files] else [])
  {
    hide Leads, Step;
    RunsOne(t, l);
    RunsThen(s, ls, t, trail, [l], Step(t, l).value, if IsFileLabel(l) then [Step(t, l).value.files] else []);
  }

  /** One step of a live state that touches no file. */
  lemma OneQuick(s: State, l: Label, t: State)
    requires LiveInv(s) && Step(s, l) == Some(t) && !IsFileLabel(l)
    ensures LiveInv(t) && Leads(s, [l], t, [])
  {
    hide Step, LiveInv, Leads;
    RunsOne(s, l);
    LiveStep(s, l);
  }

  function Repeat(l: Label, n: nat): (ls: seq<Label>)
    ensures |ls| == n
  {
    if n == 0 then [] else Repeat(l, n - 1) + [l]
  }

  lemma {:induction false} RepeatIs(l: Label, n: nat)
    ensures forall i :: 0 <= i < n ==> Repeat(l, n)[i] == l
  {
    if n > 0 {
      RepeatIs(l, n - 1);
    }
  }

  // ----- byte by byte -----

  lemma SameFiles(files: Files, name: string)
    requires name in files
    ensures files[name := files[name]] == files
  {
  }

  lemma Overwrite(files: Files, name: string, a: Bytes, b: Bytes)
    ensures files[name := a][name := b] == files[name := b]
  {
  }

  ghost function AppendedState(s: State, op: Record, j: nat): State
    requires s.Up? && WAL_NAME in s.files && j <= |EncodeRecordValue(op)|
  {
    s.(files := s.files[WAL_NAME := s.files[WAL_NAME] + EncodeRecordValue(op)[..j]],
       writer := if j < |EncodeRecordValue(op)| then Appending(op, j) else Logged(op))
  }

  lemma {:induction false} AppendRun(s: State, op: Record, j: nat)
    requires s.Up? && s.writer == Appending(op, 0) && WAL_NAME in s.files && j <= |EncodeRecordValue(op)|
    ensures Leads(s, Repeat(AppendByte, j), AppendedState(s, op, j),
                 AppendStates(s.files, WAL_NAME, EncodeRecordValue(op))[..j])
  {
    hide EncodeRecordValue, CompactorStep, Recover, TableBytes, Fits, TableAt, Leads, Exec, Trail;
    var e := EncodeRecordValue(op);
    var states := AppendStates(s.files, WAL_NAME, e);
    if j == 0 {
      assert s.files[WAL_NAME] + e[..0] == s.files[WAL_NAME];
      SameFiles(s.files, WAL_NAME);
      assert AppendedState(s, op, 0) == s;
      RunsNothing(s);
    } else {
      AppendRun(s, op, j - 1);
      var m := AppendedState(s, op, j - 1);
      assert m.files[WAL_NAME] + [e[j - 1]] == s.files[WAL_NAME] + e[..j] by {
        assert e[..j] == e[..j - 1] + [e[j - 1]];
      }
      Overwrite(s.files, WAL_NAME, m.files[WAL_NAME], s.files[WAL_NAME] + e[..j]);
      assert Step(m, AppendByte) == Some(AppendedState(s, op, j));
      RunsStep(s, Repeat(AppendByte, j - 1), m, states[..j - 1], AppendByte);
      assert states[..j] == states[..j - 1] + [states[j - 1]];
    }
  }

  ghost function FlushingState(s: State, j: nat): State
    requires s.Up? && s.writer.FlushWriting? && j <= |TableBytes(s.mem)|
  {
    s.(files := s.files[TmpName(s.next) := TableBytes(s.mem)[..j]], writer := FlushWriting(s.writer.op, j))
  }

  lemma FlushNext(s: State, j: nat)
    requires s.Up? && s.writer.FlushWriting? && j < |TableBytes(s.mem)|
    ensures Step(FlushingState(s, j), FlushByte) == Some(FlushingState(s, j + 1))
  {
    hide TmpName, Step, TableBytes, TableAt, Fits, RenameTo, SSTableFilename, EncodeRecordValue, TableSize,
         Canonical;
    WriterStepIs(FlushingState(s, j), FlushByte);
    var e, tmp := TableBytes(s.mem), TmpName(s.next);
    assert e[..j + 1] == e[..j] + [e[j]];
    Overwrite(s.files, tmp, e[..j], e[..j + 1]);
  }

  lemma {:induction false} FlushRun(s: State, j: nat)
    requires s.Up? && s.writer.FlushWriting? && s.writer.written == 0 && j <= |TableBytes(s.mem)|
    requires TmpName(s.next) in s.files && s.files[TmpName(s.next)] == []
    ensures Leads(s, Repeat(FlushByte, j), FlushingState(s, j),
                 AppendStates(s.files, TmpName(s.next), TableBytes(s.mem))[..j])
  {
    hide TmpName, Step, TableBytes, Leads, Exec, Trail;
    var e, tmp := TableBytes(s.mem), TmpName(s.next);
    var states := AppendStates(s.files, tmp, e);
    if j == 0 {
      assert e[..0] == [];
      SameFiles(s.files, tmp);
      assert FlushingState(s, 0) == s;
      RunsNothing(s);
    } else {
      FlushRun(s, j - 1);
      FlushNext(s, j - 1);
      RunsStep(s, Repeat(FlushByte, j - 1), FlushingState(s, j - 1), states[..j - 1], FlushByte);
      assert [] + e[..j] == e[..j];
      assert states[..j] == states[..j - 1] + [states[j - 1]];
    }
  }

  ghost function CompactingState(s: State, j: nat): State
    requires s.Up? && s.compactor.Writing? && j <= |CompactedBytes(s.compactor.snapshot)|
  {
    s.(files := s.files[TmpName(s.compactor.number) := CompactedBytes(s.compactor.snapshot)[..j]],
       compactor := Writing(s.compactor.snapshot, s.compactor.number, j))
  }

  lemma CompactNext(s: State, j: nat)
    requires s.Up? && s.compactor.Writing? && j < |CompactedBytes(s.compactor.snapshot)|
    ensures Step(CompactingState(s, j), CompactByte) == Some(CompactingState(s, j + 1))
  {
    hide TmpName, Step, CompactedBytes, TableAt, Fits, Compacted, Tables, RenameTo, SSTableFilename;
    CompactorStepIs(CompactingState(s, j), CompactByte);
    var e, tmp := CompactedBytes(s.compactor.snapshot), TmpName(s.compactor.number);
    assert e[..j + 1] == e[..j] + [e[j]];
    Overwrite(s.files, tmp, e[..j], e[..j + 1]);
  }

  lemma {:induction false} CompactRun(s: State, j: nat)
    requires s.Up? && s.compactor.Writing? && s.compactor.written == 0 && j <= |CompactedBytes(s.compactor.snapshot)|
    requires TmpName(s.compactor.number) in s.files && s.files[TmpName(s.compactor.number)] == []
    ensures Leads(s, Repeat(CompactByte, j), CompactingState(s, j),
                 AppendStates(s.files, TmpName(s.compactor.number), CompactedBytes(s.compactor.snapshot))[..j])
  {
    hide TmpName, Step, CompactedBytes, Leads, Exec, Trail;
    var e, tmp := CompactedBytes(s.compactor.snapshot), TmpName(s.compactor.number);
    var states := AppendStates(s.files, tmp, e);
    if j == 0 {
      assert e[..0] == [];
      SameFiles(s.files, tmp);
      assert CompactingState(s, 0) == s;
      RunsNothing(s);
    } else {
      CompactRun(s, j - 1);
      CompactNext(s, j - 1);
      RunsStep(s, Repeat(CompactByte, j - 1), CompactingState(s, j - 1), states[..j - 1], CompactByte);
      assert [] + e[..j] == e[..j];
      assert states[..j] == states[..j - 1] + [states[j - 1]];
    }
  }

  // ----- put and remove, up to the threshold test -----

  ghost function ApplyLabels(op: Record): seq<Label> {
    [Begin(op)] + Repeat(AppendByte, |EncodeRecordValue(op)|) + [ApplyToMemTable]
  }

  ghost function AppliedState(s: State, op: Record): State
    requires s.Up? && WAL_NAME in s.files
  {
    s.(files := s.files[WAL_NAME := s.files[WAL_NAME] + EncodeRecordValue(op)],
       mem := s.mem[op.key := EntryFor(op)], writer := Applied(op))
  }

  lemma ApplyRun(s: State, op: Record)
    requires s.Up? && s.writer.Idle? && WAL_NAME in s.files && Canonical(op) == op
    ensures Leads(s, ApplyLabels(op), AppliedState(s, op), AppendStates(s.files, WAL_NAME, EncodeRecordValue(op)))
  {
    hide EncodeRecordValue, CompactorStep, Recover, TableBytes, Fits, TableAt, Leads, Canonical, EntryFor,
         AppendStates;
    var e := EncodeRecordValue(op);
    var states := AppendStates(s.files, WAL_NAME, e);
    var b := s.(writer := Appending(op, 0));
    RunsOne(s, Begin(op));
    AppendRun(b, op, |e|);
    assert states[..|e|] == states && e[..|e|] == e;
    RunsThen(s, [Begin(op)], b, [], Repeat(AppendByte, |e|), AppendedState(b, op, |e|), states);
    assert [] + states == states;
    RunsStep(s, [Begin(op)] + Repeat(AppendByte, |e|), AppendedState(b, op, |e|), states, ApplyToMemTable);
    assert states + [] == states;
  }

  // ----- a flush -----

  ghost function FlushLabels(mem: Table): seq<Label> {
    [FlushCreate] + Repeat(FlushByte, |TableBytes(mem)|)
    + [FlushRename, FlushOpen, FlushResetLog, FlushClear, FlushTrigger]
  }

  /** The directory once a table has been written under `number`. */
  function WrittenFiles(files: Files, number: nat, contents: Bytes): Files {
    (files - {TmpName(number)})[SSTableFilename(number) := contents]
  }

  ghost function FlushedState(s: State): State
    requires s.Up? && s.writer.Applied?
  {
    var fs := s.sstables + [File(s.next, s.mem)];
    s.(files := WrittenFiles(s.files, s.next, TableBytes(s.mem))[WAL_NAME := []], sstables := fs, next := s.next + 1,
       mem := map[], requested := s.requested || |fs| >= s.compactionTrigger, writer := Finished(s.writer.op))
  }

  lemma TableWritten(files: Files, number: nat, contents: Bytes)
    ensures var created := files[TmpName(number) := []];
            RenameTo(created[TmpName(number) := contents], TmpName(number), SSTableFilename(number))
            == WrittenFiles(files, number, contents)
    ensures var created := files[TmpName(number) := []];
            (created - {TmpName(number)})[SSTableFilename(number) := contents] == WrittenFiles(files, number, contents)
  {
    hide TmpName, SSTableFilename;
  }

  /** Creating, writing and renaming the table. */
  lemma FlushWriteRun(s: State)
    requires s.Up? && s.writer.Applied? && TableSize(s.mem) >= s.flushThreshold && Fits(s.mem) && s.next + 1 < TWO_64
    ensures Leads(s, [FlushCreate] + Repeat(FlushByte, |TableBytes(s.mem)|) + [FlushRename],
                 s.(files := WrittenFiles(s.files, s.next, TableBytes(s.mem)), writer := FlushRenamed(s.writer.op)),
                 WriteStates(s.files, SSTableFilename(s.next), TableBytes(s.mem)))
  {
    hide TmpName, SSTableFilename, CompactorStep, Recover, TableBytes, Fits, TableAt, Leads, AppendStates,
         TableSize, WrittenFiles, RenameTo;
    var e := TableBytes(s.mem);
    var c := Step(s, FlushCreate).value;
    var w := FlushingState(c, |e|);
    var states := AppendStates(c.files, TmpName(s.next), e);
    RunsOne(s, FlushCreate);
    FlushRun(c, |e|);
    assert states[..|e|] == states && e[..|e|] == e;
    RunsThen(s, [FlushCreate], c, [c.files], Repeat(FlushByte, |e|), w, states);
    TableWritten(s.files, s.next, e);
    RunsStep(s, [FlushCreate] + Repeat(FlushByte, |e|), w, [c.files] + states, FlushRename);
    assert TmpName(s.next) == TmpPath(SSTableFilename(s.next)) by { TmpNameIs(s.next); }
  }

  lemma TmpNameIs(n: nat)
    ensures TmpName(n) == TmpPath(SSTableFilename(n))
  {
  }

  lemma OpenFlushed(s: State)
    requires s.Up? && LiveInv(s) && s.writer.Applied? && Fits(s.mem)
    ensures TableAt(WrittenFiles(s.files, s.next, TableBytes(s.mem)), SSTableFilename(s.next)) == Success(s.mem)
    ensures WAL_NAME in WrittenFiles(s.files, s.next, TableBytes(s.mem))
  {
    hide TmpName, SSTableFilename, TableBytes, OpenedTable, FoldRecords, Records, ValidEnd, CompactorInv;
    MemTableReadsBack(s.files[WAL_NAME], s.mem);
    NamesDiffer(s.next, s.next);
  }

  lemma FlushRunAll(s: State)
    requires s.Up? && LiveInv(s) && s.writer.Applied?
    requires TableSize(s.mem) >= s.flushThreshold && Fits(s.mem) && s.next + 1 < TWO_64
    ensures Leads(s, FlushLabels(s.mem), FlushedState(s),
                 WriteStates(s.files, SSTableFilename(s.next), TableBytes(s.mem)) + [FlushedState(s).files])
  {
    hide TmpName, SSTableFilename, Step, TableBytes, Fits, TableAt, Leads, WriteStates, TableSize, WrittenFiles,
         LiveInv;
    FlushWriteRun(s);
    OpenFlushed(s);
    var op := s.writer.op;
    var r := s.(files := WrittenFiles(s.files, s.next, TableBytes(s.mem)), writer := FlushRenamed(op));
    var x := WriteStates(s.files, SSTableFilename(s.next), TableBytes(s.mem));
    var ls := [FlushCreate] + Repeat(FlushByte, |TableBytes(s.mem)|) + [FlushRename];
    FlushTailPossible(r);
    RunsStep(s, ls, r, x, FlushOpen);
    var o := Step(r, FlushOpen).value;
    FlushTailPossible(o);
    RunsStep(s, ls + [FlushOpen], o, x + [], FlushResetLog);
    var e := Step(o, FlushResetLog).value;
    FlushTailPossible(e);
    RunsStep(s, ls + [FlushOpen] + [FlushResetLog], e, x + [] + [e.files], FlushClear);
    var c := Step(e, FlushClear).value;
    FlushTailPossible(c);
    RunsStep(s, ls + [FlushOpen] + [FlushResetLog] + [FlushClear], c, x + [] + [e.files] + [], FlushTrigger);
    assert ls + [FlushOpen] + [FlushResetLog] + [FlushClear] + [FlushTrigger] == FlushLabels(s.mem);
    assert x + [] + [e.files] + [] + [] == x + [e.files];
  }

  // ----- the whole of put and remove -----

  ghost function WriteLabels(s: State, op: Record): seq<Label>
    requires s.Up? && WAL_NAME in s.files
  {
    var a := AppliedState(s, op);
    ApplyLabels(op) + (if TableSize(a.mem) >= s.flushThreshold then FlushLabels(a.mem) else []) + [Return]
  }

  /** What the threshold test does, and its directory states. */
  ghost function MaybeFlushed(a: State): (t: State)
    requires a.Up? && a.writer.Applied?
    ensures t.Up?
  {
    if TableSize(a.mem) >= a.flushThreshold then FlushedState(a) else a
  }

  /** The lock is given back. */
  ghost function Released(a: State): State
    requires a.Up?
  {
    a.(writer := Idle)
  }

  ghost function FlushTrail(a: State): seq<Files>
    requires a.Up? && a.writer.Applied?
  {
    if TableSize(a.mem) >= a.flushThreshold then
      WriteStates(a.files, SSTableFilename(a.next), TableBytes(a.mem)) + [FlushedState(a).files]
    else []
  }

  ghost function WriteResult(s: State, op: Record): State
    requires s.Up? && WAL_NAME in s.files
  {
    Released(MaybeFlushed(AppliedState(s, op)))
  }

  ghost function WriteTrail(s: State, op: Record): seq<Files>
    requires s.Up? && WAL_NAME in s.files
  {
    AppendStates(s.files, WAL_NAME, EncodeRecordValue(op)) + FlushTrail(AppliedState(s, op))
  }

  lemma {:induction false} RunsLive(s: State, ls: seq<Label>, t: State, trail: seq<Files>)
    requires LiveInv(s) && Leads(s, ls, t, trail)
    ensures LiveInv(t)
  {
    hide LiveInv, Step, Trail;
    if ls != [] {
      var before := ls[..|ls| - 1];
      var m := Exec(s, before).value;
      RunsLive(s, before, m, Trail(s, before));
      LiveStep(m, ls[|ls| - 1]);
    }
  }

  /** One complete `put` or `remove` as a run of the machine: the steps, the state they reach
      and every directory state on the way. */
  lemma WriteRun(s: State, op: Record)
    requires s.Up? && LiveInv(s) && s.writer.Idle? && Canonical(op) == op
    requires var a := AppliedState(s, op);
             TableSize(a.mem) >= s.flushThreshold ==> Fits(a.mem) && s.next + 1 < TWO_64
    ensures Leads(s, WriteLabels(s, op), WriteResult(s, op), WriteTrail(s, op))
    ensures LiveInv(WriteResult(s, op))
  {
    hide TmpName, SSTableFilename, CompactorStep, Recover, TableBytes, Fits, Leads, WriteStates, TableSize,
         LiveInv, EncodeRecordValue, AppliedState, FlushedState, AppendStates, FlushLabels, ApplyLabels,
         Canonical;
    assert WAL_NAME in s.files by { LiveHasLog(s); }
    var a, x := AppliedState(s, op), AppendStates(s.files, WAL_NAME, EncodeRecordValue(op));
    ApplyRun(s, op);
    AppliedIs(s, op);
    RunsLive(s, ApplyLabels(op), a, x);
    if TableSize(a.mem) >= s.flushThreshold {
      FlushRunAll(a);
      FlushedIs(a);
      var y := WriteStates(a.files, SSTableFilename(s.next), TableBytes(a.mem)) + [FlushedState(a).files];
      RunsThen(s, ApplyLabels(op), a, x, FlushLabels(a.mem), FlushedState(a), y);
      RunsStep(s, ApplyLabels(op) + FlushLabels(a.mem), FlushedState(a), x + y, Return);
      assert x + y + [] == x + y;
    } else {
      RunsStep(s, ApplyLabels(op), a, x, Return);
      assert ApplyLabels(op) + [] == ApplyLabels(op);
    }
    RunsLive(s, WriteLabels(s, op), WriteResult(s, op), WriteTrail(s, op));
  }

  lemma LiveHasLog(s: State)
    requires s.Up? && LiveInv(s)
    ensures WAL_NAME in s.files
  {
  }

  lemma AppliedIs(s: State, op: Record)
    requires s.Up? && WAL_NAME in s.files
    ensures var a := AppliedState(s, op);
            a.Up? && a.writer == Applied(op) && a.flushThreshold == s.flushThreshold && a.next == s.next
  {
  }

  lemma FlushedIs(s: State)
    requires s.Up? && s.writer.Applied?
    ensures FlushedState(s).Up? && FlushedState(s).writer == Finished(s.writer.op)
  {
  }

  // ----- compaction: writing the merged table -----

  ghost function CompactWriteLabels(snapshot: seq<File>): seq<Label> {
    [CompactCreate] + Repeat(CompactByte, |CompactedBytes(snapshot)|) + [CompactRename]
  }

  lemma CompactWriteRun(s: State)
    requires s.Up? && s.compactor.Allocated? && Fits(Compacted(Tables(s.compactor.snapshot)))
    ensures var snapshot, n := s.compactor.snapshot, s.compactor.number;
            Leads(s, CompactWriteLabels(snapshot),
                 s.(files := WrittenFiles(s.files, n, CompactedBytes(snapshot)), compactor := Renamed(snapshot, n)),
                 WriteStates(s.files, SSTableFilename(n), CompactedBytes(snapshot)))
  {
    hide TmpName, SSTableFilename, WriterStep, Recover, CompactedBytes, Compacted, Fits, TableAt, Leads,
         AppendStates, WrittenFiles, RenameTo;
    var n, e := s.compactor.number, CompactedBytes(s.compactor.snapshot);
    var c := Step(s, CompactCreate).value;
    var w := CompactingState(c, |e|);
    var states := AppendStates(c.files, TmpName(n), e);
    RunsOne(s, CompactCreate);
    CompactRun(c, |e|);
    assert states[..|e|] == states && e[..|e|] == e;
    RunsThen(s, [CompactCreate], c, [c.files], Repeat(CompactByte, |e|), w, states);
    TableWritten(s.files, n, e);
    RunsStep(s, [CompactCreate] + Repeat(CompactByte, |e|), w, [c.files] + states, CompactRename);
    assert TmpName(n) == TmpPath(SSTableFilename(n)) by { TmpNameIs(n); }
  }
}
