/** Every point at which a kill can interrupt one `put` or `remove` (flush included), one
    compaction, or recovery itself. */
module KillPoints {
  import opened ByteUtil
  import opened Results
  import opened WalRecord
  import opened Wal
  import opened FileSystem
  import opened Entries
  import opened SSTableFormat
  import opened FileNames
  import opened Recovery
  import opened Machine
  import opened LiveRefinement
  import opened DiskOrder
  import opened CrashSafety
  import opened Runs

  /** Steps between the begin of a write and the next: anything but another begin or a kill. */
  predicate Plain(ls: seq<Label>) {
    forall i :: 0 <= i < |ls| ==> !ls[i].Begin? && !ls[i].Kill? && !ls[i].Open?
  }

  ghost predicate Sound(s: State) {
    LiveInv(s) && DiskInv(s) && QuietOrder(s) && QuietLeft(s)
  }

  /** Either the write is not visible and nothing changed, or it is and nothing else did. */
  ghost predicate Atomic(m: State, op: Record, before: Contents) {
    m.Up? &&
    if m.writer.Appending? || m.writer.Logged? then m.writer.op == op && Seen(m) == before
    else Seen(m) == Apply(before, op)
  }

  lemma AtomicStep(m: State, l: Label, op: Record, before: Contents)
    requires Sound(m) && Atomic(m, op, before) && QuietStep(m, l) && Step(m, l).Some?
    requires !l.Begin? && !l.Kill?
    ensures Sound(Step(m, l).value) && Atomic(Step(m, l).value, op, before)
  {
    hide LiveInv, DiskInv, QuietOrder, QuietLeft, Step, Seen, Apply;
    LiveStep(m, l);
    OrderStep(m, l);
    QuietOrderStep(m, l);
    QuietLeftStep(m, l);
    SeenStep(m, l);
    WriterPhases(m, l);
  }

  /** From the begin of a write on, whatever else is interleaved. */
  lemma {:induction false} AtomicRun(s: State, ls: seq<Label>, op: Record, before: Contents)
    requires Sound(s) && Atomic(s, op, before) && Plain(ls) && Quiet(s, ls) && Exec(s, ls).Some?
    ensures Sound(Exec(s, ls).value) && Atomic(Exec(s, ls).value, op, before)
  {
    hide Sound, Atomic, Step, QuietStep;
    if ls != [] {
      var init := ls[..|ls| - 1];
      AtomicRun(s, init, op, before);
      AtomicStep(Exec(s, init).value, ls[|ls| - 1], op, before);
    }
  }

  /** A kill in such a state leaves the contents before the write or after it. */
  lemma AtomicReopens(m: State, op: Record, before: Contents)
    requires Sound(m) && Atomic(m, op, before)
    ensures RecoveredView(m.files) == Success(before) || RecoveredView(m.files) == Success(Apply(before, op))
  {
    hide LiveInv, DiskInv, QuietOrder, QuietLeft, Seen, Apply, RecoveredView;
    Reopened(m);
  }

  // ----- every directory state on the way -----

  /** Each directory state of a run's trail is that of the state some prefix reaches. */
  lemma {:induction false} TrailPoint(s: State, ls: seq<Label>, i: nat) returns (p: nat)
    requires i < |Trail(s, ls)|
    ensures p <= |ls| && Exec(s, ls[..p]).Some? && Exec(s, ls[..p]).value.files == Trail(s, ls)[i]
  {
    hide Step, Exec;
    var init := ls[..|ls| - 1];
    if i < |Trail(s, init)| {
      p := TrailPoint(s, init, i);
      assert init[..p] == ls[..p];
    } else {
      p := |ls|;
      assert ls[..p] == ls;
    }
  }

  lemma {:induction false} PrefixRuns(s: State, ls: seq<Label>, p: nat)
    requires p <= |ls|
    ensures Exec(s, ls).Some? ==> Exec(s, ls[..p]).Some?
    ensures Quiet(s, ls) ==> Quiet(s, ls[..p])
  {
    hide Step, QuietStep;
    if p == |ls| {
      assert ls[..p] == ls;
    } else {
      PrefixRuns(s, ls[..|ls| - 1], p);
      assert ls[..|ls| - 1][..p] == ls[..p];
    }
  }

  /** The writer's own steps are quiet, unless they flush while a compaction is between its
      snapshot and its number. */
  lemma {:induction false} WriterRunsQuiet(s: State, ls: seq<Label>)
    requires s.Up? && forall i :: 0 <= i < |ls| ==> IsWriterLabel(ls[i])
    requires s.compactor.Merging? ==> forall i :: 0 <= i < |ls| ==> !ls[i].FlushCreate?
    ensures Quiet(s, ls)
    ensures Exec(s, ls).Some? ==> Exec(s, ls).value.Up? && Exec(s, ls).value.compactor == s.compactor
  {
    hide WriterStep, CompactorStep;
    if ls != [] {
      var init, l := ls[..|ls| - 1], ls[|ls| - 1];
      WriterRunsQuiet(s, init);
      if Exec(s, ls).Some? {
        WriterKeepsCompactor(Exec(s, init).value, l);
      }
    }
  }

  /** A write's labels: its begin, then plain steps of the writer. */
  lemma WriteLabelsPlain(s: State, op: Record)
    requires s.Up? && WAL_NAME in s.files
    ensures var ls := WriteLabels(s, op);
            ls != [] && ls[0] == Begin(op) && Plain(ls[1..])
            && (forall i :: 0 <= i < |ls| ==> IsWriterLabel(ls[i]))
            && (TableSize(AppliedState(s, op).mem) < s.flushThreshold ==>
                  forall i :: 0 <= i < |ls| ==> !ls[i].FlushCreate?)
  {
    hide EncodeRecordValue, TableBytes, TableSize, Repeat;
    RepeatIs(AppendByte, |EncodeRecordValue(op)|);
    RepeatIs(FlushByte, |TableBytes(AppliedState(s, op).mem)|);
  }

  lemma BeginIsAtomic(s: State, op: Record)
    requires s.Up? && s.writer.Idle? && Sound(s) && Canonical(op) == op
    ensures Step(s, Begin(op)).Some? && Sound(Step(s, Begin(op)).value)
    ensures Atomic(Step(s, Begin(op)).value, op, Seen(s)) && Step(s, Begin(op)).value.files == s.files
  {
    hide LiveInv, DiskInv, QuietOrder, QuietLeft;
    LiveStep(s, Begin(op));
    OrderStep(s, Begin(op));
    QuietOrderStep(s, Begin(op));
    QuietLeftStep(s, Begin(op));
  }

  /** One write is atomic under kills: each directory state that `put` or `remove` passes
      through, byte by byte, through an entire flush if there is one, reopens to the contents
      before the write or to the contents after it. Only a flush between a compaction's snapshot
      and number allocation is excluded. */
  lemma WriteIsAtomic(s: State, op: Record, i: nat)
    requires s.Up? && s.writer.Idle? && Sound(s) && Canonical(op) == op
    requires var a := AppliedState(s, op);
             TableSize(a.mem) >= s.flushThreshold ==> Fits(a.mem) && s.next + 1 < TWO_64 && !s.compactor.Merging?
    requires i < |WriteTrail(s, op)|
    ensures var r := RecoveredView(WriteTrail(s, op)[i]);
            r == Success(Seen(s)) || r == Success(Apply(Seen(s), op))
  {
    hide LiveInv, DiskInv, QuietOrder, QuietLeft, Step, Seen, Apply, RecoveredView, WriteLabels, WriteResult,
         WriteTrail, Quiet, Trail, Plain, Fits, TableSize, AppliedState, Canonical, Sound, Atomic, Exec;
    SoundIsLive(s);
    LiveHasLog(s);
    WriteRun(s, op);
    var ls := WriteLabels(s, op);
    WriteLabelsPlain(s, op);
    WriterRunsQuiet(s, ls);
    var p := TrailPoint(s, ls, i);
    PrefixRuns(s, ls, p);
    BeginIsAtomic(s, op);
    if p == 0 {
      NothingRun(s);
      assert ls[..0] == [];
      AtomicReopens(Step(s, Begin(op)).value, op, Seen(s));
    } else {
      PlainPrefix(ls, p);
      AtomicPrefix(s, op, ls[..p]);
      AtomicReopens(Exec(s, ls[..p]).value, op, Seen(s));
    }
  }

  lemma PlainPrefix(ls: seq<Label>, p: nat)
    requires 0 < p <= |ls| && Plain(ls[1..])
    ensures Plain(ls[..p][1..])
  {
    forall i | 0 <= i < |ls[..p][1..]|
      ensures ls[..p][1..][i] == ls[1..][i]
    {
    }
  }

  lemma SoundIsLive(s: State)
    requires Sound(s)
    ensures LiveInv(s)
  {
    hide LiveInv, DiskInv, QuietOrder, QuietLeft;
  }

  lemma NothingRun(s: State)
    ensures Exec(s, []) == Some(s)
  {
  }

  lemma AtomicPrefix(s: State, op: Record, ls: seq<Label>)
    requires s.Up? && s.writer.Idle? && Sound(s) && Canonical(op) == op
    requires ls != [] && ls[0] == Begin(op) && Plain(ls[1..]) && Quiet(s, ls) && Exec(s, ls).Some?
    ensures Sound(Exec(s, ls).value) && Atomic(Exec(s, ls).value, op, Seen(s))
  {
    hide Sound, Step, Seen, Plain, Atomic, Quiet, Exec;
    BeginIsAtomic(s, op);
    var b := Step(s, Begin(op)).value;
    assert ls == [Begin(op)] + ls[1..];
    OneStep(s, Begin(op));
    ExecConcat(s, [Begin(op)], ls[1..]);
    QuietTail(s, [Begin(op)], ls[1..]);
    AtomicRun(b, ls[1..], op, Seen(s));
  }

  lemma OneStep(s: State, l: Label)
    ensures Exec(s, [l]) == Step(s, l)
  {
    hide Step;
    NothingRun(s);
    assert [l][..0] == [];
  }

  lemma {:induction false} QuietTail(s: State, a: seq<Label>, b: seq<Label>)
    requires Exec(s, a).Some? && Quiet(s, a + b)
    ensures Quiet(Exec(s, a).value, b)
  {
    hide Step, QuietStep, Exec;
    if b != [] {
      var init := b[..|b| - 1];
      assert (a + b)[..|a + b| - 1] == a + init;
      QuietTail(s, a, init);
      ExecConcat(s, a, init);
    }
  }

  // ----- a compaction -----

  /** A step of the compaction thread, with no removal failing. */
  predicate IsCompactionLabel(l: Label) {
    l.CompactionStart? || l.Snapshot? || l.Allocate? || l.CompactCreate? || l.CompactByte? || l.CompactRename?
    || l.Swap? || l.RemoveOldest? || l.CompactionFinish?
  }

  lemma BackgroundStep(s: State, l: Label)
    requires s.Up? && Sound(s) && IsCompactionLabel(l) && Step(s, l).Some?
    ensures var t := Step(s, l).value; t.Up? && Sound(t) && t.writer == s.writer && Seen(t) == Seen(s)
  {
    hide LiveInv, DiskInv, QuietOrder, QuietLeft, WriterStep, CompactorStep, Seen;
    LiveStep(s, l);
    OrderStep(s, l);
    QuietOrderStep(s, l);
    QuietLeftStep(s, l);
    SeenStep(s, l);
    CompactorKeepsWriter(s, l);
  }

  lemma {:induction false} BackgroundRun(s: State, ls: seq<Label>)
    requires s.Up? && Sound(s) && Exec(s, ls).Some? && forall i :: 0 <= i < |ls| ==> IsCompactionLabel(ls[i])
    ensures var t := Exec(s, ls).value; t.Up? && Sound(t) && t.writer == s.writer && Seen(t) == Seen(s)
  {
    hide Sound, Step, Seen;
    if ls != [] {
      BackgroundRun(s, ls[..|ls| - 1]);
      BackgroundStep(Exec(s, ls[..|ls| - 1]).value, ls[|ls| - 1]);
    }
  }

  /** Compaction is invisible under kills: each directory state it passes through, from the first
      byte of the merged table to the last deletion, reopens to the same contents. */
  lemma CompactionIsInvisible(s: State, ls: seq<Label>, i: nat)
    requires s.Up? && Sound(s) && Exec(s, ls).Some? && forall i :: 0 <= i < |ls| ==> IsCompactionLabel(ls[i])
    requires i < |Trail(s, ls)|
    ensures RecoveredView(Trail(s, ls)[i]) == Success(Durable(s))
  {
    hide LiveInv, DiskInv, QuietOrder, QuietLeft, Step, Seen, RecoveredView, Exec, Trail, Apply;
    var p := TrailPoint(s, ls, i);
    BackgroundRun(s, ls[..p]);
    Reopened(Exec(s, ls[..p]).value);
  }

  // ----- recovery -----

  predicate IsRecoveryLabel(l: Label) {
    l.CleanTmp? || l.CreateLog? || l.TruncateLog? || l.Open?
  }

  lemma {:induction false} RecoveryRun(files: Files, ls: seq<Label>)
    requires DiskInv(Down(files)) && Exec(Down(files), ls).Some?
    requires forall i :: 0 <= i < |ls| ==> IsRecoveryLabel(ls[i])
    ensures var t := Exec(Down(files), ls).value; DiskInv(t) && RecoveredView(t.files) == RecoveredView(files)
  {
    hide DiskInv, Step, RecoveredView;
    if ls != [] {
      var before, l := ls[..|ls| - 1], ls[|ls| - 1];
      RecoveryRun(files, before);
      var s := Exec(Down(files), before).value;
      if s.Up? {
        NotWhileUp(s, l);
      } else if l.Open? {
        OpensOnSameFiles(s, l);
        DownLive(s.files);
        OrderStep(s, l);
      } else {
        RecoveryKeeps(s.files, l);
      }
    }
  }

  lemma OpensOnSameFiles(s: State, l: Label)
    requires s.Down? && l.Open? && Step(s, l).Some?
    ensures Step(s, l).value.files == s.files
  {
    hide RecoverTables, Records, ValidEnd, FoldRecords;
  }

  /** Recovery is invisible under kills: each directory state the constructor passes through
      reopens to the contents it started from, whatever these are. */
  lemma RecoveryIsInvisible(files: Files, ls: seq<Label>, i: nat)
    requires DiskInv(Down(files)) && Exec(Down(files), ls).Some?
    requires forall i :: 0 <= i < |ls| ==> IsRecoveryLabel(ls[i])
    requires i < |Trail(Down(files), ls)|
    ensures RecoveredView(Trail(Down(files), ls)[i]) == RecoveredView(files)
  {
    hide DiskInv, Step, RecoveredView, Exec, Trail;
    var p := TrailPoint(Down(files), ls, i);
    RecoveryRun(files, ls[..p]);
  }
}
