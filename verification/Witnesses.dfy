/** Concrete runs and tables that show where the code is narrower than its comments. */
module Witnesses {
  import opened ByteUtil
  import opened Results
  import opened WalRecord
  import opened Wal
  import opened FileSystem
  import opened SortedMap
  import opened Entries
  import opened Layers
  import opened SSTableFormat
  import opened SSTable
  import opened FileNames
  import opened Recovery
  import opened Machine
  import opened LiveRefinement
  import opened DiskOrder
  import opened Runs

  // ----- small tables always fit -----

  lemma {:induction false} RecordsBound(rs: seq<Record>)
    ensures |EncodeAll(rs)| <= |rs| * 0x4_0000_0000
  {
    if rs != [] {
      RecordsBound(rs[1..]);
    }
  }

  lemma {:induction false} IndexBound(index: seq<IndexEntry>)
    ensures |EncodeIndex(index)| <= |index| * 0x2_0000_0000
  {
    hide LittleEndian;
    if index != [] {
      IndexBound(index[1..]);
    }
  }

  lemma SmallTableFits(m: Table)
    requires |m| <= 100
    ensures Fits(m)
  {
    hide EncodeAll, EncodeIndex, Listing, Footer;
    var rs := RecordsOf(Listing(m));
    RecordsBound(rs);
    IndexBound(IndexOf(rs));
  }

  // ----- runs put together -----

  /** Reached from an empty directory without a kill: the writes acknowledged, the one in flight,
      and what is left over on disk. */
  ghost predicate Reached(ls: seq<Label>, s: State, h: seq<Record>, p: Option<Record>, left: seq<File>) {
    && Exec(Down(map[]), ls) == Some(s) && LiveInv(s) && DiskInv(s) && s.Up? && Leftovers(s) == left
    && NoKill(ls) && Allowed(ls, h, p)
  }

  lemma OneMore(ls: seq<Label>, s: State, h: seq<Record>, p: Option<Record>, left: seq<File>, l: Label, t: State)
    requires Reached(ls, s, h, p, left) && Step(s, l) == Some(t) && !l.Kill?
    requires (l.Begin? ==> p == None) && (l.Return? ==> p.Some?)
    ensures Reached(ls + [l], t, if l.Return? then h + [p.value] else h,
                    if l.Begin? then Some(l.op) else if l.Return? then None else p, LeftAfter(s, l))
  {
    hide LiveInv, DiskInv, WriterStep, CompactorStep, Exec, Leftovers, LeftAfter;
    ExecPush(Down(map[]), ls, l);
    LiveStep(s, l);
    OrderStep(s, l);
    SeenStep(s, l);
    if l.Open? {
      NotWhileUp(s, l);
    }
    assert (ls + [l])[..|ls|] == ls;
    if l.Return? {
      assert (h + [p.value])[..|h|] == h;
    }
  }

  /** Steps within one write or one compaction, up to its swap. */
  predicate Inner(l: Label) {
    !l.Begin? && !l.Return? && !l.Kill? && !l.Swap? && !l.RemoveOldest?
  }

  lemma {:induction false} Then(ls: seq<Label>, s: State, h: seq<Record>, p: Option<Record>, left: seq<File>,
                                more: seq<Label>, t: State)
    requires Reached(ls, s, h, p, left) && Exec(s, more) == Some(t)
    requires forall i :: 0 <= i < |more| ==> Inner(more[i])
    ensures Reached(ls + more, t, h, p, left)
  {
    hide Reached, Step, LiveInv, DiskInv, Leftovers;
    if more == [] {
      assert ls + more == ls;
    } else {
      var init, l := more[..|more| - 1], more[|more| - 1];
      var m := Exec(s, init).value;
      Then(ls, s, h, p, left, init, m);
      ReachedIs(ls + init, m, h, p, left);
      OneMore(ls + init, m, h, p, left, l, t);
      assert ls + init + [l] == ls + more;
    }
  }

  lemma ReachedIs(ls: seq<Label>, s: State, h: seq<Record>, p: Option<Record>, left: seq<File>)
    ensures Reached(ls, s, h, p, left) ==> LiveInv(s) && DiskInv(s) && s.Up? && Leftovers(s) == left
  {
    hide LiveInv, DiskInv, Leftovers;
  }

  /** A store that flushes on every write, opened on an empty directory. */
  lemma FreshStoreOpens() returns (ls: seq<Label>, s: State)
    ensures Reached(ls, s, [], None, [])
    ensures s == Up(map[WAL_NAME := []], 0, 2, 1, [], map[], Idle, Waiting, false)
  {
    hide LiveInv, DiskInv, Step, Records, ValidEnd, RecoverTables, Leftovers;
    var none: Files := map[];
    var d := Down(none[WAL_NAME := []]);
    s := Up(map[WAL_NAME := []], 0, 2, 1, [], map[], Idle, Waiting, false);
    RecoveryEffects(map[], 0, 2);
    RecoveryEffects(d.files, 0, 2);
    NothingToReplay([]);
    EmptyDirectory();
    assert FoldRecords([]) == map[];
    ls := [CreateLog, Open(0, 2)];
    assert ls[..1] == [CreateLog] && [CreateLog][..0] == [];
    assert Exec(Down(map[]), []) == Some(Down(map[]));
    assert Exec(Down(map[]), [CreateLog]) == Some(d);
    FreshDirectory();
    DownLive(map[]);
    LiveStep(Down(map[]), CreateLog);
    OrderStep(Down(map[]), CreateLog);
    LiveStep(d, Open(0, 2));
    OrderStep(d, Open(0, 2));
    assert Allowed([], [], None);
    assert Allowed([CreateLog], [], None);
  }

  lemma EmptyDirectory()
    ensures RecoverTables(map[WAL_NAME := []]) == Success([])
  {
    TmpOnly(0);
    RecoverExpected(map[WAL_NAME := []], []);
  }

  ghost function WriteMiddle(s: State, op: Record): seq<Label>
    requires s.Up? && WAL_NAME in s.files
  {
    var a := AppliedState(s, op);
    Repeat(AppendByte, |EncodeRecordValue(op)|) + [ApplyToMemTable]
    + if TableSize(a.mem) >= s.flushThreshold then FlushLabels(a.mem) else []
  }

  lemma WriteLabelsAre(s: State, op: Record)
    requires s.Up? && WAL_NAME in s.files
    ensures WriteLabels(s, op) == [Begin(op)] + WriteMiddle(s, op) + [Return]
    ensures forall i :: 0 <= i < |WriteMiddle(s, op)| ==> Inner(WriteMiddle(s, op)[i])
  {
    hide EncodeRecordValue, TableBytes, TableSize, Repeat;
    RepeatIs(AppendByte, |EncodeRecordValue(op)|);
    RepeatIs(FlushByte, |TableBytes(AppliedState(s, op).mem)|);
  }

  lemma {:induction false} ExecParts(s: State, a: seq<Label>, b: seq<Label>)
    requires Exec(s, a + b).Some?
    ensures Exec(s, a).Some? && Exec(Exec(s, a).value, b) == Exec(s, a + b)
  {
    hide Step;
    if b == [] {
      assert a + b == a;
    } else {
      assert (a + b)[..|a + b| - 1] == a + b[..|b| - 1];
      ExecParts(s, a, b[..|b| - 1]);
    }
  }

  lemma ExecOne(s: State, l: Label)
    ensures Exec(s, [l]) == Step(s, l)
  {
    hide Step;
    assert [l][..0] == [];
  }

  /** A complete write is acknowledged. */
  lemma Write(ls: seq<Label>, s: State, h: seq<Record>, left: seq<File>, op: Record, t: State)
    requires s.Up? && Reached(ls, s, h, None, left) && WAL_NAME in s.files && Exec(s, WriteLabels(s, op)) == Some(t)
    ensures Reached(ls + WriteLabels(s, op), t, h + [op], None, left)
  {
    hide Reached, Step, WriteMiddle, WriteLabels, Exec, LeftAfter, LiveInv, DiskInv, Leftovers;
    var mid := WriteMiddle(s, op);
    WriteLabelsAre(s, op);
    ExecParts(s, [Begin(op)] + mid, [Return]);
    ExecParts(s, [Begin(op)], mid);
    ExecOne(s, Begin(op));
    var b, m := Exec(s, [Begin(op)]).value, Exec(s, [Begin(op)] + mid).value;
    ExecOne(m, Return);
    ReachedIs(ls, s, h, None, left);
    SameLeft(s, Begin(op));
    OneMore(ls, s, h, None, left, Begin(op), b);
    Then(ls + [Begin(op)], b, h, Some(op), left, mid, m);
    ReachedIs(ls + [Begin(op)] + mid, m, h, Some(op), left);
    SameLeft(m, Return);
    OneMore(ls + [Begin(op)] + mid, m, h, Some(op), left, Return, t);
    assert ls + [Begin(op)] + mid + [Return] == ls + WriteLabels(s, op);
  }

  lemma SameLeft(s: State, l: Label)
    requires s.Up? && !l.Swap? && !l.RemoveOldest?
    ensures LeftAfter(s, l) == Leftovers(s)
  {
  }

  /** A write that flushes at once. */
  lemma WriteAndFlush(ls: seq<Label>, s: State, h: seq<Record>, left: seq<File>, op: Record)
    returns (more: seq<Label>, t: State)
    requires Reached(ls, s, h, None, left)
    requires s.writer.Idle? && s.flushThreshold == 0 && s.mem == map[] && s.next < 100 && Canonical(op) == op
    ensures Reached(more, t, h + [op], None, left)
    ensures t == s.(files := t.files, next := s.next + 1,
                    sstables := s.sstables + [File(s.next, map[op.key := EntryFor(op)])],
                    requested := s.requested || |s.sstables| + 1 >= s.compactionTrigger)
  {
    hide LiveInv, DiskInv, Exec, TableSize, TableBytes, Fits, EncodeRecordValue, SSTableFilename, TmpName, Trail,
         WriteLabels, WriteTrail, Canonical, EntryFor, WrittenFiles, Reached;
    ReachedIs(ls, s, h, None, left);
    LiveHasLog(s);
    assert s.mem[op.key := EntryFor(op)] == map[op.key := EntryFor(op)];
    SmallTableFits(s.mem[op.key := EntryFor(op)]);
    WriteRun(s, op);
    t := WriteResult(s, op);
    Write(ls, s, h, left, op, t);
    more := ls + WriteLabels(s, op);
  }

  lemma Inside(ls: seq<Label>, s: State, h: seq<Record>, left: seq<File>, l: Label, t: State)
    requires Reached(ls, s, h, None, left) && Step(s, l) == Some(t) && Inner(l)
    ensures Reached(ls + [l], t, h, None, left)
  {
    hide Reached, Step;
    ExecOne(s, l);
    Then(ls, s, h, None, left, [l], t);
  }

  /** Two tables, and a compaction that has just taken its snapshot of them. */
  lemma SnapshotOfTwo(a: Record, b: Record) returns (ls: seq<Label>, s: State)
    requires Canonical(a) == a && Canonical(b) == b
    ensures Reached(ls, s, [a, b], None, [])
    ensures var f, g := File(1, map[a.key := EntryFor(a)]), File(2, map[b.key := EntryFor(b)]);
            s == Up(s.files, 0, 2, 3, [f, g], map[], Idle, Merging([f, g]), false)
  {
    hide Canonical, EntryFor, Step, Reached;
    ls, s := FreshStoreOpens();
    ls, s := WriteAndFlush(ls, s, [], [], a);
    assert [] + [a] == [a] && [] + [File(1, map[a.key := EntryFor(a)])] == [File(1, map[a.key := EntryFor(a)])];
    ls, s := WriteAndFlush(ls, s, [a], [], b);
    assert [a] + [b] == [a, b];
    var f, g := File(1, map[a.key := EntryFor(a)]), File(2, map[b.key := EntryFor(b)]);
    assert s.sstables == [f, g];
    StartPossible(s);
    var t := s.(requested := false, compactor := Started);
    Inside(ls, s, [a, b], [], CompactionStart, t);
    ls, s := ls + [CompactionStart], t;
    SnapshotPossible(s);
    t := s.(compactor := Merging([f, g]));
    Inside(ls, s, [a, b], [], Snapshot, t);
    ls, s := ls + [Snapshot], t;
  }

  /** The compaction takes its number, writes its file and renames it. */
  lemma WriteMerged(ls: seq<Label>, s: State, h: seq<Record>, left: seq<File>) returns (more: seq<Label>, t: State)
    requires s.Up? && Reached(ls, s, h, None, left)
    requires s.compactor.Merging? && s.writer.Idle? && s.next < 100 && Fits(Compacted(Tables(s.compactor.snapshot)))
    ensures Reached(more, t, h, None, left)
    ensures t == s.(files := t.files, next := s.next + 1, compactor := Renamed(s.compactor.snapshot, s.next))
  {
    hide Reached, Step, CompactWriteLabels, Fits, Compacted, Tables, WrittenFiles, WriteStates, SSTableFilename,
         CompactedBytes, Exec, Trail;
    var snapshot, n := s.compactor.snapshot, s.next;
    var m := s.(compactor := Allocated(snapshot, n), next := n + 1);
    AllocatePossible(s);
    Inside(ls, s, h, left, Allocate, m);
    CompactWriteRun(m);
    t := m.(files := WrittenFiles(m.files, n, CompactedBytes(snapshot)), compactor := Renamed(snapshot, n));
    CompactLabelsInner(snapshot);
    Then(ls + [Allocate], m, h, None, left, CompactWriteLabels(snapshot), t);
    more := ls + [Allocate] + CompactWriteLabels(snapshot);
  }

  lemma CompactLabelsInner(snapshot: seq<File>)
    ensures forall i :: 0 <= i < |CompactWriteLabels(snapshot)| ==> Inner(CompactWriteLabels(snapshot)[i])
  {
    hide CompactedBytes, Repeat;
    RepeatIs(CompactByte, |CompactedBytes(snapshot)|);
  }

  lemma TwoTablesMerge(f: File, g: File)
    ensures Merge(Tables([f, g])) == f.table + g.table
  {
    assert Tables([f, g]) == [f.table, g.table];
    assert [f.table, g.table] == [f.table] + [g.table];
    MergeConcat([f.table], [g.table]);
    MergeOne(f.table);
    MergeOne(g.table);
  }

  lemma TwoTablesFit(f: File, g: File)
    requires |f.table| <= 1 && |g.table| <= 1
    ensures Fits(Compacted(Tables([f, g])))
  {
    hide Fits, Merge;
    TwoTablesMerge(f, g);
    var c := Compacted(Tables([f, g]));
    assert c.Keys <= f.table.Keys + g.table.Keys;
    SubsetSize(c.Keys, f.table.Keys + g.table.Keys);
    assert |f.table.Keys| <= 1 && |g.table.Keys| <= 1;
    SmallTableFits(c);
  }

  lemma SubsetSize(a: set<Field>, b: set<Field>)
    requires a <= b
    ensures |a| <= |b|
  {
    assert b == a + (b - a);
  }

  lemma NothingMerged()
    ensures Merge([]) == map[] && Tables([]) == []
  {
  }

  // ----- a flush between snapshot and number allocation -----

  /** Two tables, a snapshot of them, a third table flushed before the compaction takes its
      number, and the compacted file renamed: the state in which a kill loses the third. */
  lemma MisorderedState(a: Record, b: Record, c: Record) returns (ls: seq<Label>, s: State)
    requires Canonical(a) == a && Canonical(b) == b && Canonical(c) == c
    ensures Reached(ls, s, [a, b] + [c], None, []) && s.writer.Idle? && s.mem == map[]
    ensures var f, g := File(1, map[a.key := EntryFor(a)]), File(2, map[b.key := EntryFor(b)]);
            s.sstables == [f, g] + [File(3, map[c.key := EntryFor(c)])] && s.compactor == Renamed([f, g], 4)
  {
    hide Canonical, EntryFor, Reached, Compacted, Tables, Fits;
    ls, s := SnapshotOfTwo(a, b);
    TwoTablesFit(s.sstables[0], s.sstables[1]);
    ls, s := WriteAndFlush(ls, s, [a, b], [], c);
    ls, s := WriteMerged(ls, s, [a, b] + [c], []);
  }

  /** The write is what callers see, and what a kill now would lose. */
  ghost predicate LosesWrite(s: State, op: Record) {
    && s.Up? && s.writer.Idle? && op.kind.Put? && RecoveredView(s.files).Success?
    && op.key in Seen(s) && Seen(s)[op.key] == op.value
    && !(op.key in RecoveredView(s.files).value && RecoveredView(s.files).value[op.key] == op.value)
  }

  /** The discipline on flushes is necessary. There is a run without any kill and with all of its
      writes acknowledged, after which a kill and a successful reopening lose the last of them:
      the fresher table has the smaller number. */
  lemma FlushInTheWindowLosesAWrite()
    ensures exists ls, history, last ::
              && NoKill(ls) && Allowed(ls, history + [last], None) && Exec(Down(map[]), ls).Some?
              && LosesWrite(Exec(Down(map[]), ls).value, last)
  {
    hide LiveInv, DiskInv, Exec, RecoveredView, KeyIsStale, Allowed, Replayed, Leftovers;
    var key: Field, first: Field, second: Field, other: Field := [1], [2], [3], [4];
    var a, b, c := Record(Put, key, first), Record(Put, other, first), Record(Put, key, second);
    var ls, s := MisorderedState(a, b, c);
    ReopenedIff(s);
    WindowKeyIsStale(s, s.sstables[0], s.sstables[1], s.sstables[2], key);
    LastTableSeen(s.sstables[..2], s.sstables[2], key);
    assert s.sstables == s.sstables[..2] + [s.sstables[2]];
    assert LosesWrite(s, c);
  }

  lemma LastTableSeen(fs: seq<File>, f: File, key: Field)
    requires key in f.table && !f.table[key].isTombstone
    ensures key in View(Tables(fs + [f]), map[]) && View(Tables(fs + [f]), map[])[key] == f.table[key].value
  {
    TablesConcat(fs, [f]);
    MergeConcat(Tables(fs), Tables([f]));
    TablesOne(f);
    MergeOne(f.table);
  }

  lemma WindowKeyIsStale(s: State, f: File, g: File, h: File, key: Field)
    requires s.Up? && LiveInv(s) && s.writer.Idle? && s.mem == map[]
    requires s.compactor == Renamed([f, g], 4) && s.sstables == [f, g] + [h] && h.number == 3
    requires key in f.table && !f.table[key].isTombstone && key !in g.table
    requires key in h.table && h.table[key] != f.table[key]
    ensures KeyIsStale(s, Replayed(s), key)
  {
    hide LiveInv, Replayed, Merge, Leftovers, Reorder;
    LogOf(s);
    TwoTablesMerge(f, g);
    var newer := s.sstables[2..];
    assert newer == [h];
    assert Below(newer, 4) == 1 by {
      assert newer[1..] == [];
    }
    assert newer[..1] == [h] && newer[1..] == [];
    TablesOne(h);
    MergeOne(h.table);
    NothingMerged();
  }

  // ----- a removal that fails -----

  /** Deleted for callers, but a kill now would bring the key back. */
  ghost predicate Resurrects(s: State, op: Record) {
    && s.Up? && s.writer.Idle? && s.compactor.Waiting? && op.kind.Delete? && RecoveredView(s.files).Success?
    && op.key !in Seen(s) && op.key in RecoveredView(s.files).value
  }

  /** Two tables, compacted; the removal of the older one failed. */
  lemma SurvivorState(a: Record, b: Record) returns (ls: seq<Label>, s: State)
    requires Canonical(a) == a && Canonical(b) == b
    ensures var f, g := File(1, map[a.key := EntryFor(a)]), File(2, map[b.key := EntryFor(b)]);
            && Reached(ls, s, [a, b], None, [f]) && s.writer.Idle? && s.mem == map[] && s.compactor.Waiting?
            && s.sstables == [File(3, Compacted(Tables([f, g])))]
  {
    hide Canonical, EntryFor, Reached, Compacted, Tables, Fits, Step, SSTableFilename, Leftovers, LiveInv,
         DiskInv;
    ls, s := SnapshotOfTwo(a, b);
    var f, g := s.sstables[0], s.sstables[1];
    TwoTablesFit(f, g);
    ls, s := WriteMerged(ls, s, [a, b], []);
    ls, s := SwapAll(ls, s, [a, b], f, g);
    var t := s.(compactor := Deleting([g]));
    RemovalPossible(s);
    assert [f, g][1..] == [g];
    Inside(ls, s, [a, b], [f, g], RemoveFails, t);
    ls, s := ls + [RemoveFails], t;
    t := s.(files := s.files - {SSTableFilename(2)}, compactor := Deleting([]));
    RemoveNewer(ls, s, [a, b], f, g, t);
    ls, s := ls + [RemoveOldest], t;
    t := s.(compactor := Waiting);
    FinishPossible(s);
    Inside(ls, s, [a, b], [f], CompactionFinish, t);
    ls, s := ls + [CompactionFinish], t;
  }

  lemma SwapAll(ls: seq<Label>, s: State, h: seq<Record>, f: File, g: File) returns (more: seq<Label>, t: State)
    requires Reached(ls, s, h, None, []) && s.writer.Idle? && s.sstables == [f, g] && s.compactor == Renamed([f, g], 3)
    requires f.number < g.number
    ensures Reached(more, t, h, None, [f, g])
    ensures t == s.(sstables := [File(3, Compacted(Tables([f, g])))], compactor := Deleting([f, g]))
  {
    hide Reached, Compacted, Tables, LiveInv, Leftovers, OpenedTable, WriterStep, CompactorStep, Exec,
         SSTableFilename, TableAt, FoundOnDisk;
    ReachedIs(ls, s, h, None, []);
    SwapPossible(s);
    t := Step(s, Swap).value;
    SwapEffect(s);
    SwapOrder(s, []);
    OneMore(ls, s, h, None, [], Swap, t);
    ReorderAscending([f, g]);
    assert [] + [f, g] == [f, g] && [f, g][2..] == [];
    more := ls + [Swap];
  }

  lemma SwapPossible(s: State)
    requires s.Up? && LiveInv(s) && s.compactor.Renamed? && s.writer.Idle?
    ensures Step(s, Swap).Some?
  {
    hide SSTableFilename, TableBytes, OpenedTable, Compacted, WriterInv, WriterStep;
    CompactedReadsBack(Tables(s.compactor.snapshot));
  }

  lemma RemoveNewer(ls: seq<Label>, s: State, h: seq<Record>, f: File, g: File, t: State)
    requires Reached(ls, s, h, None, [f, g]) && s.compactor == Deleting([g]) && f.number != g.number
    requires t == s.(files := s.files - {SSTableFilename(g.number)}, compactor := Deleting([]))
    ensures Reached(ls + [RemoveOldest], t, h, None, [f])
  {
    hide Reached, LiveInv, DiskInv, Leftovers, SSTableFilename, Step;
    ReachedIs(ls, s, h, None, [f, g]);
    RemovalPossible(s);
    assert [g][1..] == [];
    OneMore(ls, s, h, None, [f, g], RemoveOldest, t);
    assert Without([f, g], g.number) == [f] by {
      assert [f, g][1..] == [g] && [f] + [] == [f];
    }
  }

  /** The comment that a failed removal is harmless does not hold. There is a run without any kill
      in which a removal fails, and after which a kill and a successful reopening show a key that
      callers had deleted: the older of two files survives, and the newer one, which holds the
      tombstone, is gone. */
  lemma FailedRemovalResurrects()
    ensures exists ls, history, last ::
              && NoKill(ls) && Allowed(ls, history + [last], None) && Exec(Down(map[]), ls).Some?
              && Resurrects(Exec(Down(map[]), ls).value, last)
  {
    hide LiveInv, DiskInv, Exec, RecoveredView, Allowed, Replayed, Leftovers, Merge;
    var key: Field, value: Field := [1], [2];
    var a, b := Record(Put, key, value), Record(Delete, key, []);
    var ls, s := SurvivorState(a, b);
    var f, g := File(1, map[key := EntryFor(a)]), File(2, map[key := EntryFor(b)]);
    ReopenedIff(s);
    LogOf(s);
    TwoTablesMerge(f, g);
    assert s.sstables[0].table == map[];
    TablesOne(f);
    MergeOne(f.table);
    TablesOne(s.sstables[0]);
    MergeOne(s.sstables[0].table);
    NothingMerged();
    assert s.sstables[1..] == [];
    assert KeyIsStale(s, Replayed(s), key);
    assert key !in Seen(s);
    assert [a, b] == [a] + [b];
    assert Resurrects(s, b);
  }
}
