/** The order of the tables on disk, and exactly when a reopened store shows what was seen.
    Recovery sorts by file number. A table that a flush writes between a compaction's snapshot
    and the allocation of its number is newer than the compacted file but has a smaller number;
    and a file whose removal failed is found again. */
module DiskOrder {
  import opened ByteUtil
  import opened Results
  import opened WalRecord
  import opened Wal
  import opened FileSystem
  import opened Entries
  import opened Layers
  import opened SSTableFormat
  import opened SSTable
  import opened FileNames
  import opened Recovery
  import opened Machine
  import opened LiveRefinement

  // ----- sorting one file into a list -----

  /** How many leading files have a smaller number. */
  function Below(fs: seq<File>, n: nat): (b: nat)
    ensures b <= |fs|
    ensures forall i :: 0 <= i < b ==> fs[i].number < n
    ensures b < |fs| ==> fs[b].number >= n
  {
    if fs == [] || fs[0].number >= n then 0 else 1 + Below(fs[1..], n)
  }

  function Insert(f: File, fs: seq<File>): seq<File> {
    fs[..Below(fs, f.number)] + [f] + fs[Below(fs, f.number)..]
  }

  /** The list with its first file, possibly a compacted one, moved to where its number sorts. */
  function Reorder(fs: seq<File>): seq<File> {
    if fs == [] then [] else Insert(fs[0], fs[1..])
  }

  lemma ReorderAscending(fs: seq<File>)
    requires InNumberOrder(fs)
    ensures Reorder(fs) == fs
  {
    if |fs| > 1 {
      assert fs[1..][0] == fs[1];
      assert Below(fs[1..], fs[0].number) == 0;
    }
  }

  lemma {:induction false} BelowConcat(a: seq<File>, b: seq<File>, n: nat)
    requires forall i :: 0 <= i < |b| ==> n < b[i].number
    ensures Below(a + b, n) == Below(a, n)
  {
    if a == [] {
      assert a + b == b;
    } else if a[0].number < n {
      assert (a + b)[1..] == a[1..] + b;
      BelowConcat(a[1..], b, n);
    }
  }

  lemma InsertConcat(f: File, a: seq<File>, b: seq<File>)
    requires forall i :: 0 <= i < |b| ==> f.number < b[i].number
    ensures Insert(f, a + b) == Insert(f, a) + b
  {
    BelowConcat(a, b, f.number);
  }

  lemma ReorderConcat(a: seq<File>, b: seq<File>)
    requires a != [] && forall i :: 0 <= i < |b| ==> a[0].number < b[i].number
    ensures Reorder(a + b) == Reorder(a) + b
  {
    assert (a + b)[1..] == a[1..] + b;
    InsertConcat(a[0], a[1..], b);
  }

  lemma ReorderAppend(fs: seq<File>, g: File)
    requires AllBelow(fs, g.number)
    ensures Reorder(fs + [g]) == Reorder(fs) + [g]
  {
    if fs != [] {
      ReorderConcat(fs, [g]);
    }
  }

  lemma AscendingInsert(before: seq<File>, f: File, after: seq<File>)
    requires InNumberOrder(before + after)
    requires forall i :: 0 <= i < |before| ==> before[i].number < f.number
    requires forall i :: 0 <= i < |after| ==> f.number < after[i].number
    ensures InNumberOrder(before + [f] + after)
  {
    var fs, gs := before + after, before + [f] + after;
    forall i, j | 0 <= i < j < |gs|
      ensures gs[i].number < gs[j].number
    {
      if i < |before| {
        assert gs[i] == before[i] == fs[i];
        assert j > |before| ==> gs[j] == after[j - |before| - 1] == fs[j - 1];
        assert j < |before| ==> gs[j] == before[j] == fs[j];
      } else {
        assert gs[j] == after[j - |before| - 1] == fs[j - 1];
        assert i > |before| ==> gs[i] == after[i - |before| - 1] == fs[i - 1];
      }
    }
  }

  lemma AscendingParts(a: seq<File>, b: seq<File>)
    requires InNumberOrder(a + b)
    ensures InNumberOrder(a) && InNumberOrder(b)
  {
    assert forall i :: 0 <= i < |a| ==> (a + b)[i] == a[i];
    assert forall i :: 0 <= i < |b| ==> (a + b)[|a| + i] == b[i];
  }

  // ----- the tables on disk, in the order recovery finds them -----

  /** The tables the running store has, leaving out one that a flush has renamed but not yet
      opened. */
  ghost function SettledFiles(s: State): seq<File>
    requires s.Up?
  {
    match s.compactor
    case Renamed(snapshot, n) =>
      if |snapshot| <= |s.sstables| then
        Reorder(snapshot) + Insert(File(n, Compacted(Tables(snapshot))), s.sstables[|snapshot|..])
      else s.sstables
    case _ => Reorder(s.sstables)
  }

  ghost function DiskFiles(s: State): seq<File>
    requires s.Up?
  {
    SettledFiles(s) + if s.writer.FlushRenamed? then [File(s.next, s.mem)] else []
  }

  /** What else recovery would find: tables that a compaction has replaced and that are not, or
      could not be, deleted. They come before all others. */
  ghost function Leftovers(s: State): seq<File>
    requires s.Up?
  {
    match RecoverTables(s.files)
    case Success(fs) => if |DiskFiles(s)| <= |fs| then fs[..|fs| - |DiskFiles(s)|] else []
    case Failure(_) => []
  }

  ghost predicate HasNot(fs: seq<File>, n: nat) {
    forall i :: 0 <= i < |fs| ==> fs[i].number != n
  }

  ghost predicate AllBelow(fs: seq<File>, n: nat) {
    forall i :: 0 <= i < |fs| ==> fs[i].number < n
  }

  ghost predicate AllAbove(fs: seq<File>, p: nat, n: nat) {
    forall i :: p <= i < |fs| ==> n < fs[i].number
  }

  /** Files flushed since the snapshot have larger numbers than all of it. */
  ghost predicate SinceSnapshot(snapshot: seq<File>, fs: seq<File>) {
    snapshot != [] && forall i :: 0 <= i < |snapshot| ==> AllAbove(fs, |snapshot|, snapshot[i].number)
  }

  /** The number a compaction has taken: above its sources, not yet in the list. */
  ghost predicate NumberTaken(snapshot: seq<File>, n: nat, fs: seq<File>) {
    SinceSnapshot(snapshot, fs) && AllBelow(snapshot, n) && HasNot(fs, n)
  }

  /** Either the list is in number order and nothing is left over, or its first file is the
      result of a compaction. */
  ghost predicate ListOrder(fs: seq<File>, left: seq<File>) {
    (InNumberOrder(fs) && left == []) || (fs != [] && NoTombstones(fs[0].table))
  }

  ghost predicate Order(s: State)
    requires s.Up?
  {
    match s.compactor
    case Merging(snapshot) => SinceSnapshot(snapshot, s.sstables)
    case Allocated(snapshot, n) => NumberTaken(snapshot, n, s.sstables)
    case Writing(snapshot, n, _) => NumberTaken(snapshot, n, s.sstables)
    case Renamed(snapshot, n) => NumberTaken(snapshot, n, s.sstables)
    case Deleting(rest) => forall i :: 0 <= i < |rest| ==> AllAbove(s.sstables, 0, rest[i].number)
    case _ => true
  }

  /** Recovery finds `left` and then the tables the store has. */
  ghost predicate FoundOnDisk(s: State, left: seq<File>)
    requires s.Up?
  {
    && Order(s) && ListOrder(s.sstables, left)
    && InNumberOrder(left + DiskFiles(s)) && FilesAre(s.files, left + DiskFiles(s))
  }

  ghost predicate DiskInv(s: State) {
    match s
    case Up(_, _, _, _, _, _, _, _, _) => FoundOnDisk(s, Leftovers(s))
    case Down(files) =>
      RecoverTables(files).Success? && FilesAre(files, RecoverTables(files).value)
  }

  /** What a step leaves over: a swap its sources, until they are deleted. */
  ghost function LeftAfter(s: State, l: Label): seq<File>
    requires s.Up?
  {
    if l.Swap? && s.compactor.Renamed? then Leftovers(s) + Reorder(s.compactor.snapshot)
    else if l.RemoveOldest? && s.compactor.Deleting? && s.compactor.rest != [] then
      Without(Leftovers(s), s.compactor.rest[0].number)
    else Leftovers(s)
  }

  lemma LeftoversAre(s: State, left: seq<File>)
    requires s.Up? && FoundOnDisk(s, left)
    ensures DiskInv(s) && Leftovers(s) == left
  {
    hide FilesAre, RecoverTables, DiskFiles, Order, ListOrder, InNumberOrder;
    RecoverExpected(s.files, left + DiskFiles(s));
  }

  lemma ReorderBelow(fs: seq<File>, n: nat)
    requires AllBelow(fs, n)
    ensures AllBelow(Reorder(fs), n)
  {
  }

  lemma ReorderAbove(fs: seq<File>, n: nat)
    requires AllAbove(fs, 0, n)
    ensures AllAbove(Reorder(fs), 0, n)
  {
  }

  lemma InsertBelow(f: File, fs: seq<File>, n: nat)
    requires AllBelow(fs, n) && f.number < n
    ensures AllBelow(Insert(f, fs), n)
  {
  }

  lemma ConcatBelow(a: seq<File>, b: seq<File>, n: nat)
    requires b != [] && InNumberOrder(a + b) && AllBelow(b, n)
    ensures AllBelow(a + b, n)
  {
    assert (a + b)[|a|] == b[0];
  }

  lemma SettledBelowNext(s: State, left: seq<File>)
    requires s.Up? && LiveInv(s) && FoundOnDisk(s, left)
    ensures AllBelow(left + SettledFiles(s), s.next)
  {
    hide WriterInv, FilesAre, InNumberOrder, NoTombstones, TableBytes, Fits, Compacted, Insert, Reorder, AllAbove,
         SinceSnapshot, HasNot;
    SettledBelow(s);
    if s.sstables != [] {
      assert left + DiskFiles(s) == left + SettledFiles(s) + DiskFiles(s)[|SettledFiles(s)|..];
      AscendingParts(left + SettledFiles(s), DiskFiles(s)[|SettledFiles(s)|..]);
      SettledNotEmpty(s);
      ConcatBelow(left, SettledFiles(s), s.next);
    }
  }

  lemma SettledNotEmpty(s: State)
    requires s.Up? && s.sstables != []
    ensures SettledFiles(s) != []
  {
    hide Compacted, Below;
  }

  lemma SettledBelow(s: State)
    requires s.Up? && LiveInv(s) && Order(s)
    ensures AllBelow(SettledFiles(s), s.next)
  {
    hide WriterInv, FilesAre, NoTombstones, TableBytes, Fits, Compacted, Insert, Reorder, AllAbove, HasNot;
    ReorderBelow(s.sstables, s.next);
    match s.compactor {
      case Renamed(snapshot, n) =>
        ReorderBelow(snapshot, n);
        InsertBelow(File(n, Compacted(Tables(snapshot))), s.sstables[|snapshot|..], s.next);
      case _ =>
    }
  }

  // ----- steps keep the order -----

  /** Steps that leave the list of tables alone and touch at most one other file. */
  lemma OtherFileStep(s: State, t: State, left: seq<File>, name: string)
    requires s.Up? && FoundOnDisk(s, left) && t.Up?
    requires Order(t) && t.sstables == s.sstables && DiskFiles(t) == DiskFiles(s)
    requires ParseSSTableNumber(name) == NotAnSSTable
    requires t.files == s.files || OnlyChanged(s.files, t.files, name)
    ensures FoundOnDisk(t, left)
  {
    hide ParseSSTableNumber, FilesAre, InNumberOrder, DiskFiles, Order, ListOrder;
    if t.files != s.files {
      WriteOther(s.files, left + DiskFiles(s), name, t.files[name]);
    }
  }

  lemma WriterOrder(s: State, l: Label, left: seq<File>)
    requires s.Up? && LiveInv(s) && FoundOnDisk(s, left) && Step(s, l).Some?
    requires IsWriterLabel(l) && !l.FlushRename? && !l.FlushOpen?
    ensures Step(s, l).value.Up? && FoundOnDisk(Step(s, l).value, left)
  {
    hide TmpName, ParseSSTableNumber, FilesAre, InNumberOrder, NoTombstones, Compacted, WriterStep, ListOrder,
         CompactorStep, CompactorInv, WriterInv, OnlyChanged, Insert, Reorder, AllBelow, AllAbove, HasNot;
    UnlistedFilesEffect(s, l);
    NamesDiffer(s.next, s.next);
    var t := Step(s, l).value;
    OtherFileStep(s, t, left, if OnlyChanged(s.files, t.files, WAL_NAME) then WAL_NAME else TmpName(s.next));
  }

  lemma ReplaceTmp(files: Files, before: seq<File>, after: seq<File>, f: File)
    requires FilesAre(files, before + after) && f.number < TWO_64 && TmpName(f.number) in files
    requires OpenedTable(files[TmpName(f.number)]) == Success(f.table) && !HasNumber(before + after, f.number)
    ensures FilesAre(RenameTo(files, TmpName(f.number), SSTableFilename(f.number)), before + [f] + after)
  {
    hide SSTableFilename, TmpName, ParseSSTableNumber, FilesAre, OpenedTable, HasNumber;
    NamesDiffer(f.number, f.number);
    RemoveOther(files, before + after, TmpName(f.number));
    AddFile(files - {TmpName(f.number)}, before, after, f, files[TmpName(f.number)]);
  }

  lemma FlushRenameOrder(s: State, left: seq<File>)
    requires s.Up? && LiveInv(s) && FoundOnDisk(s, left) && Step(s, FlushRename).Some?
    ensures Step(s, FlushRename).value.Up? && FoundOnDisk(Step(s, FlushRename).value, left)
  {
    hide SSTableFilename, TmpName, TableBytes, FilesAre, OpenedTable, Step, CompactorInv, SettledFiles, ListOrder,
         NoTombstones, Compacted, Records, ValidEnd, FoldRecords, Settled, RenameTo, Insert, Reorder;
    FlushRenameEffect(s);
    var t, fs := Step(s, FlushRename).value, left + SettledFiles(s);
    assert left + DiskFiles(s) == fs == fs + [];
    SettledBelowNext(s, left);
    TableBytesFirst(s.mem);
    MemTableReadsBack(s.files[WAL_NAME], s.mem);
    ReplaceTmp(s.files, fs, [], File(s.next, s.mem));
    assert SettledFiles(t) == SettledFiles(s) by { SameSettled(s, t); }
    assert fs + [File(s.next, s.mem)] + [] == left + DiskFiles(t);
  }

  lemma SameSettled(s: State, t: State)
    requires s.Up? && t.Up? && t.sstables == s.sstables && t.compactor == s.compactor
    ensures SettledFiles(t) == SettledFiles(s)
  {
  }

  lemma OrderAppend(s: State, t: State, f: File)
    requires s.Up? && LiveInv(s) && Order(s) && t.Up?
    requires t.compactor == s.compactor && t.sstables == s.sstables + [f] && f.number == s.next
    ensures Order(t) && SettledFiles(t) == SettledFiles(s) + [f]
  {
    hide WriterInv, NoTombstones, Compacted, Insert, TableBytes, Reorder;
    ReorderAppend(s.sstables, f);
    match s.compactor {
      case Renamed(snapshot, n) =>
        assert t.sstables[|snapshot|..] == s.sstables[|snapshot|..] + [f];
        InsertConcat(File(n, Compacted(Tables(snapshot))), s.sstables[|snapshot|..], [f]);
      case _ =>
    }
  }

  lemma ListAppend(fs: seq<File>, left: seq<File>, f: File)
    requires ListOrder(fs, left) && AllBelow(fs, f.number)
    ensures ListOrder(fs + [f], left)
  {
    hide NoTombstones;
  }

  lemma FlushOpenOrder(s: State, left: seq<File>)
    requires s.Up? && LiveInv(s) && FoundOnDisk(s, left) && Step(s, FlushOpen).Some?
    ensures Step(s, FlushOpen).value.Up? && FoundOnDisk(Step(s, FlushOpen).value, left)
  {
    hide SSTableFilename, TmpName, TableBytes, FilesAre, OpenedTable, Step, Fits, CompactorInv, ListOrder,
         Records, ValidEnd, FoldRecords, Settled, InNumberOrder, SettledFiles, Order;
    FlushOpenEffect(s);
    MemTableReadsBack(s.files[WAL_NAME], s.mem);
    var t, f := Step(s, FlushOpen).value, File(s.next, s.mem);
    OrderAppend(s, t, f);
    ListAppend(s.sstables, left, f);
    assert DiskFiles(t) == SettledFiles(t) == DiskFiles(s);
  }

  lemma CompactionMemoryOrder(s: State, l: Label, left: seq<File>)
    requires s.Up? && LiveInv(s) && FoundOnDisk(s, left) && Step(s, l).Some?
    requires l.CompactionStart? || l.Snapshot? || l.Allocate? || l.RemoveFails? || l.CompactionFinish?
    ensures Step(s, l).value.Up? && FoundOnDisk(Step(s, l).value, left)
  {
    hide FilesAre, Step, WriterInv, NoTombstones, Compacted, InNumberOrder, ListOrder, Insert, Reorder,
         TableBytes;
    CompactionMemoryEffect(s, l);
    var t := Step(s, l).value;
    assert DiskFiles(t) == DiskFiles(s);
  }

  lemma CompactionTmpOrder(s: State, l: Label, left: seq<File>)
    requires s.Up? && LiveInv(s) && FoundOnDisk(s, left) && Step(s, l).Some?
    requires l.CompactCreate? || l.CompactByte?
    ensures Step(s, l).value.Up? && FoundOnDisk(Step(s, l).value, left)
  {
    hide SSTableFilename, TmpName, ParseSSTableNumber, TableBytes, FilesAre, Step, WriterInv, Fits, ListOrder,
         Compacted, InNumberOrder, NumberTaken, Insert, Reorder, OnlyChanged;
    CompactionTmpEffect(s, l);
    var n := s.compactor.number;
    NamesDiffer(n, n);
    OtherFileStep(s, Step(s, l).value, left, TmpName(n));
  }

  /** The list on disk, cut where the compacted file will appear. */
  lemma CutAt(s: State, left: seq<File>, snapshot: seq<File>, n: nat, before: seq<File>, after: seq<File>)
    requires s.Up? && LiveInv(s) && FoundOnDisk(s, left) && s.compactor.Writing?
    requires snapshot == s.compactor.snapshot && n == s.compactor.number
    requires var tail := s.sstables[|snapshot|..];
             && before == left + Reorder(snapshot) + tail[..Below(tail, n)]
             && after == tail[Below(tail, n)..] + if s.writer.FlushRenamed? then [File(s.next, s.mem)] else []
    ensures left + DiskFiles(s) == before + after
    ensures AllBelow(before, n) && AllAbove(after, 0, n)
  {
    hide TableBytes, Fits, Compacted, Below, Reorder, InNumberOrder, WriterInv, FilesAre, NoTombstones, HasNot,
         ListOrder;
    var tail := s.sstables[|snapshot|..];
    var flushed := if s.writer.FlushRenamed? then [File(s.next, s.mem)] else [];
    assert s.sstables == snapshot + tail;
    TailHasNot(s.sstables, |snapshot|, n);
    CutList(left, snapshot, tail, flushed, n);
  }

  lemma TailHasNot(fs: seq<File>, p: nat, n: nat)
    requires p <= |fs| && HasNot(fs, n)
    ensures HasNot(fs[p..], n)
  {
  }

  lemma CutList(left: seq<File>, snapshot: seq<File>, tail: seq<File>, flushed: seq<File>, n: nat)
    requires snapshot != [] && AllBelow(snapshot, n) && AllAbove(tail, 0, snapshot[0].number) && HasNot(tail, n)
    requires InNumberOrder(left + (Reorder(snapshot + tail) + flushed)) && AllAbove(flushed, 0, n)
    ensures var before, after := left + Reorder(snapshot) + tail[..Below(tail, n)], tail[Below(tail, n)..] + flushed;
            && left + (Reorder(snapshot + tail) + flushed) == before + after
            && AllBelow(before, n) && AllAbove(after, 0, n)
  {
    hide Below, Reorder, InNumberOrder, HasNot;
    var b := Below(tail, n);
    ReorderConcat(snapshot, tail);
    Pieces(left, Reorder(snapshot), tail, b, flushed);
    AscendingParts(left + Reorder(snapshot), tail + flushed);
    AscendingParts(tail, flushed);
    ReorderBelow(snapshot, n);
    ReorderNotEmpty(snapshot);
    ConcatBelow(left, Reorder(snapshot), n);
    AboveWindow(tail, n);
  }

  lemma ReorderNotEmpty(fs: seq<File>)
    requires fs != []
    ensures Reorder(fs) != []
  {
  }

  lemma Pieces(left: seq<File>, a: seq<File>, tail: seq<File>, b: nat, flushed: seq<File>)
    requires b <= |tail|
    ensures left + (a + tail + flushed) == left + a + (tail + flushed)
    ensures left + (a + tail + flushed) == left + a + tail[..b] + (tail[b..] + flushed)
  {
  }

  lemma AboveWindow(tail: seq<File>, n: nat)
    requires InNumberOrder(tail) && HasNot(tail, n)
    ensures AllAbove(tail, Below(tail, n), n)
  {
  }

  lemma CompactRenameOrder(s: State, left: seq<File>)
    requires s.Up? && LiveInv(s) && FoundOnDisk(s, left) && Step(s, CompactRename).Some?
    ensures Step(s, CompactRename).value.Up? && FoundOnDisk(Step(s, CompactRename).value, left)
  {
    hide SSTableFilename, TmpName, TableBytes, FilesAre, OpenedTable, Step, WriterInv, Fits, Below, ListOrder,
         Compacted, RenameTo, InNumberOrder, Reorder, Insert, HasNot, NoTombstones, DiskFiles;
    CompactRenameEffect(s);
    var t := Step(s, CompactRename).value;
    var snapshot, n := s.compactor.snapshot, s.compactor.number;
    var c := Compacted(Tables(snapshot));
    TableBytesFirst(c);
    CompactedReadsBack(Tables(snapshot));
    var tail := s.sstables[|snapshot|..];
    var flushed := if s.writer.FlushRenamed? then [File(s.next, s.mem)] else [];
    var before, after := left + Reorder(snapshot) + tail[..Below(tail, n)], tail[Below(tail, n)..] + flushed;
    CutAt(s, left, snapshot, n, before, after);
    AscendingInsert(before, File(n, c), after);
    ReplaceTmp(s.files, before, after, File(n, c));
    RenamedFiles(t, left, before, after);
  }

  lemma RenamedFiles(t: State, left: seq<File>, before: seq<File>, after: seq<File>)
    requires t.Up? && t.compactor.Renamed? && |t.compactor.snapshot| <= |t.sstables|
    requires var snapshot, n := t.compactor.snapshot, t.compactor.number;
             var tail := t.sstables[|snapshot|..];
             && before == left + Reorder(snapshot) + tail[..Below(tail, n)]
             && after == tail[Below(tail, n)..] + if t.writer.FlushRenamed? then [File(t.next, t.mem)] else []
    ensures left + DiskFiles(t)
         == before + [File(t.compactor.number, Compacted(Tables(t.compactor.snapshot)))] + after
  {
    hide Below, Compacted, Reorder;
  }

  lemma SwapOrder(s: State, left: seq<File>)
    requires s.Up? && LiveInv(s) && FoundOnDisk(s, left) && Step(s, Swap).Some?
    ensures var t := Step(s, Swap).value;
            && t.Up? && s.compactor.Renamed? && FoundOnDisk(t, left + Reorder(s.compactor.snapshot))
            && t.compactor == Deleting(s.compactor.snapshot)
            && t.sstables != []
            && t.sstables[0] == File(s.compactor.number, Compacted(Tables(s.compactor.snapshot)))
  {
    hide SSTableFilename, TmpName, TableBytes, FilesAre, OpenedTable, Step, WriterInv, NoTombstones, Fits,
         Compacted, InNumberOrder, Insert, HasNot;
    SwapEffect(s);
    var t, snapshot := Step(s, Swap).value, s.compactor.snapshot;
    CompactedReadsBack(Tables(snapshot));
    CompactedHasNoTombstones(Tables(snapshot));
    assert s.sstables[..|snapshot|] == snapshot;
    assert t.sstables[1..] == s.sstables[|snapshot|..];
    assert t.sstables[0].number == s.compactor.number;
    assert left + DiskFiles(s) == left + Reorder(snapshot) + DiskFiles(t);
  }

  lemma RemoveOldestOrder(s: State, left: seq<File>)
    requires s.Up? && LiveInv(s) && FoundOnDisk(s, left) && Step(s, RemoveOldest).Some?
    ensures var t := Step(s, RemoveOldest).value;
            && t.Up? && s.compactor.Deleting? && s.compactor.rest != []
            && FoundOnDisk(t, Without(left, s.compactor.rest[0].number))
  {
    hide SSTableFilename, FilesAre, Step, WriterInv, NoTombstones, InNumberOrder, Reorder;
    RemoveOldestEffect(s);
    var t, n := Step(s, RemoveOldest).value, s.compactor.rest[0].number;
    assert t.sstables == s.sstables && DiskFiles(t) == DiskFiles(s);
    RemoveFile(s.files, left + DiskFiles(s), n);
    ReorderAbove(s.sstables, n);
    WithoutConcat(left, DiskFiles(s), n);
  }

  lemma {:induction false} WithoutConcat(a: seq<File>, b: seq<File>, n: nat)
    requires HasNot(b, n)
    ensures Without(a + b, n) == Without(a, n) + b
  {
    if a == [] {
      assert a + b == b;
      WithoutNone(b, n);
    } else {
      assert (a + b)[1..] == a[1..] + b;
      WithoutConcat(a[1..], b, n);
    }
  }

  lemma KillOrder(s: State)
    requires DiskInv(s)
    ensures DiskInv(Down(s.files))
  {
    hide FilesAre, RecoverTables, DiskFiles, Order;
    if s.Up? {
      RecoverExpected(s.files, Leftovers(s) + DiskFiles(s));
    }
  }

  /** Recovery's own effects leave the tables, and what the log replays to, as they were. */
  lemma RecoveryKeeps(files: Files, l: Label)
    requires DiskInv(Down(files)) && Step(Down(files), l).Some? && !l.Open?
    ensures var t := Step(Down(files), l).value;
            t.Down? && DiskInv(t) && RecoveredView(t.files) == RecoveredView(files)
  {
    hide FilesAre, RecoverTables, ParseSSTableNumber, Records, ValidEnd, InNumberOrder, View, OpenAll;
    var fs := RecoverTables(files).value;
    RecoveredAscending(files);
    TmpOnly(0);
    match l {
      case CleanTmp(name) =>
        TmpNotTable(name);
        RemoveOther(files, fs, name);
        RecoverExpected(files - {name}, fs);
      case CreateLog =>
        WriteOther(files, fs, WAL_NAME, []);
        RecoverExpected(files[WAL_NAME := []], fs);
      case TruncateLog =>
        var cut := files[WAL_NAME][..ValidEnd(files[WAL_NAME])];
        ReplayNormalises(files[WAL_NAME]);
        WriteOther(files, fs, WAL_NAME, cut);
        RecoverExpected(files[WAL_NAME := cut], fs);
      case _ =>
    }
  }

  lemma TmpNotTable(name: string)
    requires HasTmpExtension(name)
    ensures ParseSSTableNumber(name) == NotAnSSTable && name != WAL_NAME
  {
    assert name[|name| - 4..][1] == 't' && SUFFIX[1] == 's' && WAL_NAME[|WAL_NAME| - 4..][1] == 'l';
  }

  lemma OpenOrder(files: Files, l: Label)
    requires l.Open? && DiskInv(Down(files)) && Step(Down(files), l).Some?
    ensures Step(Down(files), l).value.Up? && FoundOnDisk(Step(Down(files), l).value, [])
  {
    hide FilesAre, RecoverTables, Records, ValidEnd, InNumberOrder, Reorder;
    RecoveredAscending(files);
    ReorderAscending(RecoverTables(files).value);
    assert [] + DiskFiles(Step(Down(files), l).value) == RecoverTables(files).value;
  }

  lemma RunningWriterOrder(s: State, l: Label, left: seq<File>)
    requires s.Up? && LiveInv(s) && FoundOnDisk(s, left) && Step(s, l).Some? && IsWriterLabel(l)
    ensures Step(s, l).value.Up? && FoundOnDisk(Step(s, l).value, left)
  {
    hide LiveInv, FoundOnDisk, Step;
    match l {
      case FlushRename => FlushRenameOrder(s, left);
      case FlushOpen => FlushOpenOrder(s, left);
      case _ => WriterOrder(s, l, left);
    }
  }

  lemma RunningCompactorOrder(s: State, l: Label, left: seq<File>)
    requires s.Up? && LiveInv(s) && FoundOnDisk(s, left) && Step(s, l).Some? && !IsWriterLabel(l)
    requires !l.Kill? && !l.Swap? && !l.RemoveOldest?
    ensures Step(s, l).value.Up? && FoundOnDisk(Step(s, l).value, left)
  {
    hide LiveInv, FoundOnDisk, Step;
    match l {
      case CompactCreate => CompactionTmpOrder(s, l, left);
      case CompactByte => CompactionTmpOrder(s, l, left);
      case CompactRename => CompactRenameOrder(s, left);
      case _ =>
        if l.CleanTmp? || l.CreateLog? || l.TruncateLog? || l.Open? {
          NotWhileUp(s, l);
        } else {
          CompactionMemoryOrder(s, l, left);
        }
    }
  }

  /** Every step of the writer and the compactor. */
  lemma RunningOrder(s: State, l: Label)
    requires s.Up? && LiveInv(s) && DiskInv(s) && Step(s, l).Some? && !l.Kill?
    ensures Step(s, l).value.Up? && FoundOnDisk(Step(s, l).value, LeftAfter(s, l))
  {
    hide LiveInv, FoundOnDisk, Step, Leftovers, Reorder, Compacted, Without;
    var left := Leftovers(s);
    if l.Swap? {
      SwapOrder(s, left);
    } else if l.RemoveOldest? {
      RemoveOldestOrder(s, left);
    } else if IsWriterLabel(l) {
      RunningWriterOrder(s, l, left);
    } else {
      RunningCompactorOrder(s, l, left);
    }
  }

  /** Every step keeps the invariant, and what it leaves over is known. */
  lemma OrderStep(s: State, l: Label)
    requires LiveInv(s) && DiskInv(s) && Step(s, l).Some?
    ensures DiskInv(Step(s, l).value)
    ensures Step(s, l).value.Up? ==> Leftovers(Step(s, l).value) == if s.Up? then LeftAfter(s, l) else []
  {
    hide LiveInv, DiskInv, FoundOnDisk, WriterStep, CompactorStep, Recover, RecoveredView, Leftovers, LeftAfter;
    var t := Step(s, l).value;
    if s.Down? {
      if l.Open? {
        OpenOrder(s.files, l);
        LeftoversAre(t, []);
      } else {
        RecoveryKeeps(s.files, l);
      }
    } else if l.Kill? {
      KillOrder(s);
    } else {
      RunningOrder(s, l);
      LeftoversAre(t, LeftAfter(s, l));
    }
  }

  // ----- what a reopened store shows -----

  /** With `mem` as the replayed memtable, the key is stale: the compacted file hides a newer entry
      that was flushed before it took its number, or a file that it replaced brings the key
      back. */
  ghost predicate KeyIsStale(s: State, mem: Table, k: Field)
    requires s.Up?
  {
    match s.compactor
    case Renamed(snapshot, n) =>
      |snapshot| <= |s.sstables|
      && StaleUnder(k, Leftovers(s) + Reorder(snapshot), File(n, Compacted(Tables(snapshot))),
                    s.sstables[|snapshot|..], mem)
    case _ => s.sstables != [] && StaleUnder(k, Leftovers(s), s.sstables[0], s.sstables[1..], mem)
  }

  ghost predicate StaleUnder(k: Field, under: seq<File>, c: File, newer: seq<File>, mem: Table) {
    var b := Below(newer, c.number);
    Stale(k, Tables(under), c.table, Tables(newer[..b]), Tables(newer[b..]), mem)
  }

  ghost predicate NoStaleKey(s: State, mem: Table)
    requires s.Up?
  {
    forall k :: !KeyIsStale(s, mem, k)
  }

  lemma InsertTables(c: File, newer: seq<File>)
    ensures var b := Below(newer, c.number);
            && Tables(Insert(c, newer)) == Tables(newer[..b]) + [c.table] + Tables(newer[b..])
            && Tables([c] + newer) == [c.table] + Tables(newer[..b]) + Tables(newer[b..])
            && Tables(newer) == Tables(newer[..b]) + Tables(newer[b..])
  {
    hide Tables, Below;
    var b := Below(newer, c.number);
    TablesConcat(newer[..b] + [c], newer[b..]);
    TablesConcat(newer[..b], [c]);
    assert Tables([c]) == [c.table] by { TablesOne(c); }
    assert newer == newer[..b] + newer[b..];
    TablesConcat(newer[..b], newer[b..]);
    TablesConcat([c], newer);
  }

  lemma TablesOne(c: File)
    ensures Tables([c]) == [c.table]
  {
  }

  lemma Regroup(a: seq<Table>, b: seq<Table>, c: seq<Table>, d: seq<Table>)
    ensures a + (b + c + d) == a + b + c + d
    ensures b + (c + d) == b + c + d
  {
  }

  /** A compacted file sorted into the files newer than it, above what it replaces. */
  lemma InsertedViewIff(k: Field, under: seq<File>, c: File, newer: seq<File>, mem: Table)
    requires NoTombstones(c.table)
    ensures SameAt(k, View(Tables(under + Insert(c, newer)), mem), View(Tables([c] + newer), mem))
            <==> !StaleUnder(k, under, c, newer, mem)
  {
    hide View, NoTombstones, Stale, Insert, Below, Tables, SameAt;
    var u, b := Tables(under), Below(newer, c.number);
    InsertTables(c, newer);
    TablesConcat(under, Insert(c, newer));
    var w, l := Tables(newer[..b]), Tables(newer[b..]);
    MisorderedIff(k, u, c.table, w, l, mem);
    Regroup(u, w, [c.table], l);
  }

  /** What is left over, or sorted elsewhere than by age, changes the answers for exactly the stale
      keys. */
  lemma SettledViewIff(k: Field, s: State, mem: Table)
    requires s.Up? && LiveInv(s) && DiskInv(s)
    ensures SameAt(k, View(Tables(Leftovers(s) + SettledFiles(s)), mem), View(Tables(s.sstables), mem))
            <==> !KeyIsStale(s, mem, k)
  {
    hide FilesAre, View, Compacted, NoTombstones, StaleUnder, Insert, Reorder, WriterInv, Fits, InNumberOrder,
         Leftovers, ListOrder, Order, SameAt;
    match s.compactor {
      case Renamed(snapshot, n) =>
        RenamedViewIff(k, s.sstables, Leftovers(s), snapshot, n, mem);
      case _ =>
        SettledListIff(k, s.sstables, Leftovers(s), mem);
    }
  }

  lemma RenamedViewIff(k: Field, fs: seq<File>, left: seq<File>, snapshot: seq<File>, n: nat, mem: Table)
    requires snapshot <= fs
    ensures var c, newer := File(n, Compacted(Tables(snapshot))), fs[|snapshot|..];
            SameAt(k, View(Tables(left + (Reorder(snapshot) + Insert(c, newer))), mem), View(Tables(fs), mem))
            <==> !StaleUnder(k, left + Reorder(snapshot), c, newer, mem)
  {
    hide View, Compacted, NoTombstones, StaleUnder, Insert, Reorder, Tables, SameAt;
    var c, newer := File(n, Compacted(Tables(snapshot))), fs[|snapshot|..];
    CompactedHasNoTombstones(Tables(snapshot));
    InsertedViewIff(k, left + Reorder(snapshot), c, newer, mem);
    SeenAfterSwap(fs, snapshot, n, mem);
    assert left + (Reorder(snapshot) + Insert(c, newer)) == left + Reorder(snapshot) + Insert(c, newer);
  }

  lemma SettledListIff(k: Field, fs: seq<File>, left: seq<File>, mem: Table)
    requires ListOrder(fs, left)
    ensures SameAt(k, View(Tables(left + Reorder(fs)), mem), View(Tables(fs), mem))
            <==> (fs == [] || !StaleUnder(k, left, fs[0], fs[1..], mem))
  {
    hide View, NoTombstones, StaleUnder, Insert;
    if InNumberOrder(fs) && left == [] {
      ReorderAscending(fs);
      assert left + Reorder(fs) == fs;
      if fs != [] {
        NothingUnder(fs[0].table);
        NothingStale(k, [], fs[0], fs[1..], mem);
      }
    } else {
      InsertedViewIff(k, left, fs[0], fs[1..], mem);
      assert fs == [fs[0]] + fs[1..];
    }
  }

  lemma NothingUnder(t: Table)
    ensures Harmless(Tables([]), t)
  {
    assert Tables([]) == [];
  }

  /** Nothing is stale when every file written after the snapshot has a larger number and what
      lies below is harmless. */
  lemma NothingStale(k: Field, under: seq<File>, c: File, newer: seq<File>, mem: Table)
    requires AllAbove(newer, 0, c.number) && Harmless(Tables(under), c.table)
    ensures !StaleUnder(k, under, c, newer, mem)
  {
    hide Tables;
    assert Below(newer, c.number) == 0;
    assert Tables(newer[..0]) == [];
    assert Merge(Tables(newer[..0])) == map[];
  }

  /** What the log replays to. */
  ghost function Replayed(s: State): Table
    requires s.Up?
  {
    FoldRecords(Records(LogBytes(s.files)))
  }

  lemma LogOf(s: State)
    requires s.Up? && LiveInv(s)
    ensures Replayed(s) == match s.writer
                           case Logged(op) => s.mem[op.key := EntryFor(op)]
                           case FlushReset(_) => map[]
                           case _ => s.mem
  {
    hide CompactorInv, TableBytes, Records, ValidEnd, FoldRecords, EncodeRecordValue, EntryFor, Canonical;
    var log := s.files[WAL_NAME];
    match s.writer {
      case Appending(op, j) =>
        var base := log[..|log| - j];
        assert log == base + EncodeRecordValue(op)[..j];
        TornAppend(base, op, j);
      case Logged(op) =>
        PendingDone(log, op, s.mem);
      case FlushReset(op) =>
        EmptyLogSettled();
      case _ =>
    }
  }

  /** What a kill must preserve: what was seen, and the write in flight once its record is
      complete in the log. */
  ghost function Durable(s: State): Contents
    requires s.Up?
  {
    if s.writer.Logged? then Apply(Seen(s), s.writer.op) else Seen(s)
  }

  lemma DurableView(s: State)
    requires s.Up? && LiveInv(s)
    ensures Durable(s) == View(Tables(s.sstables), Replayed(s))
  {
    hide CompactorInv, View, Records, FoldRecords, ValidEnd, TableBytes, Fits, EncodeRecordValue, Apply, EntryFor,
         PendingWrite, Settled, Canonical, Replayed;
    LogOf(s);
    match s.writer {
      case Logged(op) =>
        SeenApply(Tables(s.sstables), s.mem, op);
      case FlushReset(op) =>
        var fs := s.sstables[..|s.sstables| - 1];
        assert Tables(s.sstables) == Tables(fs) + [s.mem];
        SeenAfterFlush(Tables(fs), s.mem);
      case _ =>
    }
  }

  /** A table that a flush has renamed adds nothing under the memtable it was written from. */
  lemma DiskView(s: State, left: seq<File>)
    requires s.Up? && LiveInv(s)
    ensures View(Tables(left + DiskFiles(s)), Replayed(s)) == View(Tables(left + SettledFiles(s)), Replayed(s))
  {
    hide CompactorInv, View, Settled, SettledFiles, Replayed, TableBytes, Fits, PendingWrite;
    if s.writer.FlushRenamed? {
      LogOf(s);
      assert left + DiskFiles(s) == left + SettledFiles(s) + [File(s.next, s.mem)];
      TablesConcat(left + SettledFiles(s), [File(s.next, s.mem)]);
      assert Tables([File(s.next, s.mem)]) == [s.mem];
      SeenAfterFlush(Tables(left + SettledFiles(s)), s.mem);
    } else {
      assert DiskFiles(s) == SettledFiles(s);
    }
  }

  /** A kill at any point: reopening succeeds, and answers exactly the stale keys otherwise than
      what must be preserved. */
  lemma ReopenedIff(s: State)
    requires s.Up? && LiveInv(s) && DiskInv(s)
    ensures RecoveredView(s.files).Success?
    ensures forall k :: SameAt(k, RecoveredView(s.files).value, Durable(s)) <==> !KeyIsStale(s, Replayed(s), k)
    ensures RecoveredView(s.files).value == Durable(s) <==> NoStaleKey(s, Replayed(s))
  {
    hide LiveInv, FilesAre, InNumberOrder, RecoverTables, View, Records, FoldRecords, DiskFiles, SettledFiles,
         Order, ListOrder, Durable, KeyIsStale, LogBytes, Leftovers, SameAt;
    RecoverExpected(s.files, Leftovers(s) + DiskFiles(s));
    DiskView(s, Leftovers(s));
    DurableView(s);
    forall k
      ensures SameAt(k, RecoveredView(s.files).value, Durable(s)) <==> !KeyIsStale(s, Replayed(s), k)
    {
      SettledViewIff(k, s, Replayed(s));
    }
    SameEverywhere(RecoveredView(s.files).value, Durable(s));
  }

  // ----- runs -----

  lemma FreshDirectory()
    ensures DiskInv(Down(map[]))
  {
    RecoverExpected(map[], []);
  }

  lemma {:induction false} OrderReachable(files: Files, ls: seq<Label>)
    requires DiskInv(Down(files)) && Exec(Down(files), ls).Some?
    ensures DiskInv(Exec(Down(files), ls).value)
  {
    hide LiveInv, DiskInv, Step, LeftAfter, Leftovers;
    if ls != [] {
      var before := ls[..|ls| - 1];
      OrderReachable(files, before);
      LiveReachable(files, before);
      OrderStep(Exec(Down(files), before).value, ls[|ls| - 1]);
    }
  }

  /** The exact condition, over every run: any interleaving, any number of compactions, flushes
      in the window, failed removals and kills. In every running state of every run from a
      directory whose tables can be opened, the empty one for instance, a kill now is followed
      by a successful reopening. It answers exactly the stale keys otherwise than callers saw,
      so it is right if and only if there are none. */
  lemma ReopeningIsRightIffNoStaleKey(files: Files, ls: seq<Label>)
    requires DiskInv(Down(files)) && Exec(Down(files), ls).Some? && Exec(Down(files), ls).value.Up?
    ensures var s := Exec(Down(files), ls).value;
            && RecoveredView(s.files).Success?
            && (forall k :: SameAt(k, RecoveredView(s.files).value, Durable(s)) <==> !KeyIsStale(s, Replayed(s), k))
            && (RecoveredView(s.files).value == Durable(s) <==> NoStaleKey(s, Replayed(s)))
  {
    hide LiveInv, DiskInv, Step, Exec, NoStaleKey, KeyIsStale, Durable, Replayed, RecoveredView;
    OrderReachable(files, ls);
    LiveReachable(files, ls);
    ReopenedIff(Exec(Down(files), ls).value);
  }
}
