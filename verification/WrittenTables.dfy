/** Every table file a store can ever find is one that the writer produced: a reader opened by
    recovery never meets a damaged or half-written file. */
module WrittenTables {
  import opened ByteUtil
  import opened Wal
  import opened FileSystem
  import opened Entries
  import opened Layers
  import opened SSTableFormat
  import opened FileNames
  import opened Recovery
  import opened Machine
  import opened LiveRefinement

  ghost predicate IsWritten(contents: Bytes) {
    exists m: Table :: Fits(m) && contents == TableBytes(m)
  }

  ghost predicate AllWritten(files: Files) {
    forall name :: name in files && ParseSSTableNumber(name).Number? ==> IsWritten(files[name])
  }

  /** Files under other names may change, and any may disappear. */
  lemma OthersChange(before: Files, after: Files)
    requires AllWritten(before)
    requires forall name :: name in after && ParseSSTableNumber(name).Number? ==>
               name in before && after[name] == before[name]
    ensures AllWritten(after)
  {
    hide IsWritten, ParseSSTableNumber;
  }

  lemma OneWritten(before: Files, tmp: string, path: string, m: Table)
    requires AllWritten(before) && Fits(m) && tmp in before && before[tmp] == TableBytes(m)
    ensures AllWritten(RenameTo(before, tmp, path))
  {
    hide ParseSSTableNumber, TableBytes, Fits;
  }

  lemma RenamesWrite(s: State, l: Label)
    requires s.Up? && LiveInv(s) && AllWritten(s.files) && Step(s, l).Some?
    requires l.FlushRename? || l.CompactRename?
    ensures AllWritten(Step(s, l).value.files)
  {
    hide Step, SSTableFilename, TmpName, TableBytes, Fits, RenameTo, AllWritten, Compacted;
    if l.FlushRename? {
      FlushRenameEffect(s);
      TableBytesFirst(s.mem);
      OneWritten(s.files, TmpName(s.next), SSTableFilename(s.next), s.mem);
    } else {
      CompactRenameEffect(s);
      var c, n := Compacted(Tables(s.compactor.snapshot)), s.compactor.number;
      TableBytesFirst(c);
      OneWritten(s.files, TmpName(n), SSTableFilename(n), c);
    }
  }

  lemma WriterChange(s: State, l: Label)
    requires s.Up? && LiveInv(s) && AllWritten(s.files) && Step(s, l).Some?
    requires IsWriterLabel(l) && !l.FlushRename?
    ensures AllWritten(Step(s, l).value.files)
  {
    hide WriterStep, CompactorStep, SSTableFilename, TmpName, ParseSSTableNumber, IsWritten, WriterInv,
         CompactorInv;
    NamesDiffer(s.next, s.next);
    if l.FlushOpen? {
      FlushOpenEffect(s);
    } else {
      UnlistedFilesEffect(s, l);
    }
    OthersChange(s.files, Step(s, l).value.files);
  }

  lemma CompactorChange(s: State, l: Label)
    requires s.Up? && LiveInv(s) && AllWritten(s.files) && Step(s, l).Some?
    requires !IsWriterLabel(l) && !l.CompactRename?
    ensures AllWritten(Step(s, l).value.files)
  {
    hide Step, SSTableFilename, TmpName, ParseSSTableNumber, IsWritten, WriterInv, TableAt, CompactedBytes,
         RenameTo, Compacted, Fits, TableBytes, Tables;
    match l {
      case CompactCreate =>
        CompactionTmpEffect(s, l);
        NamesDiffer(s.compactor.number, s.compactor.number);
      case CompactByte =>
        CompactionTmpEffect(s, l);
        NamesDiffer(s.compactor.number, s.compactor.number);
      case Swap => SwapEffect(s);
      case RemoveOldest => RemoveOldestEffect(s);
      case Kill => KillEffect(s);
      case _ =>
        if l.CleanTmp? || l.CreateLog? || l.TruncateLog? || l.Open? {
          NotWhileUp(s, l);
        } else {
          CompactionMemoryEffect(s, l);
        }
    }
    OthersChange(s.files, Step(s, l).value.files);
  }

  lemma RecoveryChange(files: Files, l: Label)
    requires AllWritten(files) && Step(Down(files), l).Some?
    ensures AllWritten(Step(Down(files), l).value.files)
  {
    hide ParseSSTableNumber, IsWritten, RecoverTables, Records, ValidEnd, FoldRecords;
    TmpOnly(0);
    OthersChange(files, Step(Down(files), l).value.files);
  }

  lemma WrittenStep(s: State, l: Label)
    requires LiveInv(s) && AllWritten(s.files) && Step(s, l).Some?
    ensures AllWritten(Step(s, l).value.files)
  {
    hide Step, LiveInv, AllWritten;
    if s.Down? {
      RecoveryChange(s.files, l);
    } else if l.FlushRename? || l.CompactRename? {
      RenamesWrite(s, l);
    } else if IsWriterLabel(l) {
      WriterChange(s, l);
    } else {
      CompactorChange(s, l);
    }
  }

  /** In every reachable state, whatever the interleaving and wherever it was killed. */
  lemma {:induction false} OnlyWrittenTables(files: Files, ls: seq<Label>)
    requires AllWritten(files) && Exec(Down(files), ls).Some?
    ensures AllWritten(Exec(Down(files), ls).value.files)
  {
    hide Step, LiveInv, AllWritten;
    if ls != [] {
      var before := ls[..|ls| - 1];
      OnlyWrittenTables(files, before);
      LiveReachable(files, before);
      WrittenStep(Exec(Down(files), before).value, ls[|ls| - 1]);
    }
  }
}
