/** What the constructor of the database finds in a directory (`src/database.cpp`). */
module Recovery {
  import opened ByteUtil
  import opened Results
  import opened Wal
  import opened FileSystem
  import opened Entries
  import opened Layers
  import opened SSTable
  import opened FileNames

  /** An open SSTable: its generation number and what it holds. */
  datatype File = File(number: nat, table: Table)

  function Tables(fs: seq<File>): (ts: seq<Table>)
    ensures |ts| == |fs|
    ensures forall i :: 0 <= i < |fs| ==> ts[i] == fs[i].table
  {
    seq(|fs|, i requires 0 <= i < |fs| => fs[i].table)
  }

  lemma TablesConcat(a: seq<File>, b: seq<File>)
    ensures Tables(a + b) == Tables(a) + Tables(b)
  {
  }

  // ----- listing and sorting -----

  predicate Increasing(ns: seq<nat>) {
    forall i, j :: 0 <= i < j < |ns| ==> ns[i] < ns[j]
  }

  predicate IsLeast(m: nat, s: set<nat>) {
    m in s && forall x :: x in s ==> m <= x
  }

  function Smallest(s: set<nat>): (m: nat)
    requires s != {}
    ensures m in s && forall x :: x in s ==> m <= x
  {
    SmallestExists(s);
    var m :| m in s && IsLeast(m, s);
    m
  }

  lemma SmallestExists(s: set<nat>)
    requires s != {}
    ensures exists m :: IsLeast(m, s)
  {
    var y :| y in s;
    var rest := s - {y};
    if rest == {} {
      assert s == {y};
      assert IsLeast(y, s);
    } else {
      SmallestExists(rest);
      var m :| IsLeast(m, rest);
      assert s == rest + {y};
      assert IsLeast(if m < y then m else y, s);
    }
  }

  /** The numbers in ascending order. */
  function Sort(s: set<nat>): (ns: seq<nat>)
    ensures Increasing(ns) && forall x :: x in ns <==> x in s
    decreases |s|
  {
    if s == {} then [] else [Smallest(s)] + Sort(s - {Smallest(s)})
  }

  lemma FirstIsSmallest(s: set<nat>, ns: seq<nat>)
    requires Increasing(ns) && ns != [] && forall x :: x in ns <==> x in s
    ensures s != {} && Smallest(s) == ns[0]
    ensures Increasing(ns[1..]) && forall x :: x in ns[1..] <==> x in s - {ns[0]}
  {
    assert ns[0] in ns && ns[0] in s;
    var m := Smallest(s);
    assert m in ns;
    forall x | x in ns[1..]
      ensures x in s - {ns[0]}
    {
      var i :| 0 <= i < |ns[1..]| && ns[1..][i] == x;
      assert ns[i + 1] == x;
    }
  }

  lemma {:induction false} SortUnique(s: set<nat>, ns: seq<nat>)
    requires Increasing(ns) && forall x :: x in ns <==> x in s
    ensures Sort(s) == ns
    decreases |ns|
  {
    hide Increasing, Smallest;
    if ns == [] {
      assert s == {};
    } else {
      FirstIsSmallest(s, ns);
      SortUnique(s - {ns[0]}, ns[1..]);
      assert ns == [ns[0]] + ns[1..];
    }
  }

  // ----- reopening -----

  function SSTableNumbers(files: Files): set<nat> {
    set name | name in files && ParseSSTableNumber(name).Number? :: ParseSSTableNumber(name).number
  }

  function OpenAll(files: Files, ns: seq<nat>): Result<seq<File>> {
    if ns == [] then Success([])
    else if SSTableFilename(ns[0]) !in files then Failure(NoSuchFile)
    else
      match OpenedTable(files[SSTableFilename(ns[0])])
      case Failure(e) => Failure(e)
      case Success(t) =>
        match OpenAll(files, ns[1..])
        case Failure(e) => Failure(e)
        case Success(rest) => Success([File(ns[0], t)] + rest)
  }

  /** Lists the directory, sorts by number and opens each table, oldest first. A failure is an
      exception of the constructor. */
  function RecoverTables(files: Files): Result<seq<File>> {
    if exists name :: name in files && ParseSSTableNumber(name).OutOfRange? then Failure(NumberOutOfRange)
    else OpenAll(files, Sort(SSTableNumbers(files)))
  }

  function NextNumber(fs: seq<File>): nat {
    if fs == [] then 1 else fs[|fs| - 1].number + 1
  }

  function LogBytes(files: Files): Bytes {
    if WAL_NAME in files then files[WAL_NAME] else []
  }

  /** The contents a reopened store has. */
  function RecoveredView(files: Files): Result<Contents> {
    match RecoverTables(files)
    case Failure(e) => Failure(e)
    case Success(fs) => Success(View(Tables(fs), FoldRecords(Records(LogBytes(files)))))
  }

  // ----- directories whose tables are known -----

  ghost predicate InNumberOrder(fs: seq<File>) {
    forall i, j :: 0 <= i < j < |fs| ==> fs[i].number < fs[j].number
  }

  ghost predicate HasNumber(fs: seq<File>, n: nat) {
    exists i :: 0 <= i < |fs| && fs[i].number == n
  }

  /** The SSTables of the directory are exactly `fs`. */
  ghost predicate FilesAre(files: Files, fs: seq<File>) {
    && (forall i :: 0 <= i < |fs| ==>
          fs[i].number < TWO_64 && SSTableFilename(fs[i].number) in files
          && OpenedTable(files[SSTableFilename(fs[i].number)]) == Success(fs[i].table))
    && (forall name :: name in files ==> NameExpected(name, fs))
  }

  ghost predicate NameExpected(name: string, fs: seq<File>) {
    match ParseSSTableNumber(name)
    case NotAnSSTable => true
    case OutOfRange => false
    case Number(n) => name == SSTableFilename(n) && HasNumber(fs, n)
  }

  function Numbers(fs: seq<File>): (ns: seq<nat>)
    ensures |ns| == |fs|
    ensures forall i :: 0 <= i < |fs| ==> ns[i] == fs[i].number
  {
    seq(|fs|, i requires 0 <= i < |fs| => fs[i].number)
  }

  lemma {:induction false} OpenAllFiles(files: Files, fs: seq<File>)
    requires forall i :: 0 <= i < |fs| ==>
               SSTableFilename(fs[i].number) in files
               && OpenedTable(files[SSTableFilename(fs[i].number)]) == Success(fs[i].table)
    ensures OpenAll(files, Numbers(fs)) == Success(fs)
  {
    hide SSTableFilename, OpenedTable;
    if fs != [] {
      OpenAllFiles(files, fs[1..]);
      assert Numbers(fs)[1..] == Numbers(fs[1..]);
      assert fs == [File(fs[0].number, fs[0].table)] + fs[1..];
    }
  }

  lemma {:induction false} OpenAllNumbers(files: Files, ns: seq<nat>)
    requires OpenAll(files, ns).Success?
    ensures Numbers(OpenAll(files, ns).value) == ns
  {
    hide SSTableFilename, OpenedTable;
    if ns != [] {
      OpenAllNumbers(files, ns[1..]);
      var fs := OpenAll(files, ns).value;
      assert Numbers(fs) == [ns[0]] + Numbers(OpenAll(files, ns[1..]).value);
      assert ns == [ns[0]] + ns[1..];
    }
  }

  function OpenNumber(files: Files, n: nat): Result<Table> {
    if SSTableFilename(n) in files then OpenedTable(files[SSTableFilename(n)]) else Failure(NoSuchFile)
  }

  /** All tables are opened, each under its own name, or the first that cannot be is the failure. */
  lemma {:induction false} OpensInOrder(files: Files, ns: seq<nat>)
    ensures OpenAll(files, ns).Success? <==> forall i :: 0 <= i < |ns| ==> OpenNumber(files, ns[i]).Success?
    ensures OpenAll(files, ns).Success? ==>
              var fs := OpenAll(files, ns).value;
              && |fs| == |ns|
              && forall i :: 0 <= i < |ns| ==> fs[i].number == ns[i] && OpenNumber(files, ns[i]) == Success(fs[i].table)
    ensures forall e :: OpenAll(files, ns) == Failure(e)
              ==> exists i :: 0 <= i < |ns| && OpenNumber(files, ns[i]) == Failure(e)
                              && forall j :: 0 <= j < i ==> OpenNumber(files, ns[j]).Success?
  {
    hide SSTableFilename, OpenedTable;
    if ns != [] {
      OpensInOrder(files, ns[1..]);
      assert forall i :: 0 <= i < |ns[1..]| ==> ns[1..][i] == ns[i + 1];
      if OpenNumber(files, ns[0]).Success? {
        if OpenAll(files, ns[1..]).Failure? {
          var e := OpenAll(files, ns[1..]).error;
          var i :| 0 <= i < |ns[1..]| && OpenNumber(files, ns[1..][i]) == Failure(e)
                   && forall j :: 0 <= j < i ==> OpenNumber(files, ns[1..][j]).Success?;
          forall j | 0 <= j < i + 1
            ensures OpenNumber(files, ns[j]).Success?
          {
            assert j > 0 ==> ns[j] == ns[1..][j - 1];
          }
          assert OpenNumber(files, ns[i + 1]) == Failure(e);
        }
      } else {
        assert OpenNumber(files, ns[0]) == Failure(OpenAll(files, ns).error);
      }
    }
  }

  /** Whatever recovery opens is ascending and below the next number. */
  lemma RecoveredAscending(files: Files)
    requires RecoverTables(files).Success?
    ensures var fs := RecoverTables(files).value;
            InNumberOrder(fs) && forall i :: 0 <= i < |fs| ==> fs[i].number < NextNumber(fs)
  {
    hide OpenAll, Sort, ParseSSTableNumber;
    OpenAllNumbers(files, Sort(SSTableNumbers(files)));
    var fs := RecoverTables(files).value;
    assert Increasing(Numbers(fs));
    assert forall i :: 0 <= i < |fs| ==> Numbers(fs)[i] == fs[i].number;
  }

  /** A new store numbers its tables from 1, a reopened one from the largest number it finds. */
  lemma NextNumberIs(files: Files)
    requires RecoverTables(files).Success?
    ensures var next, numbers := NextNumber(RecoverTables(files).value), SSTableNumbers(files);
            && (numbers == {} ==> next == 1)
            && (numbers != {} ==> next - 1 in numbers && forall n :: n in numbers ==> n < next)
  {
    hide OpenAll, ParseSSTableNumber;
    var fs, ns := RecoverTables(files).value, Sort(SSTableNumbers(files));
    OpenAllNumbers(files, ns);
    RecoveredAscending(files);
    if ns == [] {
      assert forall x :: x in SSTableNumbers(files) ==> x in ns;
      assert SSTableNumbers(files) == {};
    } else {
      assert ns[|ns| - 1] in SSTableNumbers(files);
      forall n | n in SSTableNumbers(files)
        ensures n < NextNumber(fs)
      {
        assert n in ns;
        var i :| 0 <= i < |ns| && ns[i] == n;
        assert fs[i].number == n;
      }
    }
  }

  /** Recovery rebuilds exactly the ascending list of the files that are there. */
  lemma RecoverExpected(files: Files, fs: seq<File>)
    requires FilesAre(files, fs) && InNumberOrder(fs)
    ensures RecoverTables(files) == Success(fs)
  {
    hide SSTableFilename, OpenedTable, ParseSSTableNumber, OpenAll, Sort;
    var ns, s := Numbers(fs), SSTableNumbers(files);
    forall x
      ensures x in ns <==> x in s
    {
      if x in ns {
        var i :| 0 <= i < |ns| && ns[i] == x;
        ParseFilename(fs[i].number);
      }
      if x in s {
        var name :| name in files && ParseSSTableNumber(name).Number? && ParseSSTableNumber(name).number == x;
        assert NameExpected(name, fs);
        var i :| 0 <= i < |fs| && fs[i].number == x;
        assert ns[i] == x;
      }
    }
    SortUnique(s, ns);
    OpenAllFiles(files, fs);
    assert forall name :: name in files ==> NameExpected(name, fs);
  }

  // ----- steps on such directories -----

  /** Names that are not tables may change freely. */
  lemma WriteOther(files: Files, fs: seq<File>, name: string, contents: Bytes)
    requires FilesAre(files, fs) && ParseSSTableNumber(name) == NotAnSSTable
    ensures FilesAre(files[name := contents], fs)
  {
    hide SSTableFilename, OpenedTable, ParseSSTableNumber;
    forall i | 0 <= i < |fs|
      ensures SSTableFilename(fs[i].number) != name
    {
      ParseFilename(fs[i].number);
    }
  }

  lemma RemoveOther(files: Files, fs: seq<File>, name: string)
    requires FilesAre(files, fs) && ParseSSTableNumber(name) == NotAnSSTable
    ensures FilesAre(files - {name}, fs)
  {
    hide SSTableFilename, OpenedTable, ParseSSTableNumber;
    forall i | 0 <= i < |fs|
      ensures SSTableFilename(fs[i].number) != name
    {
      ParseFilename(fs[i].number);
    }
  }

  /** A new table appears under a number that no other file has. */
  lemma AddFile(files: Files, before: seq<File>, after: seq<File>, f: File, contents: Bytes)
    requires FilesAre(files, before + after)
    requires f.number < TWO_64 && OpenedTable(contents) == Success(f.table)
    requires !HasNumber(before + after, f.number)
    ensures FilesAre(files[SSTableFilename(f.number) := contents], before + [f] + after)
  {
    hide SSTableFilename, OpenedTable, ParseSSTableNumber;
    var fs, gs := before + after, before + [f] + after;
    var name := SSTableFilename(f.number);
    ParseFilename(f.number);
    forall i | 0 <= i < |gs|
      ensures var n := SSTableFilename(gs[i].number);
              gs[i].number < TWO_64 && n in files[name := contents]
              && OpenedTable(files[name := contents][n]) == Success(gs[i].table)
    {
      if i != |before| {
        var j := if i < |before| then i else i - 1;
        assert gs[i] == fs[j];
        assert fs[j].number != f.number;
        FilenameInjective(fs[j].number, f.number);
      }
    }
    forall other | other in files[name := contents]
      ensures NameExpected(other, gs)
    {
      if other == name {
        assert gs[|before|].number == f.number;
      } else {
        assert NameExpected(other, fs);
        if ParseSSTableNumber(other).Number? {
          var i :| 0 <= i < |fs| && fs[i].number == ParseSSTableNumber(other).number;
          assert gs[if i < |before| then i else i + 1].number == ParseSSTableNumber(other).number;
        }
      }
    }
  }

  /** The list without the file of number `n`. */
  function Without(fs: seq<File>, n: nat): seq<File> {
    if fs == [] then [] else if fs[0].number == n then fs[1..] else [fs[0]] + Without(fs[1..], n)
  }

  lemma {:induction false} WithoutAt(fs: seq<File>, i: nat)
    requires i < |fs| && forall j :: 0 <= j < i ==> fs[j].number != fs[i].number
    ensures Without(fs, fs[i].number) == fs[..i] + fs[i + 1..]
  {
    if i > 0 {
      WithoutAt(fs[1..], i - 1);
      assert fs[..i] == [fs[0]] + fs[1..][..i - 1];
    }
  }

  lemma {:induction false} WithoutNone(fs: seq<File>, n: nat)
    requires !HasNumber(fs, n)
    ensures Without(fs, n) == fs
  {
    if fs != [] {
      assert fs[0].number != n;
      assert forall i :: 0 <= i < |fs[1..]| ==> fs[1..][i] == fs[i + 1];
      WithoutNone(fs[1..], n);
    }
  }

  /** Deleting a table, if it is there. */
  lemma RemoveFile(files: Files, fs: seq<File>, n: nat)
    requires FilesAre(files, fs) && InNumberOrder(fs) && n < TWO_64
    ensures FilesAre(files - {SSTableFilename(n)}, Without(fs, n)) && InNumberOrder(Without(fs, n))
  {
    hide SSTableFilename, OpenedTable, ParseSSTableNumber, FilesAre;
    if HasNumber(fs, n) {
      var i :| 0 <= i < |fs| && fs[i].number == n;
      WithoutAt(fs, i);
      RemoveAt(files, fs, i);
    } else {
      WithoutNone(fs, n);
      AbsentFile(files, fs, n);
      assert files - {SSTableFilename(n)} == files;
    }
  }

  lemma AbsentFile(files: Files, fs: seq<File>, n: nat)
    requires FilesAre(files, fs) && n < TWO_64 && !HasNumber(fs, n)
    ensures SSTableFilename(n) !in files
  {
    hide SSTableFilename, OpenedTable, ParseSSTableNumber;
    ParseFilename(n);
    assert SSTableFilename(n) in files ==> NameExpected(SSTableFilename(n), fs);
  }

  lemma RemoveAt(files: Files, fs: seq<File>, i: nat)
    requires FilesAre(files, fs) && InNumberOrder(fs) && i < |fs|
    ensures FilesAre(files - {SSTableFilename(fs[i].number)}, fs[..i] + fs[i + 1..])
    ensures InNumberOrder(fs[..i] + fs[i + 1..])
  {
    hide SSTableFilename, OpenedTable, ParseSSTableNumber;
    var name, gs := SSTableFilename(fs[i].number), fs[..i] + fs[i + 1..];
    ParseFilename(fs[i].number);
    forall k | 0 <= k < |gs|
      ensures gs[k] == fs[if k < i then k else k + 1] && SSTableFilename(gs[k].number) != name
    {
      FilenameInjective(gs[k].number, fs[i].number);
    }
    forall other | other in files - {name}
      ensures NameExpected(other, gs)
    {
      assert NameExpected(other, fs);
      if ParseSSTableNumber(other).Number? {
        var k :| 0 <= k < |fs| && fs[k].number == ParseSSTableNumber(other).number;
        assert k != i;
        assert gs[if k < i then k else k - 1].number == fs[k].number;
      }
    }
  }
}
