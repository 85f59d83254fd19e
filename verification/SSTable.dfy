/** Writing SSTables, reading them and merging them (`src/sstable.cpp`). */
module SSTable {
  import opened ByteUtil
  import opened Results
  import opened WalRecord
  import opened Wal
  import opened FileSystem
  import opened SortedMap
  import opened Entries
  import opened Layers
  import opened SSTableFormat

  function TmpPath(path: string): string {
    path + ".tmp"
  }

  // ----- writing -----

  lemma EncodeIgnoresDeletedValue(kind: RecordType, key: Bytes, value: Bytes)
    ensures Encode(kind, key, value) == Encode(kind, key, StoredValue(kind, value))
  {
    assert Body(kind, key, value) == Body(kind, key, StoredValue(kind, value));
  }

  lemma EncodeAllPush(rs: seq<Record>, i: nat)
    requires i < |rs|
    ensures EncodeAll(rs[..i + 1]) == EncodeAll(rs[..i]) + EncodeRecordValue(rs[i])
  {
    hide EncodeRecordValue;
    assert rs[..i + 1] == rs[..i] + [rs[i]];
    EncodeAllConcat(rs[..i], [rs[i]]);
    assert EncodeAll([rs[i]]) == EncodeRecordValue(rs[i]) + EncodeAll([]) by {
      assert [rs[i]][1..] == [];
    }
  }

  lemma IndexPush(rs: seq<Record>, i: nat)
    requires i < |rs|
    ensures IndexOf(rs[..i + 1]) == if i % SPARSE_INDEX_INTERVAL == 0
                                    then IndexOf(rs[..i]) + [IndexEntry(rs[i].key, |EncodeAll(rs[..i])|)]
                                    else IndexOf(rs[..i])
  {
    hide EncodeAll;
    var a, b := IndexOf(rs[..i]), IndexOf(rs[..i + 1]);
    forall j | 0 <= j < |b|
      ensures b[j] == if j < |a| then a[j] else IndexEntry(rs[i].key, |EncodeAll(rs[..i])|)
    {
      assert rs[..i + 1][..16 * j] == rs[..16 * j];
      if j < |a| {
        assert rs[..i][..16 * j] == rs[..16 * j];
      }
    }
  }

  /** The two loops of the writer: data section with its sparse index, then the index bytes. */
  method BuildSections(entries: Table) returns (data: Bytes, indexBytes: Bytes)
    ensures data == DataSection(entries) && indexBytes == IndexSection(entries)
  {
    hide EncodeAll, EncodeRecordValue, Listing;
    var listing := Listing(entries);
    ghost var rs := RecordsOf(listing);
    data := [];
    var sparseIndex: seq<IndexEntry> := [];
    assert EncodeAll(rs[..0]) == [] by { EmptySection(); }
    for position := 0 to |listing|
      invariant data == EncodeAll(rs[..position])
      invariant sparseIndex == IndexOf(rs[..position])
    {
      var (key, entry) := listing[position];
      if position % SPARSE_INDEX_INTERVAL == 0 {
        sparseIndex := sparseIndex + [IndexEntry(key, |data|)];
      }
      var kind := if entry.isTombstone then Delete else Put;
      var record := EncodeRecord(kind, key, entry.value);
      data := data + record;
      IndexPush(rs, position);
      EncodeAllPush(rs, position);
      SameRecord(key, entry);
    }
    assert rs[..|listing|] == rs;
    indexBytes := EncodeIndexBytes(sparseIndex);
  }

  lemma EmptySection()
    ensures EncodeAll([]) == []
  {
  }

  lemma SameRecord(key: Field, entry: Entry)
    ensures Encode(if entry.isTombstone then Delete else Put, key, entry.value)
         == EncodeRecordValue(RecordOf((key, entry)))
  {
    EncodeIgnoresDeletedValue(if entry.isTombstone then Delete else Put, key, entry.value);
  }

  method EncodeIndexBytes(sparseIndex: seq<IndexEntry>) returns (indexBytes: Bytes)
    ensures indexBytes == EncodeIndex(sparseIndex)
  {
    hide LittleEndian;
    indexBytes := [];
    for i := 0 to |sparseIndex|
      invariant indexBytes + EncodeIndex(sparseIndex[i..]) == EncodeIndex(sparseIndex)
    {
      var e := sparseIndex[i];
      var entry := PutUint32LE([], |e.key|);
      entry := entry + e.key;
      entry := PutUint64LE(entry, e.offset);
      assert entry == EncodeIndexEntry(e);
      indexBytes := indexBytes + entry;
      assert sparseIndex[i..][1..] == sparseIndex[i + 1..];
      assert EncodeIndex(sparseIndex[i..]) == EncodeIndexEntry(e) + EncodeIndex(sparseIndex[i + 1..]);
    }
  }

  /** Every state the directory passes through while a table is written at `path`. */
  function WriteStates(files: Files, path: string, contents: Bytes): seq<Files> {
    var created := files[TmpPath(path) := []];
    [created] + AppendStates(created, TmpPath(path), contents)
    + [(created - {TmpPath(path)})[path := contents]]
  }

  method BuildTable(entries: Table) returns (data: Bytes, indexBytes: Bytes, footer: Bytes)
    ensures data + indexBytes + footer == TableBytes(entries)
  {
    hide EncodeAll, LittleEndian, Listing, EncodeIndex, RecordsOf, IndexOf;
    data, indexBytes := BuildSections(entries);
    footer := PutUint64LE([], |data|);
    footer := PutUint64LE(footer, |indexBytes|);
    footer := PutUint32LE(footer, |Listing(entries)|);
    footer := PutUint32LE(footer, MAGIC);
    assert footer == FooterOf(entries) by {
      assert [] + LittleEndian(|data|, 8) == LittleEndian(|data|, 8);
    }
  }

  /** The whole file goes to a temporary name first; the rename alone makes it visible. */
  method WriteSSTable(directory: Directory, path: string, entries: Table)
    modifies directory
    ensures directory.files == (old(directory.files) - {TmpPath(path)})[path := TableBytes(entries)]
    ensures directory.trail == old(directory.trail) + WriteStates(old(directory.files), path, TableBytes(entries))
  {
    hide TableBytes, AppendStates;
    var tmp := TmpPath(path);
    ghost var initial, trail := directory.files, directory.trail;
    var data, indexBytes, footer := BuildTable(entries);
    directory.Create(tmp);
    ghost var created := directory.files;
    directory.WriteAll(tmp, data);
    directory.WriteAll(tmp, indexBytes);
    directory.WriteAll(tmp, footer);
    AppendThree(created, tmp, data, indexBytes, footer);
    ghost var states := AppendStates(created, tmp, TableBytes(entries));
    assert directory.trail == trail + [created] + states;
    directory.Rename(tmp, path);
    assert [] + TableBytes(entries) == TableBytes(entries);
    assert created - {tmp} == initial - {tmp};
    assert trail + [created] + states + [directory.files] == trail + ([created] + states + [directory.files]);
  }

  lemma AppendThree(files: Files, name: string, a: Bytes, b: Bytes, c: Bytes)
    requires name in files
    ensures var one := files[name := files[name] + a];
            var two := one[name := one[name] + b];
            var three := two[name := two[name] + c];
            && AppendStates(files, name, a) + AppendStates(one, name, b) + AppendStates(two, name, c)
               == AppendStates(files, name, a + b + c)
            && three == files[name := files[name] + (a + b + c)]
  {
    AppendStatesConcat(files, name, a, b);
    AppendStatesConcat(files, name, a + b, c);
  }

  // ----- reading -----

  /** First position whose key is greater than `key` (`std::upper_bound`). */
  method UpperBound(index: seq<IndexEntry>, key: Field) returns (i: nat)
    requires forall p, q :: 0 <= p < q < |index| ==> Less(index[p].key, index[q].key)
    ensures i <= |index|
    ensures forall j :: 0 <= j < i ==> !Less(key, index[j].key)
    ensures forall j :: i <= j < |index| ==> Less(key, index[j].key)
  {
    i := 0;
    var high := |index|;
    while i < high
      invariant i <= high <= |index|
      invariant forall j :: 0 <= j < i ==> !Less(key, index[j].key)
      invariant forall j :: high <= j < |index| ==> Less(key, index[j].key)
    {
      var mid := (i + high) / 2;
      if Less(key, index[mid].key) {
        forall j | mid <= j < |index|
          ensures Less(key, index[j].key)
        {
          if j > mid {
            LessTransitive(key, index[mid].key, index[j].key);
          }
        }
        high := mid;
      } else {
        forall j | 0 <= j <= mid
          ensures !Less(key, index[j].key)
        {
          if j < mid && Less(key, index[j].key) {
            LessTransitive(key, index[j].key, index[mid].key);
          }
        }
        i := mid + 1;
      }
    }
  }

  /** The bytes between two record boundaries are the records between them. */
  lemma Section(rs: seq<Record>, p: nat, q: nat)
    requires p <= q <= |rs|
    ensures var start, bound := |EncodeAll(rs[..p])|, |EncodeAll(rs[..q])|;
            start <= bound <= |EncodeAll(rs)| && EncodeAll(rs)[start..bound] == EncodeAll(rs[p..q])
  {
    hide EncodeAll;
    OffsetWithin(rs, p, q);
  }

  /** Decoding at a record boundary. */
  lemma NextRecord(rs: seq<Record>, p: nat, q: nat)
    requires p < q <= |rs| && Canonical(rs[p]) == rs[p]
    ensures var block := EncodeAll(rs[p..q]);
            && block != []
            && Decode(block) == Ok(rs[p], |EncodeRecordValue(rs[p])|)
            && block[|EncodeRecordValue(rs[p])|..] == EncodeAll(rs[p + 1..q])
  {
    hide Decode, EncodeRecordValue;
    assert rs[p..q][1..] == rs[p + 1..q];
    DecodeRecordValue(rs[p], EncodeAll(rs[p + 1..q]));
  }

  /** Every index entry carries the key of the (16 j)-th record and the offset at which exactly
      that record decodes. */
  lemma IndexPointsAtRecords(m: Table, j: nat)
    requires j < |IndexOf(RecordsOf(Listing(m)))|
    ensures var rs := RecordsOf(Listing(m));
            var e := IndexOf(rs)[j];
            && 16 * j < |rs| && e.key == rs[16 * j].key && e.offset <= |DataSection(m)|
            && Decode(DataSection(m)[e.offset..]) == Ok(rs[16 * j], |EncodeRecordValue(rs[16 * j])|)
  {
    hide Decode, EncodeAll, EncodeRecordValue, Listing, RecordsOf, Less;
    var rs := RecordsOf(Listing(m));
    RecordsOfTable(m);
    Section(rs, 16 * j, |rs|);
    assert rs[..|rs|] == rs;
    NextRecord(rs, 16 * j, |rs|);
    var data, e := DataSection(m), IndexOf(rs)[j];
    assert e == IndexEntryAt(rs, j);
    assert data[e.offset..|data|] == data[e.offset..];
  }

  lemma EmptyBlock(rs: seq<Record>, p: nat)
    requires p <= |rs|
    ensures EncodeAll(rs[p..p]) == []
  {
  }

  /** An open table: its data section and sparse index, both held in memory. */
  class SSTableReader {
    const path: string
    const data: Bytes
    const index: seq<IndexEntry>

    constructor (path: string, data: Bytes, index: seq<IndexEntry>)
      ensures this.path == path && this.data == data && this.index == index
    {
      this.path, this.data, this.index := path, data, index;
    }

    ghost function Recs(): seq<Record> {
      Records(data)
    }

    /** The table this file was written from, as it reads back. */
    ghost function Contents(): Table {
      TableOf(Recs())
    }

    /** The file is one that the writer produced. */
    ghost predicate Valid() {
      Sorted(Recs()) && data == EncodeAll(Recs()) && index == IndexOf(Recs())
    }

    lemma IndexAscending()
      requires Valid()
      ensures forall p, q :: 0 <= p < q < |index| ==> Less(index[p].key, index[q].key)
    {
      hide Records, EncodeAll;
      assert forall j :: 0 <= j < |index| ==> index[j] == IndexEntryAt(Recs(), j);
    }

    /** The point look-up; it never meets a corrupt block and decodes at most sixteen records. */
    method Find(key: Field) returns (found: Result<Option<Entry>>, ghost decodes: nat)
      requires Valid()
      ensures found == Success(if key in Contents() then Some(Contents()[key]) else None)
      ensures decodes <= 16
    {
      hide Decode, Records, EncodeAll, EncodeRecordValue, ToMap, Less;
      ghost var rs := Recs();
      decodes := 0;
      if index == [] {
        assert rs == [];
        Absent(rs, key);
        return Success(None), decodes;
      }
      IndexAscending();
      var next := UpperBound(index, key);
      if next == 0 {
        assert index[0] == IndexEntryAt(rs, 0);
        BeforeFirst(rs, key);
        return Success(None), decodes;
      }
      ghost var first := 16 * (next - 1);
      ghost var last := if next < |index| then 16 * next else |rs|;
      assert index[next - 1] == IndexEntryAt(rs, next - 1);
      assert next < |index| ==> index[next] == IndexEntryAt(rs, next);
      var startOffset := index[next - 1].offset;
      var boundOffset := if next < |index| then index[next].offset else |data|;
      assert boundOffset == |EncodeAll(rs[..last])| by {
        assert rs[..|rs|] == rs;
      }
      Section(rs, first, last);
      var block := data[startOffset..boundOffset];
      BlockStart(rs, key, first);
      ghost var p := first;
      while block != []
        invariant first <= p <= last && last - first <= 16 && decodes == p - first
        invariant block == EncodeAll(rs[p..last])
        invariant forall i :: 0 <= i < p ==> rs[i].key != key
        decreases |block|
      {
        if p == last {
          EmptyBlock(rs, p);
          assert false;
        }
        NextRecord(rs, p, last);
        var result := DecodeRecord(block);
        decodes := decodes + 1;
        if !result.Ok? {
          return Failure(CorruptBlock), decodes;
        }
        var record := result.record;
        if record.key == key {
          LookUp(rs, p);
          return Success(Some(Entry(record.value, record.kind.Delete?))), decodes;
        }
        if Less(key, record.key) {
          AbsentBefore(rs, key, p);
          return Success(None), decodes;
        }
        block := block[result.bytesConsumed..];
        p := p + 1;
      }
      if p < last {
        NextRecord(rs, p, last);
        assert false;
      }
      if last < |rs| {
        AbsentBefore(rs, key, last);
      } else {
        Absent(rs, key);
      }
      return Success(None), decodes;
    }

    /** Every entry with start <= key < end in ascending order, although reading starts in the
        middle of the file. */
    method ScanRaw(start: Field, end: Field) returns (results: Result<seq<(Field, Entry)>>)
      requires Valid()
      ensures results == Success(Listing(RangeOf(Contents(), start, end)))
    {
      hide Decode, Records, EncodeAll, EncodeRecordValue, ToMap, Less, Listing;
      ghost var rs := Recs();
      var pairs: seq<(Field, Entry)> := [];
      if index == [] {
        assert rs == [];
        EmptyTable(rs);
        ListsUnique([], Listing(RangeOf(Contents(), start, end)), RangeOf(Contents(), start, end));
        return Success(pairs);
      }
      IndexAscending();
      var next := UpperBound(index, start);
      ghost var first := if next == 0 then 0 else 16 * (next - 1);
      assert next > 0 ==> index[next - 1] == IndexEntryAt(rs, next - 1);
      var startOffset := if next == 0 then 0 else index[next - 1].offset;
      assert startOffset == |EncodeAll(rs[..first])| by {
        assert rs[..0] == [];
        EmptySection();
      }
      Section(rs, first, |rs|);
      assert rs[..|rs|] == rs;
      var block := data[startOffset..];
      assert data[startOffset..|data|] == block;
      if next > 0 {
        BlockStart(rs, start, first);
      }
      ghost var p := first;
      RangeStartsEmpty(rs, start, end, first);
      while block != []
        invariant first <= p <= |rs|
        invariant block == EncodeAll(rs[p..|rs|])
        invariant Lists(pairs, RangeOf(TableOf(rs[..p]), start, end))
        decreases |block|
      {
        if p == |rs| {
          EmptyBlock(rs, p);
          assert false;
        }
        NextRecord(rs, p, |rs|);
        var result := DecodeRecord(block);
        if !result.Ok? {
          return Failure(CorruptBlock);
        }
        var record := result.record;
        if !Less(record.key, end) {
          RangeEnds(rs, start, end, p);
          break;
        }
        RangeStep(rs, pairs, start, end, p);
        if !Less(record.key, start) {
          pairs := pairs + [(record.key, Entry(record.value, record.kind.Delete?))];
        }
        block := block[result.bytesConsumed..];
        p := p + 1;
      }
      if block == [] && p < |rs| {
        NextRecord(rs, p, |rs|);
        assert false;
      }
      assert RangeOf(TableOf(rs[..p]), start, end) == RangeOf(Contents(), start, end) by {
        if p == |rs| {
          assert rs[..p] == rs;
        }
      }
      ListsUnique(pairs, Listing(RangeOf(Contents(), start, end)), RangeOf(Contents(), start, end));
      return Success(pairs);
    }

    /** Every entry of the table in ascending key order. */
    method AllRaw() returns (results: Result<seq<(Field, Entry)>>)
      requires Valid()
      ensures results == Success(Listing(Contents()))
    {
      hide Decode, Records, EncodeAll, EncodeRecordValue, ToMap, Less, Listing;
      ghost var rs := Recs();
      var pairs: seq<(Field, Entry)> := [];
      var block := data;
      ghost var p := 0;
      assert rs[0..|rs|] == rs;
      while block != []
        invariant 0 <= p <= |rs|
        invariant block == EncodeAll(rs[p..|rs|])
        invariant pairs == EntriesOf(rs[..p])
        decreases |block|
      {
        if p == |rs| {
          EmptyBlock(rs, p);
          assert false;
        }
        NextRecord(rs, p, |rs|);
        var result := DecodeRecord(block);
        if !result.Ok? {
          return Failure(CorruptBlock);
        }
        var record := result.record;
        pairs := pairs + [(record.key, Entry(record.value, record.kind.Delete?))];
        block := block[result.bytesConsumed..];
        p := p + 1;
      }
      if p < |rs| {
        NextRecord(rs, p, |rs|);
        assert false;
      }
      assert rs[..p] == rs;
      SortedLists(rs);
      ListsUnique(pairs, Listing(Contents()), Contents());
      return Success(pairs);
    }
  }

  // ----- what the loops of the reader rely on -----

  /** The target sorts before the first key. */
  lemma BeforeFirst(rs: seq<Record>, key: Field)
    requires Sorted(rs) && rs != [] && Less(key, rs[0].key)
    ensures key !in TableOf(rs)
  {
    AbsentBefore(rs, key, 0);
  }

  /** All keys before a block that starts at or below the target are different from it. */
  lemma BlockStart(rs: seq<Record>, key: Field, first: nat)
    requires Sorted(rs) && first < |rs| && !Less(key, rs[first].key)
    ensures forall i :: 0 <= i < first ==> Less(rs[i].key, key) && rs[i].key != key
  {
    hide Less;
    LessTotal(key, rs[first].key);
    forall i | 0 <= i < first
      ensures Less(rs[i].key, key) && rs[i].key != key
    {
      if rs[first].key != key {
        LessTransitive(rs[i].key, rs[first].key, key);
      }
      LessAsymmetric(rs[i].key, key);
    }
  }

  /** A key not seen up to a record above it is not in the table. */
  lemma AbsentBefore(rs: seq<Record>, key: Field, p: nat)
    requires Sorted(rs) && p < |rs| && Less(key, rs[p].key)
    requires forall i :: 0 <= i < p ==> rs[i].key != key
    ensures key !in TableOf(rs)
  {
    hide Less;
    forall i | 0 <= i < |rs|
      ensures rs[i].key != key
    {
      if i > p {
        LessTransitive(key, rs[p].key, rs[i].key);
        LessAsymmetric(key, rs[i].key);
      } else if i == p {
        LessAsymmetric(key, rs[i].key);
      }
    }
    Absent(rs, key);
  }

  lemma EmptyTable(rs: seq<Record>)
    requires rs == []
    ensures TableOf(rs) == map[]
  {
  }

  lemma SortedPrefix(rs: seq<Record>, p: nat)
    requires Sorted(rs) && p <= |rs|
    ensures Sorted(rs[..p])
  {
  }

  lemma RangeStartsEmpty(rs: seq<Record>, start: Field, end: Field, first: nat)
    requires Sorted(rs) && first <= |rs|
    requires forall i :: 0 <= i < first ==> Less(rs[i].key, start)
    ensures RangeOf(TableOf(rs[..first]), start, end) == map[]
  {
    hide Less, ToMap;
    SortedPrefix(rs, first);
    SortedLists(rs[..first]);
    forall k | k in TableOf(rs[..first])
      ensures Less(k, start)
    {
      assert HasKey(EntriesOf(rs[..first]), k);
    }
  }

  /** One record below the end of the range: kept exactly when it is not below the start. */
  lemma RangeStep(rs: seq<Record>, pairs: seq<(Field, Entry)>, start: Field, end: Field, p: nat)
    requires Sorted(rs) && p < |rs| && Less(rs[p].key, end)
    requires Lists(pairs, RangeOf(TableOf(rs[..p]), start, end))
    ensures Lists(if Less(rs[p].key, start) then pairs else pairs + [EntryOf(rs[p])],
                  RangeOf(TableOf(rs[..p + 1]), start, end))
  {
    hide Less, ToMap;
    TableOfPush(rs, p);
    SortedPrefix(rs, p);
    SortedLists(rs[..p]);
    var before, after := TableOf(rs[..p]), TableOf(rs[..p + 1]);
    var key, entry := rs[p].key, EntryOf(rs[p]).1;
    assert key !in before by {
      assert key in before ==> HasKey(EntriesOf(rs[..p]), key);
      LessIrreflexive(key);
    }
    if Less(key, start) {
      assert RangeOf(after, start, end) == RangeOf(before, start, end);
    } else {
      assert RangeOf(after, start, end) == RangeOf(before, start, end)[key := entry];
      forall i | 0 <= i < |pairs|
        ensures Less(pairs[i].0, key)
      {
        assert pairs[i].0 in before;
        assert HasKey(EntriesOf(rs[..p]), pairs[i].0);
      }
      ListsPush(pairs, RangeOf(before, start, end), key, entry);
    }
  }

  /** From the first key at or above the end on, nothing is in the range. */
  lemma RangeEnds(rs: seq<Record>, start: Field, end: Field, p: nat)
    requires Sorted(rs) && p < |rs| && !Less(rs[p].key, end)
    ensures RangeOf(TableOf(rs), start, end) == RangeOf(TableOf(rs[..p]), start, end)
  {
    hide Less, ToMap;
    SortedPrefix(rs, p);
    SortedLists(rs);
    SortedLists(rs[..p]);
    var whole, part := TableOf(rs), TableOf(rs[..p]);
    forall i | 0 <= i < |rs|
      ensures i < p ==> rs[i].key in part && part[rs[i].key] == EntryOf(rs[i]).1
      ensures rs[i].key in whole && whole[rs[i].key] == EntryOf(rs[i]).1
      ensures i >= p ==> !Less(rs[i].key, end)
    {
      LookUp(rs, i);
      if i < p {
        LookUp(rs[..p], i);
      } else if i > p && Less(rs[i].key, end) {
        LessTransitive(rs[p].key, rs[i].key, end);
      }
    }
    forall k | k in whole && Less(k, end)
      ensures k in part && part[k] == whole[k]
    {
      assert HasKey(EntriesOf(rs), k);
    }
    forall k | k in part
      ensures k in whole && part[k] == whole[k]
    {
      assert HasKey(EntriesOf(rs[..p]), k);
    }
  }

  // ----- opening a file -----

  /** The table a file reads as, if it opens. */
  function OpenedTable(contents: Bytes): Result<Table> {
    match ParseTable(contents)
    case Success(sections) => Success(TableOf(Records(sections.data)))
    case Failure(e) => Failure(e)
  }

  lemma OpenWritten(m: Table)
    requires Fits(m)
    ensures OpenedTable(TableBytes(m)) == Success(TableOnDisk(m))
  {
    hide ParseTable, EncodeAll, Records, Listing, TableBytes;
    ParseWritten(m);
    RecordsOfTable(m);
    DataSectionRecords(RecordsOf(Listing(m)));
  }

  method ParseIndexBytes(bytes: Bytes) returns (index: Option<seq<IndexEntry>>)
    ensures index == ParseIndex(bytes)
  {
    hide LittleEndian, FromLittleEndian;
    var view := bytes;
    var entries: seq<IndexEntry> := [];
    assert ParseIndex(view).Some? ==> entries + ParseIndex(view).value == ParseIndex(view).value;
    while view != []
      invariant ParseIndex(bytes) == if ParseIndex(view).None? then None
                                     else Some(entries + ParseIndex(view).value)
      decreases |view|
    {
      if |view| < 4 {
        return None;
      }
      Uint32Range(view[..4]);
      var keyLen := GetUint32LE(view[..4]);
      if |view| - 4 < keyLen + 8 {
        return None;
      }
      var offset := GetUint64LE(view[4 + keyLen..12 + keyLen]);
      ghost var rest := ParseIndex(view[12 + keyLen..]);
      var entry := IndexEntry(view[4..4 + keyLen], offset);
      assert rest.Some? ==> entries + ([entry] + rest.value) == entries + [entry] + rest.value;
      entries := entries + [entry];
      view := view[12 + keyLen..];
    }
    assert entries + [] == entries;
    return Some(entries);
  }

  method ParseFile(contents: Bytes) returns (parsed: Result<Sections>)
    ensures parsed == ParseTable(contents)
  {
    hide LittleEndian, FromLittleEndian, ParseIndex;
    if |contents| < FOOTER_SIZE {
      return Failure(TooSmall);
    }
    var footer := contents[|contents| - FOOTER_SIZE..];
    var indexOffset := GetUint64LE(footer[..8]);
    var indexSize := GetUint64LE(footer[8..16]);
    var magic := GetUint32LE(footer[20..24]);
    if magic != MAGIC {
      return Failure(BadMagic);
    }
    if indexOffset + indexSize + FOOTER_SIZE != |contents| {
      return Failure(BadFooterOffsets);
    }
    var index := ParseIndexBytes(contents[indexOffset..indexOffset + indexSize]);
    if index.None? {
      return Failure(CorruptIndex);
    }
    return Success(Sections(contents[..indexOffset], index.value));
  }

  /** The reader's constructor; a failure is the exception it throws. */
  method OpenSSTable(directory: Directory, path: string) returns (r: Result<SSTableReader>)
    ensures path !in directory.files ==> r == Failure(NoSuchFile)
    ensures path in directory.files ==> Opens(r, path, ParseTable(directory.files[path]))
  {
    hide ParseTable;
    if path !in directory.files {
      return Failure(NoSuchFile);
    }
    var contents := directory.files[path];
    var parsed := ParseFile(contents);
    if parsed.Failure? {
      return Failure(parsed.error);
    }
    var reader := new SSTableReader(path, parsed.value.data, parsed.value.index);
    return Success(reader);
  }

  ghost predicate Opens(r: Result<SSTableReader>, path: string, parsed: Result<Sections>) {
    match parsed
    case Success(sections) =>
      r.Success? && r.value.path == path && r.value.data == sections.data && r.value.index == sections.index
    case Failure(e) => r == Failure(e)
  }

  /** A reader opened on a file the writer produced is valid and holds the table written. */
  lemma ReaderOfWritten(reader: SSTableReader, m: Table)
    requires Fits(m) && ParseTable(TableBytes(m)) == Success(Sections(reader.data, reader.index))
    ensures reader.Valid() && reader.Contents() == TableOnDisk(m)
  {
    hide ParseTable, EncodeAll, Records, Listing, TableBytes;
    ParseWritten(m);
    RecordsOfTable(m);
    DataSectionRecords(RecordsOf(Listing(m)));
  }

  // ----- merging -----

  function TablesOf(readers: seq<SSTableReader>): seq<Table>
  {
    seq(|readers|, i requires 0 <= i < |readers| => TableOf(Records(readers[i].data)))
  }

  /** Oldest first, so that later tables overwrite. */
  method MergeSSTables(readers: seq<SSTableReader>) returns (merged: Result<Table>)
    requires forall r :: r in readers ==> r.Valid()
    ensures merged == Success(Merge(TablesOf(readers)))
  {
    hide Records, EncodeAll, Less, Listing, TableOf, RangeOf, IndexOf, Lists;
    merged := Success(map[]);
    ghost var tables := TablesOf(readers);
    for i := 0 to |readers|
      invariant merged == Success(Merge(tables[..i]))
    {
      var all := readers[i].AllRaw();
      if all.Failure? {
        return Failure(CorruptBlock);
      }
      var m := AssignAll(merged.value, all.value);
      ListsToMap(all.value, readers[i].Contents());
      assert tables[..i + 1][..i] == tables[..i];
      merged := Success(m);
    }
    assert tables[..|readers|] == tables;
  }

  /** The inner loop: each pair of one table assigned into the merged map. */
  method AssignAll(merged: Table, pairs: seq<(Field, Entry)>) returns (m: Table)
    ensures m == merged + ToMap(pairs)
  {
    m := merged;
    for j := 0 to |pairs|
      invariant m == merged + ToMap(pairs[..j])
    {
      m := m[pairs[j].0 := pairs[j].1];
      assert pairs[..j + 1][..j] == pairs[..j];
    }
    assert pairs[..|pairs|] == pairs;
  }
}
