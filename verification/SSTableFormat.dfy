/** The bytes of an SSTable file (`src/sstable.cpp`): data section, sparse index, footer. */
module SSTableFormat {
  import opened ByteUtil
  import opened Results
  import opened WalRecord
  import opened Wal
  import opened SortedMap
  import opened Entries

  const SPARSE_INDEX_INTERVAL: nat := 16
  const FOOTER_SIZE: nat := 24
  const MAGIC: nat := 0x5353_5442

  datatype IndexEntry = IndexEntry(key: Field, offset: nat)

  /** The two parts of a file that a reader keeps. */
  datatype Sections = Sections(data: Bytes, index: seq<IndexEntry>)

  // ----- entries as records -----

  function RecordOf(p: (Field, Entry)): Record {
    Record(if p.1.isTombstone then Delete else Put, p.0, if p.1.isTombstone then [] else p.1.value)
  }

  function EntryOf(r: Record): (Field, Entry) {
    (r.key, Entry(r.value, r.kind.Delete?))
  }

  function RecordsOf(s: seq<(Field, Entry)>): (rs: seq<Record>)
    ensures |rs| == |s|
  {
    seq(|s|, i requires 0 <= i < |s| => RecordOf(s[i]))
  }

  function EntriesOf(rs: seq<Record>): (s: seq<(Field, Entry)>)
    ensures |s| == |rs|
    ensures forall i :: 0 <= i < |rs| ==> s[i] == EntryOf(rs[i])
  {
    seq(|rs|, i requires 0 <= i < |rs| => EntryOf(rs[i]))
  }

  /** Records in strictly ascending key order, none of them a DELETE with a value. */
  ghost predicate Sorted(rs: seq<Record>) {
    && (forall i, j :: 0 <= i < j < |rs| ==> Less(rs[i].key, rs[j].key))
    && (forall i :: 0 <= i < |rs| ==> Canonical(rs[i]) == rs[i])
  }

  function TableOf(rs: seq<Record>): Table {
    ToMap(EntriesOf(rs))
  }

  lemma SortedLists(rs: seq<Record>)
    requires Sorted(rs)
    ensures Lists(EntriesOf(rs), TableOf(rs))
  {
    AscendingLists(EntriesOf(rs));
  }

  /** What a sorted list of records says about one key. */
  lemma LookUp(rs: seq<Record>, i: nat)
    requires Sorted(rs) && i < |rs|
    ensures rs[i].key in TableOf(rs) && TableOf(rs)[rs[i].key] == EntryOf(rs[i]).1
  {
    SortedLists(rs);
    assert EntriesOf(rs)[i] == EntryOf(rs[i]);
  }

  lemma Absent(rs: seq<Record>, key: Field)
    requires Sorted(rs) && forall i :: 0 <= i < |rs| ==> rs[i].key != key
    ensures key !in TableOf(rs)
  {
    SortedLists(rs);
    assert key in TableOf(rs) ==> HasKey(EntriesOf(rs), key);
  }

  lemma TableOfPush(rs: seq<Record>, p: nat)
    requires p < |rs|
    ensures TableOf(rs[..p + 1]) == TableOf(rs[..p])[rs[p].key := EntryOf(rs[p]).1]
  {
    assert EntriesOf(rs[..p + 1])[..p] == EntriesOf(rs[..p]);
  }

  lemma EntriesOfListing(m: Table)
    ensures Lists(EntriesOf(RecordsOf(Listing(m))), TableOnDisk(m))
  {
    hide Less, Listing, ToMap;
    var s := Listing(m);
    var t := EntriesOf(RecordsOf(s));
    var d := TableOnDisk(m);
    forall i | 0 <= i < |t|
      ensures t[i].0 == s[i].0 && t[i].0 in d && d[t[i].0] == t[i].1
    {
      assert s[i].0 in m && m[s[i].0] == s[i].1;
    }
    forall k | k in d
      ensures HasKey(t, k)
    {
      assert HasKey(s, k);
      var i :| 0 <= i < |s| && s[i].0 == k;
      assert t[i].0 == k;
    }
  }

  /** The records of a table are sorted and read back as the table on disk. */
  lemma RecordsOfTable(m: Table)
    ensures Sorted(RecordsOf(Listing(m)))
    ensures TableOf(RecordsOf(Listing(m))) == TableOnDisk(m)
    ensures EntriesOf(RecordsOf(Listing(m))) == Listing(TableOnDisk(m))
  {
    hide Less, Listing, ToMap, TableOnDisk, HasKey;
    var t, d := EntriesOf(RecordsOf(Listing(m))), TableOnDisk(m);
    EntriesOfListing(m);
    ListsToMap(t, d);
    ListsUnique(t, Listing(d), d);
  }

  // ----- the file -----

  function DataSection(m: Table): Bytes {
    EncodeAll(RecordsOf(Listing(m)))
  }

  function IndexLength(n: nat): nat {
    (n + SPARSE_INDEX_INTERVAL - 1) / SPARSE_INDEX_INTERVAL
  }

  /** Every sixteenth key with the offset of its record. */
  function IndexOf(rs: seq<Record>): (index: seq<IndexEntry>)
    ensures |index| == IndexLength(|rs|)
    ensures forall j :: 0 <= j < |index| ==> 16 * j < |rs| && index[j] == IndexEntryAt(rs, j)
  {
    seq(IndexLength(|rs|), j requires 0 <= j < IndexLength(|rs|) => IndexEntryAt(rs, j))
  }

  function IndexEntryAt(rs: seq<Record>, j: nat): IndexEntry
    requires 16 * j < |rs|
  {
    IndexEntry(rs[16 * j].key, |EncodeAll(rs[..16 * j])|)
  }

  function EncodeIndexEntry(e: IndexEntry): Bytes {
    LittleEndian(|e.key|, 4) + e.key + LittleEndian(e.offset, 8)
  }

  function EncodeIndex(index: seq<IndexEntry>): Bytes {
    if index == [] then [] else EncodeIndexEntry(index[0]) + EncodeIndex(index[1..])
  }

  function Footer(indexOffset: nat, indexSize: nat, count: nat): (f: Bytes)
    ensures |f| == FOOTER_SIZE
  {
    LittleEndian(indexOffset, 8) + LittleEndian(indexSize, 8) + LittleEndian(count, 4) + LittleEndian(MAGIC, 4)
  }

  function IndexSection(m: Table): Bytes {
    EncodeIndex(IndexOf(RecordsOf(Listing(m))))
  }

  function FooterOf(m: Table): Bytes {
    Footer(|DataSection(m)|, |IndexSection(m)|, |Listing(m)|)
  }

  function TableBytes(m: Table): Bytes {
    DataSection(m) + IndexSection(m) + FooterOf(m)
  }

  /** The file's size fits `size_t`, in which the source computes its offsets. */
  predicate Fits(m: Table) {
    |TableBytes(m)| < TWO_64
  }

  // ----- parsing -----

  function ParseIndex(view: Bytes): Option<seq<IndexEntry>>
    decreases |view|
  {
    if view == [] then Some([])
    else if |view| < 4 then None
    else
      Uint32Range(view[..4]);
      var keyLen := FromLittleEndian(view[..4]);
      if |view| - 4 < keyLen + 8 then None
      else
        var rest := ParseIndex(view[12 + keyLen..]);
        if rest.None? then None
        else Some([IndexEntry(view[4..4 + keyLen], FromLittleEndian(view[4 + keyLen..12 + keyLen]))] + rest.value)
  }

  function ParseTable(contents: Bytes): Result<Sections> {
    if |contents| < FOOTER_SIZE then Failure(TooSmall)
    else
      var footer := contents[|contents| - FOOTER_SIZE..];
      var indexOffset := FromLittleEndian(footer[..8]);
      var indexSize := FromLittleEndian(footer[8..16]);
      if FromLittleEndian(footer[20..24]) != MAGIC then Failure(BadMagic)
      else if indexOffset + indexSize + FOOTER_SIZE != |contents| then Failure(BadFooterOffsets)
      else
        var index := ParseIndex(contents[indexOffset..indexOffset + indexSize]);
        if index.None? then Failure(CorruptIndex) else Success(Sections(contents[..indexOffset], index.value))
  }

  lemma ParseIndexEntry(e: IndexEntry, rest: Bytes)
    requires e.offset < TWO_64
    ensures var view := EncodeIndexEntry(e) + rest;
            && |view| >= |e.key| + 12
            && FromLittleEndian(view[..4]) == |e.key|
            && view[4..4 + |e.key|] == e.key
            && FromLittleEndian(view[4 + |e.key|..12 + |e.key|]) == e.offset
            && view[12 + |e.key|..] == rest
  {
    hide LittleEndian, FromLittleEndian;
    var view := EncodeIndexEntry(e) + rest;
    Uint32RoundTrip(|e.key|);
    Uint64RoundTrip(e.offset);
    assert view[..4] == LittleEndian(|e.key|, 4);
    assert view[4 + |e.key|..12 + |e.key|] == LittleEndian(e.offset, 8);
  }

  lemma ParseIndexPush(e: IndexEntry, rest: Bytes)
    requires e.offset < TWO_64
    ensures ParseIndex(EncodeIndexEntry(e) + rest)
         == if ParseIndex(rest).None? then None else Some([e] + ParseIndex(rest).value)
  {
    hide LittleEndian, FromLittleEndian, EncodeIndexEntry;
    ParseIndexEntry(e, rest);
  }

  lemma {:induction false} ParseEncodedIndex(index: seq<IndexEntry>)
    requires forall j :: 0 <= j < |index| ==> index[j].offset < TWO_64
    ensures ParseIndex(EncodeIndex(index)) == Some(index)
  {
    hide EncodeIndexEntry;
    if index == [] {
      assert ParseIndex([]) == Some([]);
    } else {
      hide ParseIndex;
      ParseIndexPush(index[0], EncodeIndex(index[1..]));
      ParseEncodedIndex(index[1..]);
      assert index == [index[0]] + index[1..];
    }
  }

  lemma ParseFooter(indexOffset: nat, indexSize: nat, count: nat)
    requires indexOffset < TWO_64 && indexSize < TWO_64
    ensures var f := Footer(indexOffset, indexSize, count);
            && FromLittleEndian(f[..8]) == indexOffset
            && FromLittleEndian(f[8..16]) == indexSize
            && FromLittleEndian(f[20..24]) == MAGIC
  {
    hide LittleEndian, FromLittleEndian;
    var f := Footer(indexOffset, indexSize, count);
    Uint64RoundTrip(indexOffset);
    Uint64RoundTrip(indexSize);
    Uint32RoundTrip(MAGIC);
    assert f[..8] == LittleEndian(indexOffset, 8);
    assert f[8..16] == LittleEndian(indexSize, 8);
    assert f[20..24] == LittleEndian(MAGIC, 4);
  }

  lemma ParseSections(data: Bytes, index: seq<IndexEntry>, count: nat)
    requires |data| + |EncodeIndex(index)| < TWO_64
    requires forall j :: 0 <= j < |index| ==> index[j].offset < TWO_64
    ensures ParseTable(data + EncodeIndex(index) + Footer(|data|, |EncodeIndex(index)|, count))
         == Success(Sections(data, index))
  {
    hide LittleEndian, FromLittleEndian, EncodeIndex, Footer, ParseIndex;
    var bytes := EncodeIndex(index);
    var footer := Footer(|data|, |bytes|, count);
    var contents := data + bytes + footer;
    ParseFooter(|data|, |bytes|, count);
    ParseEncodedIndex(index);
    assert contents[|contents| - FOOTER_SIZE..] == footer;
    assert contents[|data|..|data| + |bytes|] == bytes;
    assert contents[..|data|] == data;
  }

  lemma Split(rs: seq<Record>, p: nat)
    requires p <= |rs|
    ensures EncodeAll(rs) == EncodeAll(rs[..p]) + EncodeAll(rs[p..])
  {
    hide EncodeAll;
    assert rs == rs[..p] + rs[p..];
    EncodeAllConcat(rs[..p], rs[p..]);
  }

  /** Offsets grow with the position and stay within the data section. */
  lemma OffsetWithin(rs: seq<Record>, p: nat, q: nat)
    requires p <= q <= |rs|
    ensures EncodeAll(rs[..q]) == EncodeAll(rs[..p]) + EncodeAll(rs[p..q])
    ensures EncodeAll(rs) == EncodeAll(rs[..q]) + EncodeAll(rs[q..])
  {
    hide EncodeAll;
    Split(rs[..q], p);
    assert rs[..q][..p] == rs[..p] && rs[..q][p..] == rs[p..q];
    Split(rs, q);
  }

  /** File round trip: the parser recovers the data section and the index of any table. */
  lemma ParseWritten(m: Table)
    requires Fits(m)
    ensures ParseTable(TableBytes(m)) == Success(Sections(DataSection(m), IndexOf(RecordsOf(Listing(m)))))
  {
    hide ParseTable, EncodeIndex, EncodeAll, RecordsOf, Listing, Footer, IndexOf;
    var rs := RecordsOf(Listing(m));
    var index := IndexOf(rs);
    forall j | 0 <= j < |index|
      ensures index[j].offset < TWO_64
    {
      OffsetWithin(rs, 0, 16 * j);
    }
    ParseSections(DataSection(m), index, |Listing(m)|);
  }

  /** The records of the data section are those written, and nothing is left over. */
  lemma DataSectionRecords(rs: seq<Record>)
    requires Sorted(rs)
    ensures Records(EncodeAll(rs)) == rs
  {
    hide Records, EncodeAll;
    RecordsOfEncoded(rs);
    assert CanonicalAll(rs) == rs;
  }

  // ----- the language of the parser -----

  lemma MagicBytes()
    ensures LittleEndian(MAGIC, 4) == [0x42, 0x54, 0x53, 0x53]
  {
    assert LittleEndian(0x5353, 2) == [0x53, 0x53];
  }

  predicate OffsetsFit(index: seq<IndexEntry>) {
    forall j :: 0 <= j < |index| ==> index[j].offset < TWO_64
  }

  /** An index entry takes the length of its key in four bytes, the key, and the offset in eight. */
  lemma IndexEntryOf(view: Bytes, keyLen: nat)
    requires |view| >= 12 + keyLen && keyLen == FromLittleEndian(view[..4]) && keyLen < TWO_32
    ensures var e := IndexEntry(view[4..4 + keyLen], FromLittleEndian(view[4 + keyLen..12 + keyLen]));
            e.offset < TWO_64 && view == EncodeIndexEntry(e) + view[12 + keyLen..]
  {
    hide LittleEndian, FromLittleEndian;
    Uint32Range(view[..4]);
    LittleEndianOfBytes(view[4 + keyLen..12 + keyLen]);
    FieldWidths();
  }

  /** The index parser accepts exactly the encoded indexes, and returns the one encoded. */
  lemma {:induction false} ParsesIndexExactly(view: Bytes, index: seq<IndexEntry>)
    ensures ParseIndex(view) == Some(index) <==> OffsetsFit(index) && view == EncodeIndex(index)
    decreases |view|
  {
    if OffsetsFit(index) && view == EncodeIndex(index) {
      ParseEncodedIndex(index);
    }
    if ParseIndex(view) == Some(index) {
      IndexDecoded(view);
    }
  }

  lemma {:induction false} IndexDecoded(view: Bytes)
    requires ParseIndex(view).Some?
    ensures OffsetsFit(ParseIndex(view).value) && EncodeIndex(ParseIndex(view).value) == view
    decreases |view|
  {
    hide LittleEndian, FromLittleEndian, EncodeIndexEntry;
    if view != [] {
      Uint32Range(view[..4]);
      var keyLen := FromLittleEndian(view[..4]);
      IndexEntryOf(view, keyLen);
      IndexDecoded(view[12 + keyLen..]);
      var index := ParseIndex(view).value;
      assert index[1..] == ParseIndex(view[12 + keyLen..]).value;
    }
  }

  /** Any two sections followed by their footer, whose entry count is free. */
  ghost predicate Framed(c: Bytes, data: Bytes, index: Bytes, count: nat) {
    count < TWO_32
    && c == data + index + LittleEndian(|data|, 8) + LittleEndian(|index|, 8) + LittleEndian(count, 4)
            + [0x42, 0x54, 0x53, 0x53]
  }

  /** The footer's fields, at their distance from the end. */
  ghost predicate FooterHolds(c: Bytes, dataSize: nat, indexSize: nat, count: nat)
    requires |c| >= 24
  {
    && FromLittleEndian(c[|c| - 24..|c| - 16]) == dataSize
    && FromLittleEndian(c[|c| - 16..|c| - 8]) == indexSize
    && FromLittleEndian(c[|c| - 8..|c| - 4]) == count
    && c[|c| - 4..] == [0x42, 0x54, 0x53, 0x53]
  }

  lemma FramedFooter(c: Bytes, data: Bytes, index: Bytes, count: nat)
    requires Framed(c, data, index, count) && |c| < TWO_64
    ensures |c| == |data| + |index| + 24 && FooterHolds(c, |data|, |index|, count)
    ensures c[..|data|] == data && c[|data|..|data| + |index|] == index
  {
    hide LittleEndian, FromLittleEndian;
    var a, b, n := LittleEndian(|data|, 8), LittleEndian(|index|, 8), LittleEndian(count, 4);
    Uint64RoundTrip(|data|);
    Uint64RoundTrip(|index|);
    Uint32RoundTrip(count);
    assert c[|c| - 24..|c| - 16] == a;
    assert c[|c| - 16..|c| - 8] == b;
    assert c[|c| - 8..|c| - 4] == n;
  }

  lemma FooterFramed(c: Bytes, dataSize: nat, indexSize: nat, count: nat)
    requires |c| == dataSize + indexSize + 24 && FooterHolds(c, dataSize, indexSize, count)
    ensures Framed(c, c[..dataSize], c[dataSize..dataSize + indexSize], count)
  {
    hide LittleEndian, FromLittleEndian;
    var n := |c|;
    LittleEndianOfBytes(c[n - 24..n - 16]);
    LittleEndianOfBytes(c[n - 16..n - 8]);
    LittleEndianOfBytes(c[n - 8..n - 4]);
    FieldWidths();
    assert c == c[..dataSize] + c[dataSize..dataSize + indexSize] + c[n - 24..n - 16] + c[n - 16..n - 8]
                + c[n - 8..n - 4] + c[n - 4..];
  }

  /** The parser in terms of the footer's positions. */
  lemma ParseIs(c: Bytes)
    ensures ParseTable(c) ==
            if |c| < 24 then Failure(TooSmall)
            else if c[|c| - 4..] != [0x42, 0x54, 0x53, 0x53] then Failure(BadMagic)
            else
              var dataSize := FromLittleEndian(c[|c| - 24..|c| - 16]);
              var indexSize := FromLittleEndian(c[|c| - 16..|c| - 8]);
              if dataSize + indexSize + 24 != |c| then Failure(BadFooterOffsets)
              else if ParseIndex(c[dataSize..dataSize + indexSize]).None? then Failure(CorruptIndex)
              else Success(Sections(c[..dataSize], ParseIndex(c[dataSize..dataSize + indexSize]).value))
  {
    hide LittleEndian, FromLittleEndian, ParseIndex;
    if |c| >= 24 {
      var footer := c[|c| - 24..];
      assert footer[..8] == c[|c| - 24..|c| - 16] && footer[8..16] == c[|c| - 16..|c| - 8];
      assert footer[20..24] == c[|c| - 4..];
      MagicBytes();
      Uint32RoundTrip(MAGIC);
      Uint32Range(c[|c| - 4..]);
    }
  }

  /** The files that open, and as what: exactly those that consist of the data, the encoded index
      and their footer. */
  lemma ParsesExactly(c: Bytes, data: Bytes, index: seq<IndexEntry>)
    requires |c| < TWO_64
    ensures ParseTable(c) == Success(Sections(data, index))
            <==> OffsetsFit(index) && exists count :: Framed(c, data, EncodeIndex(index), count)
  {
    hide LittleEndian, FromLittleEndian, ParseIndex, EncodeIndex, ParseTable, Framed;
    ParseIs(c);
    if count :| Framed(c, data, EncodeIndex(index), count) {
      FramedFooter(c, data, EncodeIndex(index), count);
      ParsesIndexExactly(EncodeIndex(index), index);
    }
    if ParseTable(c) == Success(Sections(data, index)) {
      var indexSize := |c| - 24 - |data|;
      FooterFramed(c, |data|, indexSize, FromLittleEndian(c[|c| - 8..|c| - 4]));
      ParsesIndexExactly(c[|data|..|data| + indexSize], index);
    }
  }

  ghost predicate IsIndex(bytes: Bytes) {
    exists index :: OffsetsFit(index) && bytes == EncodeIndex(index)
  }

  lemma IndexParses(bytes: Bytes)
    ensures ParseIndex(bytes).Some? <==> IsIndex(bytes)
  {
    hide ParseIndex, EncodeIndex, OffsetsFit;
    if index :| OffsetsFit(index) && bytes == EncodeIndex(index) {
      ParsesIndexExactly(bytes, index);
    }
    if ParseIndex(bytes).Some? {
      ParsesIndexExactly(bytes, ParseIndex(bytes).value);
    }
  }

  /** When each failure is reported: no room for a footer; another last four bytes; sizes that do
      not add up, so that the file is no two sections and their footer; or a second section that
      is no index. */
  lemma ParseFailures(c: Bytes)
    requires |c| < TWO_64
    ensures ParseTable(c) == Failure(TooSmall) <==> |c| < 24
    ensures ParseTable(c) == Failure(BadMagic) <==> |c| >= 24 && c[|c| - 4..] != [0x42, 0x54, 0x53, 0x53]
    ensures ParseTable(c) == Failure(BadFooterOffsets)
            <==> |c| >= 24 && c[|c| - 4..] == [0x42, 0x54, 0x53, 0x53]
                 && !exists data, bytes, count :: Framed(c, data, bytes, count)
    ensures ParseTable(c) == Failure(CorruptIndex)
            <==> exists data, bytes, count :: Framed(c, data, bytes, count) && !IsIndex(bytes)
  {
    hide LittleEndian, FromLittleEndian, ParseIndex, EncodeIndex, ParseTable, Framed, IsIndex;
    ParseIs(c);
    forall data, bytes, count | Framed(c, data, bytes, count)
      ensures |c| == |data| + |bytes| + 24 && FooterHolds(c, |data|, |bytes|, count)
      ensures c[..|data|] == data && c[|data|..|data| + |bytes|] == bytes
      ensures ParseIndex(bytes).Some? <==> IsIndex(bytes)
    {
      FramedFooter(c, data, bytes, count);
      IndexParses(bytes);
    }
    if |c| >= 24 && c[|c| - 4..] == [0x42, 0x54, 0x53, 0x53] {
      var dataSize, indexSize := FromLittleEndian(c[|c| - 24..|c| - 16]), FromLittleEndian(c[|c| - 16..|c| - 8]);
      if dataSize + indexSize + 24 == |c| {
        FooterFramed(c, dataSize, indexSize, FromLittleEndian(c[|c| - 8..|c| - 4]));
      }
    }
  }

  /** A number and what its field keeps of it have the same field. */
  lemma FieldOfLowBits(n: nat)
    ensures LittleEndian(n, 4) == LittleEndian(n % TWO_32, 4)
  {
    hide LittleEndian, FromLittleEndian;
    Uint32RoundTrip(n);
    Uint32Range(LittleEndian(n, 4));
  }

  lemma FramedTable(data: Bytes, index: Bytes, n: nat)
    requires LittleEndian(n, 4) == LittleEndian(n % TWO_32, 4)
    requires LittleEndian(MAGIC, 4) == [0x42, 0x54, 0x53, 0x53]
    ensures Framed(data + index + Footer(|data|, |index|, n), data, index, n % TWO_32)
  {
    hide LittleEndian;
  }

  /** A written file from its end: magic number, number of entries, sizes of index and data. */
  lemma WrittenFooter(m: Table)
    requires Fits(m)
    ensures |TableBytes(m)| >= 24
    ensures FooterHolds(TableBytes(m), |DataSection(m)|, |IndexSection(m)|, |m| % TWO_32)
  {
    hide LittleEndian, FromLittleEndian, EncodeIndex, EncodeAll, Listing, Framed;
    var c, data, index, n := TableBytes(m), DataSection(m), IndexSection(m), |Listing(m)|;
    MagicBytes();
    FieldOfLowBits(n);
    FramedTable(data, index, n);
    FramedFooter(c, data, index, n % TWO_32);
  }
}
