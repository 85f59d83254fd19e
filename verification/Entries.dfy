/** Entries with tombstones, tables of them, and the plain key-value contents they stand for. */
module Entries {
  import opened ByteUtil
  import opened WalRecord
  import opened SortedMap

  datatype Entry = Entry(value: Field, isTombstone: bool)

  type Table = map<Field, Entry>

  /** The store as its callers see it. */
  type Contents = map<Field, Field>

  function EntryFor(r: Record): Entry {
    if r.kind.Put? then Entry(r.value, false) else Entry([], true)
  }

  /** The last-write-wins table of a list of records. */
  function FoldRecords(rs: seq<Record>): Table {
    if rs == [] then map[]
    else FoldRecords(rs[..|rs| - 1])[rs[|rs| - 1].key := EntryFor(rs[|rs| - 1])]
  }

  /** The keys that are not deleted. */
  function Live(t: Table): Contents {
    map k | k in t && !t[k].isTombstone :: t[k].value
  }

  function Apply(c: Contents, r: Record): Contents {
    if r.kind.Put? then c[r.key := r.value] else c - {r.key}
  }

  function ApplyAll(rs: seq<Record>): Contents {
    if rs == [] then map[] else Apply(ApplyAll(rs[..|rs| - 1]), rs[|rs| - 1])
  }

  lemma LiveUpsert(t: Table, r: Record)
    ensures Live(t[r.key := EntryFor(r)]) == Apply(Live(t), r)
  {
  }

  lemma {:induction false} LiveOfRecords(rs: seq<Record>)
    ensures Live(FoldRecords(rs)) == ApplyAll(rs)
  {
    if rs != [] {
      LiveOfRecords(rs[..|rs| - 1]);
      LiveUpsert(FoldRecords(rs[..|rs| - 1]), rs[|rs| - 1]);
    }
  }

  lemma FoldPush(rs: seq<Record>, r: Record)
    ensures FoldRecords(rs + [r]) == FoldRecords(rs)[r.key := EntryFor(r)]
    ensures ApplyAll(rs + [r]) == Apply(ApplyAll(rs), r)
  {
    assert (rs + [r])[..|rs|] == rs;
  }

  // ----- tombstones as they read back -----

  /** An entry after a round trip through a file: a tombstone loses its value. */
  function OnDisk(e: Entry): Entry {
    if e.isTombstone then Entry([], true) else e
  }

  function TableOnDisk(t: Table): (d: Table)
    ensures d.Keys == t.Keys
  {
    map k | k in t :: OnDisk(t[k])
  }

  lemma {:induction false} FoldOnDisk(rs: seq<Record>)
    ensures TableOnDisk(FoldRecords(rs)) == FoldRecords(rs)
  {
    if rs != [] {
      FoldOnDisk(rs[..|rs| - 1]);
      var t := FoldRecords(rs[..|rs| - 1]);
      assert forall k :: k in t ==> TableOnDisk(t)[k] == OnDisk(t[k]);
    }
  }

  // ----- sizes -----

  function EntrySize(k: Field, e: Entry): nat {
    |k| + |e.value|
  }

  /** The sum of key and value sizes over all entries, tombstones included. */
  ghost function TableSize(t: Table): nat
    decreases |t|
  {
    if t == map[] then 0
    else
      var k :| k in t;
      EntrySize(k, t[k]) + TableSize(t - {k})
  }

  lemma {:induction false} TableSizeSplit(t: Table, k: Field)
    requires k in t
    ensures TableSize(t) == EntrySize(k, t[k]) + TableSize(t - {k})
    decreases |t|
  {
    var c :| c in t && TableSize(t) == EntrySize(c, t[c]) + TableSize(t - {c});
    if c != k {
      TableSizeSplit(t - {c}, k);
      TableSizeSplit(t - {k}, c);
      assert t - {c} - {k} == t - {k} - {c};
    }
  }

  lemma TableSizeUpsert(t: Table, k: Field, e: Entry)
    ensures TableSize(t[k := e]) == EntrySize(k, e) + TableSize(t - {k})
  {
    TableSizeSplit(t[k := e], k);
    assert t[k := e] - {k} == t - {k};
  }

  /** Key and value lengths, added up along a list of entries. */
  function LengthsOf(s: seq<(Field, Entry)>): nat {
    if s == [] then 0 else |s[0].0| + |s[0].1.value| + LengthsOf(s[1..])
  }

  /** The size of a table is the sum of all key and value lengths. */
  lemma {:induction false} TableSizeIsSum(s: seq<(Field, Entry)>, t: Table)
    requires Lists(s, t)
    ensures TableSize(t) == LengthsOf(s)
    decreases |s|
  {
    hide TableSize, Lists;
    if s == [] {
      NothingListed(t);
    } else {
      FirstListed(s, t);
      TableSizeSplit(t, s[0].0);
      ListsTail(s, t);
      TableSizeIsSum(s[1..], t - {s[0].0});
    }
  }

  lemma NothingListed(t: Table)
    requires Lists([], t)
    ensures TableSize(t) == 0
  {
    var s: seq<(Field, Entry)> := [];
    assert forall k :: k in t ==> HasKey(s, k);
    assert t == map[];
  }

  lemma FirstListed(s: seq<(Field, Entry)>, t: Table)
    requires Lists(s, t) && s != []
    ensures s[0].0 in t && t[s[0].0] == s[0].1
  {
  }
}
