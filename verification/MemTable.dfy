/** The in-memory table of the most recent writes (`src/memtable.cpp`). */
module MemTable {
  import opened ByteUtil
  import opened WalRecord
  import opened Entries
  import opened Results

  class MemTable {
    var table: Table
    var approximateSizeBytes: nat

    /** The incremental counter is the sum over all entries. */
    ghost predicate Valid()
      reads this
    {
      approximateSizeBytes == TableSize(table)
    }

    constructor ()
      ensures Valid() && table == map[]
    {
      table := map[];
      approximateSizeBytes := 0;
    }

    method Put(key: Field, value: Field)
      requires Valid()
      modifies this
      ensures Valid() && table == old(table)[key := Entry(value, false)]
    {
      Upsert(key, Entry(value, false));
    }

    method Remove(key: Field)
      requires Valid()
      modifies this
      ensures Valid() && table == old(table)[key := Entry([], true)]
    {
      Upsert(key, Entry([], true));
    }

    method Upsert(key: Field, entry: Entry)
      requires Valid()
      modifies this
      ensures Valid() && table == old(table)[key := entry]
      ensures approximateSizeBytes == old(approximateSizeBytes) + |key| + |entry.value|
                                      - if key in old(table) then |key| + |old(table)[key].value| else 0
    {
      TableSizeUpsert(table, key, entry);
      if key in table {
        TableSizeSplit(table, key);
        approximateSizeBytes := approximateSizeBytes - EntrySize(key, table[key]);
      } else {
        assert table - {key} == table;
      }
      table := table[key := entry];
      approximateSizeBytes := approximateSizeBytes + EntrySize(key, entry);
    }

    method Find(key: Field) returns (entry: Option<Entry>)
      ensures entry == if key in table then Some(table[key]) else None
    {
      entry := if key in table then Some(table[key]) else None;
    }

    /** One logged write, as the write path and the replay callback apply it. */
    method ApplyRecord(r: Record)
      requires Valid()
      modifies this
      ensures Valid() && table == old(table)[r.key := EntryFor(r)]
    {
      if r.kind.Put? {
        Put(r.key, r.value);
      } else {
        Remove(r.key);
      }
    }

    /** Replaying a log on top of what the table already holds: the table becomes the
        last-write-wins fold of everything and the counter stays exact. */
    method ApplyLog(rs: seq<Record>, ghost before: seq<Record>)
      requires Valid() && table == FoldRecords(before)
      modifies this
      ensures Valid() && table == FoldRecords(before + rs)
      ensures approximateSizeBytes == TableSize(FoldRecords(before + rs))
    {
      assert before + rs[..0] == before;
      for i := 0 to |rs|
        invariant Valid() && table == FoldRecords(before + rs[..i])
      {
        ApplyRecord(rs[i]);
        FoldPush(before + rs[..i], rs[i]);
        assert before + rs[..i] + [rs[i]] == before + rs[..i + 1];
      }
      assert rs[..|rs|] == rs;
    }
  }
}
