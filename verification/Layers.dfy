/** Stacks of tables, oldest first: the merge that compaction and `scan` build, the search
    that `get` performs, and why a compacted table may replace what it was built from. */
module Layers {
  import opened ByteUtil
  import opened Results
  import opened SortedMap
  import opened Entries

  /** Oldest first, later tables overwriting earlier ones. */
  function Merge(tables: seq<Table>): Table {
    if tables == [] then map[] else Merge(tables[..|tables| - 1]) + tables[|tables| - 1]
  }

  /** Newest first, stopping at the first table that has the key. */
  function Search(tables: seq<Table>, key: Field): Option<Entry> {
    if tables == [] then None
    else if key in tables[|tables| - 1] then Some(tables[|tables| - 1][key])
    else Search(tables[..|tables| - 1], key)
  }

  /** The merge of all tables answers every key as the newest-first search does. */
  lemma {:induction false} MergeIsSearch(tables: seq<Table>, key: Field)
    ensures Search(tables, key) == if key in Merge(tables) then Some(Merge(tables)[key]) else None
  {
    if tables != [] {
      MergeIsSearch(tables[..|tables| - 1], key);
    }
  }

  lemma {:induction false} MergeConcat(a: seq<Table>, b: seq<Table>)
    ensures Merge(a + b) == Merge(a) + Merge(b)
  {
    if b == [] {
      assert a + b == a;
    } else {
      assert (a + b)[..|a + b| - 1] == a + b[..|b| - 1];
      MergeConcat(a, b[..|b| - 1]);
    }
  }

  lemma MergeOne(t: Table)
    ensures Merge([t]) == t
  {
    assert Merge([]) == map[] && [t][..0] == [];
  }

  /** What callers see of a stack of tables under a memtable. */
  function View(tables: seq<Table>, mem: Table): Contents {
    Live(Merge(tables) + mem)
  }

  /** `get` over a memtable and tables. */
  function Get(tables: seq<Table>, mem: Table, key: Field): Option<Field> {
    var found := if key in mem then Some(mem[key]) else Search(tables, key);
    if found.Some? && !found.value.isTombstone then Some(found.value.value) else None
  }

  lemma GetIsView(tables: seq<Table>, mem: Table, key: Field)
    ensures Get(tables, mem, key)
         == if key in View(tables, mem) then Some(View(tables, mem)[key]) else None
  {
    MergeIsSearch(tables, key);
  }

  // ----- ranges -----

  /** Merging the ranges of all tables is taking the range of the merge. */
  lemma {:induction false} MergeRanges(tables: seq<Table>, ranges: seq<Table>, start: Bytes, end: Bytes)
    requires |ranges| == |tables|
    requires forall i :: 0 <= i < |tables| ==> ranges[i] == RangeOf(tables[i], start, end)
    ensures Merge(ranges) == RangeOf(Merge(tables), start, end)
  {
    if tables != [] {
      var n := |tables| - 1;
      MergeRanges(tables[..n], ranges[..n], start, end);
      RangeOfUnion(Merge(tables[..n]), tables[n], start, end);
    }
  }

  lemma RangeOfUnion(a: Table, b: Table, start: Bytes, end: Bytes)
    ensures RangeOf(a + b, start, end) == RangeOf(a, start, end) + RangeOf(b, start, end)
  {
  }

  lemma LiveRange(t: Table, start: Bytes, end: Bytes)
    ensures Live(RangeOf(t, start, end)) == RangeOf(Live(t), start, end)
  {
  }

  // ----- two stacks, key by key -----

  ghost predicate LiveIn(k: Field, t: Table) {
    k in t && !t[k].isTombstone
  }

  /** Two contents answer one key alike. */
  predicate SameAt(k: Field, a: Contents, b: Contents) {
    (k in a <==> k in b) && (k in a && k in b ==> a[k] == b[k])
  }

  lemma SameEverywhere(a: Contents, b: Contents)
    ensures a == b <==> forall k :: SameAt(k, a, b)
  {
    if forall k :: SameAt(k, a, b) {
      assert forall k :: k in a ==> SameAt(k, a, b);
      assert forall k :: k in b ==> SameAt(k, a, b);
    }
  }

  lemma SameAtIs(k: Field, a: Table, b: Table)
    ensures SameAt(k, Live(a), Live(b))
            <==> (LiveIn(k, a) <==> LiveIn(k, b)) && (LiveIn(k, a) && LiveIn(k, b) ==> a[k].value == b[k].value)
  {
    assert k in Live(a) <==> LiveIn(k, a);
    assert k in Live(b) <==> LiveIn(k, b);
  }

  lemma SameOver(k: Field, a: Table, b: Table, l: Table, mem: Table)
    requires k in l || k in mem
    ensures SameAt(k, Live(a + l + mem), Live(b + l + mem))
  {
    assert (a + l + mem)[k] == (b + l + mem)[k];
  }

  lemma NotOver(k: Field, a: Table, b: Table, l: Table, mem: Table)
    requires k !in l && k !in mem
    ensures SameAt(k, Live(a + l + mem), Live(b + l + mem)) <==> SameAt(k, Live(a), Live(b))
  {
    hide Live;
    SameAtIs(k, a, b);
    SameAtIs(k, a + l + mem, b + l + mem);
  }

  lemma MergeThree(a: seq<Table>, b: seq<Table>, c: seq<Table>)
    ensures Merge(a + b + c) == Merge(a) + Merge(b) + Merge(c)
  {
    MergeConcat(a + b, c);
    MergeConcat(a, b);
  }

  // ----- compaction -----

  function DropTombstones(t: Table): Table {
    map k | k in t && !t[k].isTombstone :: t[k]
  }

  /** The table a compaction of `tables` writes. */
  function Compacted(tables: seq<Table>): Table {
    DropTombstones(Merge(tables))
  }

  lemma LiveDrop(t: Table)
    ensures Live(DropTombstones(t)) == Live(t)
  {
  }

  lemma LiveOver(a: Table, b: Table, upper: Table)
    requires Live(a) == Live(b)
    ensures Live(a + upper) == Live(b + upper)
  {
    forall k | k in Live(a + upper)
      ensures k in Live(b + upper) && Live(b + upper)[k] == Live(a + upper)[k]
    {
      if k !in upper {
        assert k in Live(a) && Live(a)[k] == Live(b)[k];
      }
    }
    forall k | k in Live(b + upper)
      ensures k in Live(a + upper)
    {
      if k !in upper {
        assert k in Live(b);
      }
    }
  }

  /** Survivors of the deletion loop under the compacted table, with what lies above given, change
      an answer exactly by a key that is live in them and in nothing above. */
  lemma SurvivorsSeenIff(rest: seq<Table>, compacted: Table, later: seq<Table>, mem: Table)
    ensures View(rest + [compacted] + later, mem) == View([compacted] + later, mem)
       <==> forall k :: LiveIn(k, Merge(rest)) ==> k in compacted || k in Merge(later) || k in mem
  {
    hide Merge, SameAt, Live;
    var r, l := Merge(rest), Merge(later);
    MergeConcat([compacted], later);
    MergeThree(rest, [compacted], later);
    MergeOne(compacted);
    var right, wrong := compacted + l + mem, r + compacted + l + mem;
    forall k
      ensures SameAt(k, Live(right), Live(wrong)) <==> (LiveIn(k, r) ==> k in compacted || k in l || k in mem)
    {
      SurvivingKey(k, r, compacted, l, mem);
    }
    SameEverywhere(Live(right), Live(wrong));
  }

  lemma SurvivingKey(k: Field, r: Table, c: Table, l: Table, mem: Table)
    ensures SameAt(k, Live(c + l + mem), Live(r + c + l + mem))
            <==> (LiveIn(k, r) ==> k in c || k in l || k in mem)
  {
    hide Live;
    if k in l || k in mem {
      SameOver(k, c, r + c, l, mem);
    } else {
      NotOver(k, c, r + c, l, mem);
      SameAtIs(k, c, r + c);
    }
  }

  /** What lies under a compacted table and cannot change an answer: every key the compacted
      table lacks is absent from it, or deleted in it. */
  ghost predicate Harmless(rest: seq<Table>, compacted: Table) {
    forall k :: k in Merge(rest) && k !in compacted ==> Merge(rest)[k].isTombstone
  }

  lemma HarmlessUnder(rest: seq<Table>, compacted: Table, later: seq<Table>, mem: Table)
    requires Harmless(rest, compacted)
    ensures View(rest + [compacted] + later, mem) == View([compacted] + later, mem)
  {
    SurvivorsSeenIff(rest, compacted, later, mem);
  }

  /** Everything compacted is harmless under the result. */
  lemma SnapshotHarmless(tables: seq<Table>)
    ensures Harmless(tables, Compacted(tables))
  {
  }

  /** Removing the oldest table keeps the rest harmless. */
  lemma DropOldestHarmless(rest: seq<Table>, compacted: Table)
    requires rest != [] && Harmless(rest, compacted)
    ensures Harmless(rest[1..], compacted)
  {
    assert rest == [rest[0]] + rest[1..];
    MergeConcat([rest[0]], rest[1..]);
  }

  /** The swap: a compacted table answers as the tables it was built from, whatever was
      written on top of them meanwhile. */
  lemma SwapKeepsView(snapshot: seq<Table>, later: seq<Table>, mem: Table)
    ensures View([Compacted(snapshot)] + later, mem) == View(snapshot + later, mem)
  {
    MergeConcat(snapshot, later);
    MergeConcat([Compacted(snapshot)], later);
    MergeOne(Compacted(snapshot));
    LiveDrop(Merge(snapshot));
    LiveOver(Merge(snapshot), Compacted(snapshot), Merge(later));
    LiveOver(Merge(snapshot) + Merge(later), Compacted(snapshot) + Merge(later), mem);
  }

  lemma {:induction false} SuffixHarmless(tables: seq<Table>, p: nat)
    requires p <= |tables|
    ensures Harmless(tables[p..], Compacted(tables))
  {
    if p == 0 {
      assert tables[0..] == tables;
      SnapshotHarmless(tables);
    } else {
      SuffixHarmless(tables, p - 1);
      DropOldestHarmless(tables[p - 1..], Compacted(tables));
      assert tables[p - 1..][1..] == tables[p..];
    }
  }

  /** The deletion window: with any number of the oldest compacted files already deleted, the
      survivors under the compacted file answer as the original tables did. */
  lemma DeletionWindow(tables: seq<Table>, p: nat, later: seq<Table>, mem: Table)
    requires p <= |tables|
    ensures View(tables[p..] + [Compacted(tables)] + later, mem) == View(tables + later, mem)
  {
    SuffixHarmless(tables, p);
    HarmlessUnder(tables[p..], Compacted(tables), later, mem);
    SwapKeepsView(tables, later, mem);
  }

  /** Survivors of the deletion loop are without effect if and only if they are harmless: a
      removal that fails while a newer one succeeds is not harmless in general. */
  lemma SurvivorsIff(rest: seq<Table>, compacted: Table)
    ensures (forall later, mem :: View(rest + [compacted] + later, mem) == View([compacted] + later, mem))
       <==> Harmless(rest, compacted)
  {
    hide View;
    if Harmless(rest, compacted) {
      forall later: seq<Table>, mem: Table
        ensures View(rest + [compacted] + later, mem) == View([compacted] + later, mem)
      {
        HarmlessUnder(rest, compacted, later, mem);
      }
    } else {
      var later: seq<Table>, mem: Table := [], map[];
      SurvivorsSeenIff(rest, compacted, later, mem);
      assert View(rest + [compacted] + later, mem) != View([compacted] + later, mem);
    }
  }

  // ----- a compacted file that sorts above newer files -----

  /** A key whose answer changes when the tables `under`, which the compacted table replaces, are
      still there, and `window`, written after its snapshot, ends up under it. Either the
      compacted table has the key and `window` has it with another entry, or neither has it and
      it is live in `under`; and nothing later hides the difference. */
  ghost predicate Stale(k: Field, under: seq<Table>, compacted: Table, window: seq<Table>, later: seq<Table>,
                        mem: Table)
  {
    k !in Merge(later) && k !in mem &&
    if k in compacted then k in Merge(window) && Merge(window)[k] != compacted[k]
    else k !in Merge(window) && LiveIn(k, Merge(under))
  }

  ghost predicate NoTombstones(t: Table) {
    forall k :: k in t ==> !t[k].isTombstone
  }

  /** One key, with every stack already merged. */
  lemma MisorderedKey(k: Field, u: Table, c: Table, w: Table, l: Table, mem: Table)
    requires NoTombstones(c)
    ensures SameAt(k, Live(u + w + c + l + mem), Live(c + w + l + mem))
            <==> (k !in l && k !in mem
                  ==> if k in c then k in w ==> w[k] == c[k] else k in w || !LiveIn(k, u))
  {
    hide Live;
    var right, wrong := c + w, u + w + c;
    if k in l || k in mem {
      SameOver(k, right, wrong, l, mem);
    } else {
      NotOver(k, right, wrong, l, mem);
      SameAtIs(k, right, wrong);
      assert k in c ==> right[k] == (if k in w then w[k] else c[k]) && wrong[k] == c[k];
    }
  }

  /** Sorted by file number, tables flushed between the snapshot and the allocation of the
      compacted file's number come below it, and files it replaces may still be there, in any
      order. The answer for a key is then right if and only if the key is not stale. */
  lemma MisorderedIff(k: Field, under: seq<Table>, c: Table, window: seq<Table>, later: seq<Table>, mem: Table)
    requires NoTombstones(c)
    ensures SameAt(k, View(under + window + [c] + later, mem), View([c] + window + later, mem))
            <==> !Stale(k, under, c, window, later, mem)
  {
    hide Merge, SameAt, Live, NoTombstones, LiveIn;
    MergeThree([c], window, later);
    MergeThree(under + window, [c], later);
    MergeConcat(under, window);
    MergeOne(c);
    MisorderedKey(k, Merge(under), c, Merge(window), Merge(later), mem);
  }

  lemma CompactedHasNoTombstones(tables: seq<Table>)
    ensures NoTombstones(Compacted(tables))
  {
  }
}
