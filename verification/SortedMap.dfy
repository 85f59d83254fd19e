/** `std::map` with string keys: a map together with the one order in which it is iterated. */
module SortedMap {
  import opened ByteUtil

  ghost predicate Ascending<V>(s: seq<(Field, V)>) {
    forall i, j :: 0 <= i < j < |s| ==> Less(s[i].0, s[j].0)
  }

  ghost predicate HasKey<V>(s: seq<(Field, V)>, k: Field) {
    exists i :: 0 <= i < |s| && s[i].0 == k
  }

  /** `s` is exactly the entries of `m` in strictly ascending key order. */
  ghost predicate Lists<V>(s: seq<(Field, V)>, m: map<Field, V>) {
    && Ascending(s)
    && (forall i :: 0 <= i < |s| ==> s[i].0 in m && m[s[i].0] == s[i].1)
    && (forall k :: k in m ==> HasKey(s, k))
  }

  predicate IsLeast(k: Field, keys: set<Field>) {
    k in keys && forall x :: x in keys ==> x == k || Less(k, x)
  }

  lemma LeastExists(keys: set<Field>)
    requires keys != {}
    ensures exists k :: k in keys && IsLeast(k, keys)
  {
    var k :| k in keys;
    var rest := keys - {k};
    if rest == {} {
      assert keys == {k};
      assert IsLeast(k, keys);
    } else {
      LeastExists(rest);
      var m :| m in rest && IsLeast(m, rest);
      LessTotal(k, m);
      var least := if Less(k, m) then k else m;
      forall x | x in keys
        ensures x == least || Less(least, x)
      {
        if x != k && Less(k, m) && x != m {
          LessTransitive(k, m, x);
        }
      }
      assert IsLeast(least, keys);
    }
  }

  lemma LeastUnique(k: Field, l: Field, keys: set<Field>)
    requires IsLeast(k, keys) && IsLeast(l, keys)
    ensures k == l
  {
    if k != l {
      LessAsymmetric(k, l);
    }
  }

  function Least(keys: set<Field>): (k: Field)
    requires keys != {}
    ensures IsLeast(k, keys)
  {
    LeastExists(keys);
    assert forall k, l :: IsLeast(k, keys) && IsLeast(l, keys) ==> k == l by {
      forall k, l | IsLeast(k, keys) && IsLeast(l, keys) ensures k == l { LeastUnique(k, l, keys); }
    }
    var k :| k in keys && IsLeast(k, keys);
    k
  }

  /** The entries in iteration order. */
  function Listing<V>(m: map<Field, V>): (s: seq<(Field, V)>)
    ensures Lists(s, m) && |s| == |m|
    decreases |m|
  {
    if m == map[] then []
    else
      assert m.Keys != {};
      var k := Least(m.Keys);
      var rest := m - {k};
      assert rest.Keys == m.Keys - {k};
      assert |rest.Keys| < |m.Keys|;
      var s := [(k, m[k])] + Listing(rest);
      PushFront(k, m, Listing(rest));
      s
  }

  lemma PushFront<V>(k: Field, m: map<Field, V>, s: seq<(Field, V)>)
    requires k in m && IsLeast(k, m.Keys) && Lists(s, m - {k})
    ensures Lists([(k, m[k])] + s, m)
  {
    var t := [(k, m[k])] + s;
    forall x | x in m
      ensures HasKey(t, x)
    {
      if x == k {
        assert t[0].0 == k;
      } else {
        assert x in m - {k};
        var i :| 0 <= i < |s| && s[i].0 == x;
        assert t[i + 1].0 == x;
      }
    }
  }

  lemma ListsTail<V>(s: seq<(Field, V)>, m: map<Field, V>)
    requires Lists(s, m) && s != []
    ensures IsLeast(s[0].0, m.Keys)
    ensures Lists(s[1..], m - {s[0].0})
  {
    var k := s[0].0;
    forall x | x in m.Keys
      ensures x == k || Less(k, x)
    {
      assert HasKey(s, x);
    }
    forall i | 0 <= i < |s[1..]|
      ensures s[1..][i].0 in m - {k} && (m - {k})[s[1..][i].0] == s[1..][i].1
    {
      LessAsymmetric(k, s[i + 1].0);
    }
    forall x | x in m - {k}
      ensures HasKey(s[1..], x)
    {
      var i :| 0 <= i < |s| && s[i].0 == x;
      assert s[1..][i - 1].0 == x;
    }
  }

  /** There is only one such list. */
  lemma {:induction false} ListsUnique<V>(s: seq<(Field, V)>, t: seq<(Field, V)>, m: map<Field, V>)
    requires Lists(s, m) && Lists(t, m)
    ensures s == t
    decreases |s|
  {
    assert t != [] ==> HasKey(s, t[0].0);
    if s == [] {
      assert t == [];
    } else {
      assert s[0].0 in m && HasKey(t, s[0].0);
      ListsTail(s, m);
      ListsTail(t, m);
      LeastUnique(s[0].0, t[0].0, m.Keys);
      ListsUnique(s[1..], t[1..], m - {s[0].0});
      assert s == [s[0]] + s[1..] && t == [t[0]] + t[1..];
    }
  }

  /** Extending a list with a key above all the others. */
  lemma ListsPush<V>(s: seq<(Field, V)>, m: map<Field, V>, k: Field, v: V)
    requires Lists(s, m)
    requires forall i :: 0 <= i < |s| ==> Less(s[i].0, k)
    ensures Lists(s + [(k, v)], m[k := v])
  {
    var t := s + [(k, v)];
    forall i | 0 <= i < |t|
      ensures t[i].0 in m[k := v] && m[k := v][t[i].0] == t[i].1
    {
      if i < |s| {
        LessAsymmetric(s[i].0, k);
      }
    }
    forall x | x in m[k := v]
      ensures HasKey(t, x)
    {
      if x == k {
        assert t[|s|].0 == k;
      } else {
        var i :| 0 <= i < |s| && s[i].0 == x;
        assert t[i].0 == x;
      }
    }
  }

  /** What a loop that assigns the pairs one after the other builds. */
  function ToMap<V>(s: seq<(Field, V)>): map<Field, V> {
    if s == [] then map[] else ToMap(s[..|s| - 1])[s[|s| - 1].0 := s[|s| - 1].1]
  }

  lemma {:induction false} AscendingLists<V>(s: seq<(Field, V)>)
    requires Ascending(s)
    ensures Lists(s, ToMap(s))
  {
    if s != [] {
      var n := |s| - 1;
      AscendingLists(s[..n]);
      ListsPush(s[..n], ToMap(s[..n]), s[n].0, s[n].1);
      assert s == s[..n] + [(s[n].0, s[n].1)];
    }
  }

  lemma ListsDetermines<V>(s: seq<(Field, V)>, m: map<Field, V>, n: map<Field, V>)
    requires Lists(s, m) && Lists(s, n)
    ensures m == n
  {
    forall k | k in m
      ensures k in n && n[k] == m[k]
    {
      assert HasKey(s, k);
    }
    forall k | k in n
      ensures k in m
    {
      assert HasKey(s, k);
    }
  }

  lemma ListsToMap<V>(s: seq<(Field, V)>, m: map<Field, V>)
    requires Lists(s, m)
    ensures ToMap(s) == m
  {
    AscendingLists(s);
    ListsDetermines(s, m, ToMap(s));
  }

  /** The entries with `start <= key < end`; none when `start >= end`. */
  function RangeOf<V>(m: map<Field, V>, start: Bytes, end: Bytes): map<Field, V> {
    map k | k in m && !Less(k, start) && Less(k, end) :: m[k]
  }

  /** What the listing of a range is: the pairs of the map whose key lies in it, the start
      included and the end not, each once, in ascending key order. */
  lemma ListingOfRange<V>(m: map<Field, V>, start: Bytes, end: Bytes)
    ensures var r := Listing(RangeOf(m, start, end));
            && (forall i, j :: 0 <= i < j < |r| ==> Less(r[i].0, r[j].0))
            && (forall i :: 0 <= i < |r| ==>
                  r[i].0 in m && m[r[i].0] == r[i].1 && (r[i].0 == start || Less(start, r[i].0)) && Less(r[i].0, end))
            && (forall k :: k in m && (k == start || Less(start, k)) && Less(k, end) ==> HasKey(r, k))
  {
    hide Listing;
    forall k: Field
      ensures !Less(k, start) <==> k == start || Less(start, k)
    {
      NotBefore(k, start);
    }
  }

  lemma NotBefore(k: Bytes, start: Bytes)
    ensures !Less(k, start) <==> k == start || Less(start, k)
  {
    LessTotal(k, start);
    LessIrreflexive(start);
    if Less(start, k) {
      LessAsymmetric(start, k);
    }
  }
}
