/** The names of the files in a store's directory (`src/database.cpp`). */
module FileNames {
  import opened ByteUtil
  import opened SSTable

  const WAL_NAME: string := "wal.log"
  const PREFIX: string := "sst-"
  const SUFFIX: string := ".sst"

  datatype ParsedName = NotAnSSTable | Number(number: nat) | OutOfRange

  function Digit(d: nat): char
    requires d < 10
  {
    "0123456789"[d]
  }

  predicate IsDigit(c: char) {
    '0' <= c <= '9'
  }

  function DigitValue(c: char): (d: nat)
    requires IsDigit(c)
    ensures d < 10
  {
    c as int - '0' as int
  }

  function Decimal(n: nat): (s: string)
    ensures s != []
  {
    if n < 10 then [Digit(n)] else Decimal(n / 10) + [Digit(n % 10)]
  }

  function Zeros(n: nat): (s: string)
    ensures |s| == n
  {
    if n == 0 then "" else "0" + Zeros(n - 1)
  }

  /** The `%06llu` conversion. */
  function Padded(n: nat): string {
    var s := Decimal(n);
    if |s| < 6 then Zeros(6 - |s|) + s else s
  }

  function SSTableFilename(n: nat): string {
    PREFIX + Padded(n) + SUFFIX
  }

  function TmpName(n: nat): string {
    TmpPath(SSTableFilename(n))
  }

  predicate AllDigits(s: string) {
    forall i :: 0 <= i < |s| ==> IsDigit(s[i])
  }

  function Value(s: string): nat
    requires AllDigits(s)
  {
    if s == [] then 0 else 10 * Value(s[..|s| - 1]) + DigitValue(s[|s| - 1])
  }

  /** The number in a name of the form "sst-<digits>.sst"; the conversion throws on a number
      that does not fit 64 bits. */
  function ParseSSTableNumber(name: string): ParsedName {
    if |name| <= |PREFIX| + |SUFFIX| then NotAnSSTable
    else if name[..|PREFIX|] != PREFIX then NotAnSSTable
    else if name[|name| - |SUFFIX|..] != SUFFIX then NotAnSSTable
    else
      var digits := name[|PREFIX|..|name| - |SUFFIX|];
      if digits == [] || !AllDigits(digits) then NotAnSSTable
      else if Value(digits) < TWO_64 then Number(Value(digits)) else OutOfRange
  }

  /** The names that recovery deletes: `path::extension() == ".tmp"`. */
  predicate HasTmpExtension(name: string) {
    |name| > 4 && name[|name| - 4..] == ".tmp"
  }

  lemma {:induction false} DecimalValue(n: nat)
    ensures AllDigits(Decimal(n)) && Value(Decimal(n)) == n
  {
    if n < 10 {
      assert [Digit(n)][..0] == [];
    } else {
      DecimalValue(n / 10);
      assert Decimal(n)[..|Decimal(n)| - 1] == Decimal(n / 10);
    }
  }

  lemma {:induction false} PaddingValue(k: nat, s: string)
    requires AllDigits(s)
    ensures AllDigits(Zeros(k) + s) && Value(Zeros(k) + s) == Value(s)
    decreases k + |s|
  {
    if s == [] {
      if k > 0 {
        PaddingValue(k - 1, s);
        ZerosEnd(k);
        assert Zeros(k) + s == Zeros(k) && Zeros(k - 1) + s == Zeros(k - 1);
      }
    } else {
      var init := s[..|s| - 1];
      PaddingValue(k, init);
      assert (Zeros(k) + s)[..k + |s| - 1] == Zeros(k) + init;
      assert forall i :: 0 <= i < |Zeros(k) + s| ==>
          (Zeros(k) + s)[i] == if i < k + |s| - 1 then (Zeros(k) + init)[i] else s[|s| - 1];
    }
  }

  lemma {:induction false} ZerosEnd(k: nat)
    requires k > 0
    ensures Zeros(k) == Zeros(k - 1) + "0"
  {
    if k > 1 {
      ZerosEnd(k - 1);
    }
  }

  /** Parsing a name gives back the number it was made from. */
  lemma ParseFilename(n: nat)
    ensures ParseSSTableNumber(SSTableFilename(n)) == if n < TWO_64 then Number(n) else OutOfRange
  {
    hide Value, Decimal, Zeros, AllDigits;
    DecimalValue(n);
    var s := Decimal(n);
    PaddingValue(if |s| < 6 then 6 - |s| else 0, s);
    var name, digits := SSTableFilename(n), Padded(n);
    assert name[..|PREFIX|] == PREFIX;
    assert name[|name| - |SUFFIX|..] == SUFFIX;
    assert name[|PREFIX|..|name| - |SUFFIX|] == digits;
  }

  // ----- which name a number has -----

  function PowerOfTen(n: nat): (p: nat)
    ensures p > 0
  {
    if n == 0 then 1 else 10 * PowerOfTen(n - 1)
  }

  lemma {:induction false} PowerOfTenGrows(m: nat, n: nat)
    requires m <= n
    ensures PowerOfTen(m) <= PowerOfTen(n)
  {
    if m < n {
      PowerOfTenGrows(m, n - 1);
    }
  }

  lemma LastDigit(s: string)
    requires s != [] && AllDigits(s)
    ensures var i := |s| - 1;
            AllDigits(s[..i]) && IsDigit(s[i]) && Value(s) == 10 * Value(s[..i]) + DigitValue(s[i])
  {
  }

  /** A digit string of given length is determined by its value. */
  lemma {:induction false} SameValue(a: string, b: string)
    requires |a| == |b| && AllDigits(a) && AllDigits(b) && Value(a) == Value(b)
    ensures a == b
  {
    hide AllDigits, Value;
    if a != [] {
      var i := |a| - 1;
      LastDigit(a);
      LastDigit(b);
      SameValue(a[..i], b[..i]);
      assert a == a[..i] + [a[i]] && b == b[..i] + [b[i]];
    }
  }

  lemma {:induction false} ValueBounds(s: string)
    requires AllDigits(s)
    ensures Value(s) < PowerOfTen(|s|)
    ensures s != [] && s[0] != '0' ==> Value(s) >= PowerOfTen(|s| - 1)
  {
    if s != [] {
      var init := s[..|s| - 1];
      ValueBounds(init);
      assert init != [] ==> init[0] == s[0];
    }
  }

  lemma {:induction false} DecimalStart(n: nat)
    requires n > 0
    ensures Decimal(n)[0] != '0'
  {
    if n >= 10 {
      DecimalStart(n / 10);
    }
  }

  lemma PaddedValue(n: nat)
    ensures AllDigits(Padded(n)) && Value(Padded(n)) == n
  {
    hide Value, Decimal, Zeros, AllDigits;
    var s := Decimal(n);
    DecimalValue(n);
    PaddingValue(if |s| < 6 then 6 - |s| else 0, s);
  }

  /** A number written with `k` digits, the first of them not zero, has `k` digits. */
  lemma DecimalLength(n: nat, k: nat)
    requires k > 0 && PowerOfTen(k - 1) <= n < PowerOfTen(k)
    ensures |Decimal(n)| == k
  {
    hide Decimal, Value, PowerOfTen, AllDigits;
    var s := Decimal(n);
    DecimalValue(n);
    DecimalStart(n);
    ValueBounds(s);
    if |s| < k {
      PowerOfTenGrows(|s|, k - 1);
    } else if |s| > k {
      PowerOfTenGrows(k, |s| - 1);
    }
  }

  lemma DecimalShort(n: nat, k: nat)
    requires k > 0 && n < PowerOfTen(k)
    ensures |Decimal(n)| <= k
  {
    hide Value, PowerOfTen, AllDigits;
    if n > 0 {
      DecimalValue(n);
      DecimalStart(n);
      ValueBounds(Decimal(n));
      if |Decimal(n)| > k {
        PowerOfTenGrows(k, |Decimal(n)| - 1);
      }
    }
  }

  /** Which digit strings are the conversion of their own value: those padded to exactly six
      digits, and longer ones without a leading zero. */
  lemma PaddedDigits(d: string)
    requires d != [] && AllDigits(d)
    ensures Padded(Value(d)) == d <==> |d| == 6 || (|d| > 6 && d[0] != '0')
  {
    hide Value, Decimal, Zeros, AllDigits, PowerOfTen;
    var n := Value(d);
    PaddedValue(n);
    ValueBounds(d);
    if |d| == 6 {
      DecimalShort(n, 6);
      SameValue(Padded(n), d);
    } else if |d| > 6 && d[0] != '0' {
      DecimalLength(n, |d|);
      SameValue(Padded(n), d);
    } else if |d| > 6 && Padded(n) == d {
      SixDigits(n);
      DecimalStart(n);
    }
  }

  lemma SixDigits(n: nat)
    ensures |Padded(n)| >= 6 && (|Padded(n)| > 6 ==> Padded(n) == Decimal(n) && n > 0)
  {
    hide Zeros;
  }

  /** The names of tables: "sst-", at least one digit and nothing else, ".sst". */
  lemma TableNames(name: string)
    ensures ParseSSTableNumber(name) != NotAnSSTable
            <==> exists d :: d != "" && (forall i :: 0 <= i < |d| ==> '0' <= d[i] <= '9') && name == "sst-" + d + ".sst"
  {
    hide Value;
    if ParseSSTableNumber(name) != NotAnSSTable {
      var d := name[4..|name| - 4];
      assert name == name[..4] + d + name[|name| - 4..];
      assert d != "" && (forall i :: 0 <= i < |d| ==> '0' <= d[i] <= '9') && name == "sst-" + d + ".sst";
    }
    if d :| d != "" && (forall i :: 0 <= i < |d| ==> '0' <= d[i] <= '9') && name == "sst-" + d + ".sst" {
      assert name[..4] == "sst-" && name[|name| - 4..] == ".sst" && name[4..|name| - 4] == d;
    }
  }

  /** Of the names that parse to a number, the store uses the one with six digits, or without a
      leading zero if it is longer. */
  lemma WhichName(name: string, n: nat)
    requires ParseSSTableNumber(name) == Number(n)
    ensures name == SSTableFilename(n) <==> |name| == 14 || (|name| > 14 && name[4] != '0')
  {
    hide Value, Padded, AllDigits;
    var d := name[4..|name| - 4];
    assert name == name[..4] + d + name[|name| - 4..];
    PaddedDigits(d);
    assert name == SSTableFilename(n) ==> SSTableFilename(n)[4..|name| - 4] == Padded(n);
  }

  lemma ShortExample()
    ensures Padded(1) == "000001"
  {
    OneDigit();
    assert Zeros(2) == "00" && Zeros(4) == "0000" && Zeros(5) == "00000";
  }

  lemma LongExample()
    ensures Padded(1234567) == "1234567"
  {
    hide Zeros, Decimal;
    assert Decimal(1) == "1" by { OneDigit(); }
    DecimalPush(1, 2);
    DecimalPush(12, 3);
    DecimalPush(123, 4);
    DecimalPush(1234, 5);
    DecimalPush(12345, 6);
    DecimalPush(123456, 7);
  }

  lemma OneDigit()
    ensures Decimal(1) == "1"
  {
  }

  lemma DecimalPush(n: nat, d: nat)
    requires n > 0 && d < 10
    ensures Decimal(10 * n + d) == Decimal(n) + [Digit(d)]
  {
    assert (10 * n + d) / 10 == n && (10 * n + d) % 10 == d;
  }

  lemma NameExamples()
    ensures SSTableFilename(1) == "sst-000001.sst" && SSTableFilename(1234567) == "sst-1234567.sst"
    ensures TmpName(1) == "sst-000001.sst.tmp"
  {
    hide Padded;
    ShortExample();
    LongExample();
  }

  /** Recovery deletes exactly the names ending in ".tmp" after something. */
  lemma TmpNames(name: string)
    ensures HasTmpExtension(name) <==> exists x: string :: x != "" && name == x + ".tmp"
    ensures TmpPath(name) == name + ".tmp"
  {
    if HasTmpExtension(name) {
      var x := name[..|name| - 4];
      assert x != "" && name == x + ".tmp";
    }
    if x: string :| x != "" && name == x + ".tmp" {
      assert name[|name| - 4..] == ".tmp";
    }
  }

  /** Distinct numbers have distinct names. */
  lemma FilenameInjective(m: nat, n: nat)
    requires m < TWO_64 && n < TWO_64 && m != n
    ensures SSTableFilename(m) != SSTableFilename(n)
  {
    hide *;
    ParseFilename(m);
    ParseFilename(n);
  }

  /** An interrupted write is invisible to recovery, and is what recovery deletes. */
  lemma TmpInvisible(name: string)
    ensures ParseSSTableNumber(TmpPath(name)) == NotAnSSTable
    ensures HasTmpExtension(TmpPath(name)) <==> name != ""
  {
    var tmp := TmpPath(name);
    assert tmp[|tmp| - 4..] == ".tmp";
    assert ".tmp"[1] == 't' && SUFFIX[1] == 's';
  }

  /** Recovery deletes neither tables nor the log. */
  lemma TmpOnly(n: nat)
    ensures !HasTmpExtension(SSTableFilename(n)) && !HasTmpExtension(WAL_NAME)
    ensures ParseSSTableNumber(WAL_NAME) == NotAnSSTable
  {
    hide Padded;
    var name := SSTableFilename(n);
    assert name[|name| - 4..] == SUFFIX;
    assert ".tmp"[1] == 't' && SUFFIX[1] == 's';
    assert WAL_NAME[|WAL_NAME| - 4..] == ".log" && ".log"[1] == 'l';
  }

  /** The names that concurrent steps touch do not collide. */
  lemma NamesDiffer(m: nat, n: nat)
    requires m < TWO_64 && n < TWO_64
    ensures SSTableFilename(m) != TmpName(n)
    ensures SSTableFilename(m) != WAL_NAME && TmpName(n) != WAL_NAME
    ensures m != n ==> SSTableFilename(m) != SSTableFilename(n) && TmpName(m) != TmpName(n)
    ensures ParseSSTableNumber(TmpName(n)) == NotAnSSTable && ParseSSTableNumber(WAL_NAME) == NotAnSSTable
  {
    hide SSTableFilename, ParseSSTableNumber;
    ParseFilename(m);
    TmpInvisible(SSTableFilename(n));
    TmpOnly(n);
    var a, b := SSTableFilename(m), SSTableFilename(n);
    assert (b + ".tmp")[|b|..] == ".tmp" && ".tmp"[1] == 't';
    assert WAL_NAME[|WAL_NAME| - 4..][1] == 'l';
    assert TmpName(n)[|TmpName(n)| - 4..] == ".tmp";
    if m != n {
      FilenameInjective(m, n);
      assert TmpName(m)[..|a|] == a && TmpName(n)[..|b|] == b;
    }
  }
}
