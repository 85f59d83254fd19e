/** Bytes, the little-endian integer fields of `src/byte_util.h`, and the order in which
    `std::string` keys compare: lexicographic over unsigned bytes. */
module ByteUtil {
  type Byte = x: int | 0 <= x < 256
  type Bytes = seq<Byte>

  const TWO_32: nat := 0x1_0000_0000
  const TWO_64: nat := 0x1_0000_0000_0000_0000

  /** A key or a value whose length fits the 32-bit length field of a record. */
  type Field = b: Bytes | |b| < TWO_32

  // ----- little-endian fields -----

  function Pow256(n: nat): (p: nat)
    ensures p > 0
  {
    if n == 0 then 1 else 256 * Pow256(n - 1)
  }

  /** The low `n` bytes of `v`, least significant first. */
  function LittleEndian(v: nat, n: nat): (b: Bytes)
    ensures |b| == n
  {
    if n == 0 then [] else [v % 256] + LittleEndian(v / 256, n - 1)
  }

  function FromLittleEndian(b: Bytes): nat {
    if b == [] then 0 else b[0] + 256 * FromLittleEndian(b[1..])
  }

  /** Where each byte of a number goes. */
  lemma {:induction false} LittleEndianAt(v: nat, n: nat, i: nat)
    requires i < n
    ensures LittleEndian(v, n)[i] == v / Pow256(i) % 256
  {
    if i > 0 {
      LittleEndianAt(v / 256, n - 1, i - 1);
      DivideTwice(v, 256, Pow256(i - 1));
    }
  }

  lemma DivideTwice(v: nat, a: nat, p: nat)
    requires a > 0 && p > 0
    ensures v / a / p == v / (a * p)
  {
    var q, m := v / a / p, v / a % p;
    assert v / a == q * p + m;
    assert v == (q * p + m) * a + v % a;
    Regroup(q, p, m, a);
    AtMost(m, p - 1, a);
    QuotientUnique(v, a * p, q, m * a + v % a);
  }

  lemma Regroup(q: nat, p: nat, m: nat, a: nat)
    ensures (q * p + m) * a == q * (a * p) + m * a
  {
  }

  lemma AtMost(m: nat, n: nat, a: nat)
    requires m <= n
    ensures m * a <= n * a && n * a + a == a * (n + 1)
  {
  }

  lemma QuotientUnique(v: nat, d: nat, q: int, r: nat)
    requires d > 0 && v == q * d + r && r < d
    ensures v / d == q
  {
    var q', r' := v / d, v % d;
    assert v == q' * d + r';
    ModulusUnique(v, d, q, r);
    Distribute(q, q', d);
    if q > q' {
      AtLeastOnce(q - q', d);
    } else if q < q' {
      AtLeastOnce(q' - q, d);
      Distribute(q', q, d);
    }
  }

  /** Reading a field back gives the value that was cast to the field's width. */
  lemma {:induction false} LittleEndianRoundTrip(v: nat, n: nat)
    ensures FromLittleEndian(LittleEndian(v, n)) == v % Pow256(n)
  {
    if n > 0 {
      var p := Pow256(n - 1);
      LittleEndianRoundTrip(v / 256, n - 1);
      assert LittleEndian(v, n)[1..] == LittleEndian(v / 256, n - 1);
      SplitModulus(v, p);
    }
  }

  lemma SplitModulus(v: nat, p: nat)
    requires p > 0
    ensures v % (256 * p) == v % 256 + 256 * (v / 256 % p)
  {
    var q := v / 256 / p;
    var r := v % 256 + 256 * (v / 256 % p);
    assert v / 256 == q * p + v / 256 % p;
    assert v == q * (256 * p) + r;
    assert 0 <= r < 256 * p;
    ModulusUnique(v, 256 * p, q, r);
  }

  lemma ModulusUnique(v: nat, d: nat, q: int, r: nat)
    requires d > 0 && v == q * d + r && r < d
    ensures v % d == r
  {
    var q', r' := v / d, v % d;
    assert v == q' * d + r';
    Distribute(q, q', d);
    if q > q' {
      AtLeastOnce(q - q', d);
    } else if q < q' {
      AtLeastOnce(q' - q, d);
      Distribute(q', q, d);
    }
  }

  lemma Distribute(x: int, y: int, d: int)
    ensures (x - y) * d == x * d - y * d
  {
  }

  lemma AtLeastOnce(k: int, d: nat)
    requires k >= 1
    ensures k * d >= d
  {
    assert k * d == d + (k - 1) * d;
  }

  lemma {:induction false} LittleEndianOfBytes(b: Bytes)
    ensures FromLittleEndian(b) < Pow256(|b|)
    ensures LittleEndian(FromLittleEndian(b), |b|) == b
  {
    if b != [] {
      LittleEndianOfBytes(b[1..]);
      var v := FromLittleEndian(b);
      assert v % 256 == b[0] && v / 256 == FromLittleEndian(b[1..]);
      assert b == [b[0]] + b[1..];
    }
  }

  lemma FieldWidths()
    ensures Pow256(4) == TWO_32 && Pow256(8) == TWO_64
  {
    assert Pow256(2) == 65536;
    assert Pow256(3) == 16777216;
    assert Pow256(4) == TWO_32;
    assert Pow256(6) == TWO_32 * 65536;
  }

  /** A four-byte field read back: exact for 32-bit values, the low 32 bits otherwise. */
  lemma Uint32RoundTrip(v: nat)
    ensures FromLittleEndian(LittleEndian(v, 4)) == v % TWO_32
    ensures v < TWO_32 ==> FromLittleEndian(LittleEndian(v, 4)) == v
  {
    LittleEndianRoundTrip(v, 4);
    FieldWidths();
  }

  lemma Uint64RoundTrip(v: nat)
    ensures FromLittleEndian(LittleEndian(v, 8)) == v % TWO_64
    ensures v < TWO_64 ==> FromLittleEndian(LittleEndian(v, 8)) == v
  {
    LittleEndianRoundTrip(v, 8);
    FieldWidths();
  }

  lemma Uint32Range(b: Bytes)
    requires |b| == 4
    ensures FromLittleEndian(b) < TWO_32
    ensures LittleEndian(FromLittleEndian(b), 4) == b
  {
    LittleEndianOfBytes(b);
    FieldWidths();
  }

  method PutUint32LE(out: Bytes, value: nat) returns (r: Bytes)
    ensures r == out + LittleEndian(value, 4)
  {
    r := out;
    r := r + [value % 256];
    r := r + [value / 256 % 256];
    r := r + [value / 65536 % 256];
    r := r + [value / 16777216 % 256];
    assert LittleEndian(value, 4) ==
           [value % 256] + ([value / 256 % 256] + ([value / 256 / 256 % 256] + [value / 256 / 256 / 256 % 256])) by {
      assert LittleEndian(value / 256 / 256, 2) ==
             [value / 256 / 256 % 256] + [value / 256 / 256 / 256 % 256];
    }
  }

  function GetUint32LE(b: Bytes): (v: nat)
    requires |b| == 4
    ensures v == FromLittleEndian(b)
  {
    var b0: int, b1: int, b2: int, b3: int := b[0], b[1], b[2], b[3];
    assert FromLittleEndian(b[3..]) == b3;
    assert b[2..][1..] == b[3..] && FromLittleEndian(b[2..]) == b2 + 256 * b3;
    assert b[1..][1..] == b[2..];
    b0 + 256 * b1 + 65536 * b2 + 16777216 * b3
  }

  lemma NoBytes(value: nat)
    ensures LittleEndian(value, 0) == []
  {
  }

  lemma NextByte(r: Bytes, rest: nat, n: nat)
    requires n > 0
    ensures r + [rest % 256] + LittleEndian(rest / 256, n - 1) == r + LittleEndian(rest, n)
  {
  }

  method PutUint64LE(out: Bytes, value: nat) returns (r: Bytes)
    ensures r == out + LittleEndian(value, 8)
  {
    hide LittleEndian;
    r := out;
    var rest := value;
    for i := 0 to 8
      invariant r + LittleEndian(rest, 8 - i) == out + LittleEndian(value, 8)
    {
      NextByte(r, rest, 8 - i);
      r := r + [rest % 256];
      rest := rest / 256;
    }
    assert LittleEndian(rest, 0) == [] by { NoBytes(rest); }
  }

  method GetUint64LE(b: Bytes) returns (value: nat)
    requires |b| == 8
    ensures value == FromLittleEndian(b)
  {
    value := 0;
    var weight := 1;
    for i := 0 to 8
      invariant weight == Pow256(i)
      invariant value + weight * FromLittleEndian(b[i..]) == FromLittleEndian(b)
    {
      assert b[i..][1..] == b[i + 1..];
      assert FromLittleEndian(b[i..]) == b[i] + 256 * FromLittleEndian(b[i + 1..]);
      WeightedSplit(weight, b[i], FromLittleEndian(b[i + 1..]));
      value := value + weight * b[i];
      weight := 256 * weight;
    }
  }

  lemma WeightedSplit(w: int, x: int, y: int)
    ensures w * (x + 256 * y) == w * x + 256 * w * y
  {
  }

  // ----- key order -----

  /** `std::string`'s `<`: unsigned bytes, lexicographically. */
  predicate Less(a: Bytes, b: Bytes) {
    b != [] && (a == [] || a[0] < b[0] || (a[0] == b[0] && Less(a[1..], b[1..])))
  }

  /** The order in words: at the first position where the two differ, `a` has ended, or has the
      smaller byte. */
  lemma {:induction false} LessMeans(a: Bytes, b: Bytes)
    ensures Less(a, b)
            <==> exists n :: 0 <= n <= |a| && n < |b| && a[..n] == b[..n] && (n == |a| || a[n] < b[n])
  {
    if a != [] && b != [] && a[0] == b[0] {
      LessMeans(a[1..], b[1..]);
      if Less(a, b) {
        var n :| 0 <= n <= |a[1..]| && n < |b[1..]| && a[1..][..n] == b[1..][..n]
                 && (n == |a[1..]| || a[1..][n] < b[1..][n]);
        SamePrefix(a, b, n);
        assert a[..n + 1] == b[..n + 1];
      }
      if n :| 0 <= n <= |a| && n < |b| && a[..n] == b[..n] && (n == |a| || a[n] < b[n]) {
        assert n > 0;
        assert a[1..][..n - 1] == a[..n][1..] && b[1..][..n - 1] == b[..n][1..];
      }
    } else {
      assert a[..0] == b[..0];
      if n :| 0 <= n <= |a| && n < |b| && a[..n] == b[..n] && (n == |a| || a[n] < b[n]) {
        SameStart(a, b, n);
      }
    }
  }

  lemma SameStart(a: Bytes, b: Bytes, n: nat)
    requires n <= |a| && n <= |b| && a[..n] == b[..n]
    ensures n > 0 ==> a[0] == b[0]
  {
    assert n > 0 ==> a[..n][0] == a[0] && b[..n][0] == b[0];
  }

  lemma SamePrefix(a: Bytes, b: Bytes, n: nat)
    requires a != [] && b != [] && a[0] == b[0] && n < |a| && n < |b| && a[1..][..n] == b[1..][..n]
    ensures a[..n + 1] == b[..n + 1]
  {
    assert a[..n + 1] == [a[0]] + a[1..][..n];
    assert b[..n + 1] == [b[0]] + b[1..][..n];
  }

  lemma {:induction false} LessIrreflexive(a: Bytes)
    ensures !Less(a, a)
  {
    if a != [] {
      LessIrreflexive(a[1..]);
    }
  }

  lemma {:induction false} LessTransitive(a: Bytes, b: Bytes, c: Bytes)
    requires Less(a, b) && Less(b, c)
    ensures Less(a, c)
  {
    if a != [] && a[0] == b[0] && b[0] == c[0] {
      LessTransitive(a[1..], b[1..], c[1..]);
    }
  }

  lemma {:induction false} LessTotal(a: Bytes, b: Bytes)
    ensures a == b || Less(a, b) || Less(b, a)
  {
    if a != [] && b != [] && a[0] == b[0] {
      LessTotal(a[1..], b[1..]);
      assert a == [a[0]] + a[1..] && b == [b[0]] + b[1..];
    }
  }

  lemma LessAsymmetric(a: Bytes, b: Bytes)
    requires Less(a, b)
    ensures !Less(b, a) && a != b
  {
    if Less(b, a) {
      LessTransitive(a, b, a);
    }
    LessIrreflexive(a);
  }
}
