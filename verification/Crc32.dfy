/** The table-driven checksum of `src/wal_record.cpp`, its bit-by-bit definition (the sample
    code of section 8 of RFC 1952) and the damage it is certain to detect.

    A `uint32_t` register is modelled by its 32 bits, least significant first, so that
    `c >> n` drops the first `n` bits and `c & 0xFF` keeps the first eight. */
module Crc32 {
  import opened ByteUtil

  // ----- numbers and their bits -----

  function PowerOfTwo(n: nat): (p: nat)
    ensures p > 0
  {
    if n == 0 then 1 else 2 * PowerOfTwo(n - 1)
  }

  lemma Powers()
    ensures PowerOfTwo(8) == 256 && PowerOfTwo(31) == 0x8000_0000 && PowerOfTwo(32) == TWO_32
  {
    PowerSum(8, 8);
    PowerSum(16, 16);
  }

  lemma {:induction false} PowerSum(m: nat, n: nat)
    ensures PowerOfTwo(m + n) == PowerOfTwo(m) * PowerOfTwo(n)
  {
    if n > 0 {
      PowerSum(m, n - 1);
    }
  }

  /** The low `k` bits of `n`, least significant first. */
  function Bits(n: nat, k: nat): (b: seq<bool>)
    ensures |b| == k
  {
    if k == 0 then [] else [n % 2 == 1] + Bits(n / 2, k - 1)
  }

  function Number(b: seq<bool>): nat {
    if b == [] then 0 else (if b[0] then 1 else 0) + 2 * Number(b[1..])
  }

  function Zeros(n: nat): (z: seq<bool>)
    ensures |z| == n && forall i :: 0 <= i < n ==> !z[i]
  {
    seq(n, i => false)
  }

  lemma {:induction false} BitsOfNumber(b: seq<bool>)
    ensures Number(b) < PowerOfTwo(|b|)
    ensures Bits(Number(b), |b|) == b
  {
    if b != [] {
      BitsOfNumber(b[1..]);
      assert Number(b) / 2 == Number(b[1..]);
      assert b == [b[0]] + b[1..];
    }
  }

  lemma {:induction false} NumberOfBits(n: nat, k: nat)
    requires n < PowerOfTwo(k)
    ensures Number(Bits(n, k)) == n
  {
    if k > 0 {
      NumberOfBits(n / 2, k - 1);
      assert Bits(n, k)[1..] == Bits(n / 2, k - 1);
    }
  }

  /** A number below 2^k has no bits beyond the first k. */
  lemma {:induction false} BitsPadded(n: nat, k: nat, width: nat)
    requires n < PowerOfTwo(k) && k <= width
    ensures Bits(n, width) == Bits(n, k) + Zeros(width - k)
  {
    if width > 0 {
      if k == 0 {
        BitsPadded(0, 0, width - 1);
      } else {
        BitsPadded(n / 2, k - 1, width - 1);
      }
    }
  }

  lemma {:induction false} TopBit(n: nat, k: nat)
    requires k > 0 && PowerOfTwo(k - 1) <= n < PowerOfTwo(k)
    ensures Bits(n, k)[k - 1]
  {
    if k > 1 {
      TopBit(n / 2, k - 1);
    }
  }

  // ----- the checksum -----

  type Word = w: seq<bool> | |w| == 32 witness seq(32, i => false)

  function Xor(a: Word, b: Word): (r: Word)
    ensures forall i :: 0 <= i < 32 ==> r[i] == (a[i] != b[i])
  {
    seq(32, i requires 0 <= i < 32 => a[i] != b[i])
  }

  function ShiftRight(c: Word, n: nat): Word
    requires n <= 32
  {
    c[n..] + Zeros(n)
  }

  /** The initial register and final mask 0xFFFFFFFF. */
  function AllOnes(): (w: Word)
    ensures forall i :: 0 <= i < 32 ==> w[i]
  {
    seq(32, i => true)
  }

  /** The reflected polynomial 0xEDB88320; its top bit is what makes a step reversible. */
  function Polynomial(): (p: Word)
    ensures p[31]
  {
    Powers();
    TopBit(0xEDB8_8320, 32);
    Bits(0xEDB8_8320, 32)
  }

  function ByteWord(b: Byte): Word {
    Bits(b, 32)
  }

  /** One step of the register: the inner loop body of the table construction. */
  function BitStep(c: Word): Word {
    if c[0] then Xor(ShiftRight(c, 1), Polynomial()) else ShiftRight(c, 1)
  }

  function BitSteps(c: Word, n: nat): Word {
    if n == 0 then c else BitStep(BitSteps(c, n - 1))
  }

  /** The bit-by-bit register after `data`, started at `c`. */
  function Run(c: Word, data: Bytes): Word
    decreases |data|
  {
    if data == [] then c else Run(BitSteps(Xor(c, ByteWord(data[0])), 8), data[1..])
  }

  function Checksum(data: Bytes): Word {
    Xor(Run(AllOnes(), data), AllOnes())
  }

  /** The checksum as the 32-bit number that the record header stores. */
  function Crc(data: Bytes): (crc: nat)
    ensures crc < TWO_32
  {
    Powers();
    BitsOfNumber(Checksum(data));
    Number(Checksum(data))
  }

  lemma XorInjective(a: Word, b: Word, c: Word)
    requires Xor(a, c) == Xor(b, c) || Xor(c, a) == Xor(c, b)
    ensures a == b
  {
    forall i | 0 <= i < 32
      ensures a[i] == b[i]
    {
      assert Xor(a, c)[i] == (a[i] != c[i]) && Xor(b, c)[i] == (b[i] != c[i]);
      assert Xor(c, a)[i] == (c[i] != a[i]) && Xor(c, b)[i] == (c[i] != b[i]);
    }
  }

  lemma CrcInjective(a: Bytes, b: Bytes)
    requires Crc(a) == Crc(b)
    ensures Run(AllOnes(), a) == Run(AllOnes(), b)
  {
    BitsOfNumber(Checksum(a));
    BitsOfNumber(Checksum(b));
    XorInjective(Run(AllOnes(), a), Run(AllOnes(), b), AllOnes());
  }

  // ----- the register is linear and reversible -----

  lemma BitStepLinear(a: Word, b: Word)
    ensures BitStep(Xor(a, b)) == Xor(BitStep(a), BitStep(b))
  {
    forall i | 0 <= i < 32
      ensures BitStep(Xor(a, b))[i] == Xor(BitStep(a), BitStep(b))[i]
    {
      BitStepAt(a, i);
      BitStepAt(b, i);
      BitStepAt(Xor(a, b), i);
    }
  }

  lemma BitStepAt(c: Word, i: nat)
    requires i < 32
    ensures BitStep(c)[i] == ((i < 31 && c[i + 1]) != (c[0] && Polynomial()[i]))
  {
  }

  lemma {:induction false} BitStepsLinear(a: Word, b: Word, n: nat)
    ensures BitSteps(Xor(a, b), n) == Xor(BitSteps(a, n), BitSteps(b, n))
  {
    if n > 0 {
      BitStepsLinear(a, b, n - 1);
      BitStepLinear(BitSteps(a, n - 1), BitSteps(b, n - 1));
    }
  }

  lemma BitStepInjective(a: Word, b: Word)
    requires BitStep(a) == BitStep(b)
    ensures a == b
  {
    BitStepAt(a, 31);
    BitStepAt(b, 31);
    assert a[0] == b[0];
    forall i | 0 < i < 32
      ensures a[i] == b[i]
    {
      BitStepAt(a, i - 1);
      BitStepAt(b, i - 1);
    }
  }

  lemma {:induction false} BitStepsInjective(a: Word, b: Word, n: nat)
    requires BitSteps(a, n) == BitSteps(b, n)
    ensures a == b
  {
    if n > 0 {
      BitStepInjective(BitSteps(a, n - 1), BitSteps(b, n - 1));
      BitStepsInjective(a, b, n - 1);
    }
  }

  lemma {:induction false} BitStepsCompose(c: Word, m: nat, n: nat)
    ensures BitSteps(BitSteps(c, m), n) == BitSteps(c, m + n)
  {
    hide BitStep;
    if n > 0 {
      BitStepsCompose(c, m, n - 1);
    }
  }

  /** Steps over clear low bits only shift. */
  lemma {:induction false} BitStepsShift(c: Word, n: nat)
    requires n <= 32 && forall i :: 0 <= i < n ==> !c[i]
    ensures BitSteps(c, n) == ShiftRight(c, n)
  {
    if n > 0 {
      BitStepsShift(c, n - 1);
      assert ShiftRight(c, n - 1)[0] == c[n - 1];
    }
  }

  // ----- the table agrees with the bit-by-bit definition -----

  predicate IsCrcTable(table: seq<Word>) {
    |table| == 256 && forall i: nat :: i < 256 ==> table[i] == BitSteps(Bits(i, 32), 8)
  }

  /** A word is its low byte, as the index reads it, combined with the rest. */
  lemma LowByte(x: Word, high: Word)
    requires high == Zeros(8) + x[8..]
    ensures Number(x[..8]) < 256
    ensures Xor(Bits(Number(x[..8]), 32), high) == x
  {
    var low: Word := Bits(Number(x[..8]), 32);
    assert Number(x[..8]) < 256 && low == x[..8] + Zeros(24) by {
      Powers();
      BitsOfNumber(x[..8]);
      BitsPadded(Number(x[..8]), 8, 32);
    }
    forall i | 0 <= i < 32
      ensures Xor(low, high)[i] == x[i]
    {
      assert Xor(low, high)[i] == (low[i] != high[i]);
    }
  }

  /** Combining with a byte leaves the upper 24 bits alone. */
  lemma UpperBits(c: Word, b: Byte)
    ensures Xor(c, ByteWord(b))[8..] == c[8..]
  {
    Powers();
    BitsPadded(b, 8, 32);
  }

  /** One table look-up advances the register by the eight bit steps of one byte. */
  lemma TableStep(c: Word, b: Byte, table: seq<Word>)
    requires IsCrcTable(table)
    ensures var x := Xor(c, ByteWord(b));
            var i := Number(x[..8]);
            i < 256 && Xor(table[i], ShiftRight(c, 8)) == BitSteps(x, 8)
  {
    var x := Xor(c, ByteWord(b));
    var high: Word := Zeros(8) + x[8..];
    LowByte(x, high);
    UpperBits(c, b);
    BitStepsLinear(Bits(Number(x[..8]), 32), high, 8);
    BitStepsShift(high, 8);
    assert ShiftRight(high, 8) == ShiftRight(c, 8);
  }

  method MakeCrc32Table() returns (table: array<Word>)
    ensures IsCrcTable(table[..])
  {
    table := new Word[256];
    for i := 0 to 256
      invariant forall k: nat :: k < i ==> table[k] == BitSteps(Bits(k, 32), 8)
    {
      var crc: Word := Bits(i, 32);
      for bit := 0 to 8
        invariant crc == BitSteps(Bits(i, 32), bit)
      {
        crc := if crc[0] then Xor(ShiftRight(crc, 1), Polynomial()) else ShiftRight(crc, 1);
      }
      table[i] := crc;
    }
  }

  method ComputeCrc32(data: Bytes) returns (crc: nat)
    ensures crc == Crc(data)
  {
    var table := MakeCrc32Table();
    var c := AllOnes();
    for i := 0 to |data|
      invariant IsCrcTable(table[..])
      invariant Run(c, data[i..]) == Run(AllOnes(), data)
    {
      TableStep(c, data[i], table[..]);
      assert data[i..][1..] == data[i + 1..];
      c := Xor(table[Number(Xor(c, ByteWord(data[i]))[..8])], ShiftRight(c, 8));
    }
    crc := Number(Xor(c, AllOnes()));
  }

  // ----- detection: four consecutive bytes -----

  lemma {:induction false} RunConcat(c: Word, a: Bytes, b: Bytes)
    ensures Run(c, a + b) == Run(Run(c, a), b)
    decreases |a|
  {
    if a == [] {
      assert a + b == b;
    } else {
      assert (a + b)[1..] == a[1..] + b;
      RunConcat(BitSteps(Xor(c, ByteWord(a[0])), 8), a[1..], b);
    }
  }

  lemma {:induction false} RunInjective(c: Word, d: Word, data: Bytes)
    requires Run(c, data) == Run(d, data)
    ensures c == d
    decreases |data|
  {
    if data != [] {
      var w := ByteWord(data[0]);
      RunInjective(BitSteps(Xor(c, w), 8), BitSteps(Xor(d, w), 8), data[1..]);
      BitStepsInjective(Xor(c, w), Xor(d, w), 8);
      XorInjective(c, d, w);
    }
  }

  function BytesBits(w: Bytes): (b: seq<bool>)
    ensures |b| == 8 * |w|
  {
    if w == [] then [] else Bits(w[0], 8) + BytesBits(w[1..])
  }

  /** Up to four bytes packed into one word, first byte lowest. */
  function Window(w: Bytes): Word
    requires |w| <= 4
  {
    BytesBits(w) + Zeros(32 - 8 * |w|)
  }

  lemma {:induction false} BytesBitsInjective(v: Bytes, w: Bytes)
    requires |v| == |w| && BytesBits(v) == BytesBits(w)
    ensures v == w
  {
    if v != [] {
      var b, c := BytesBits(v), BytesBits(w);
      assert b[..8] == Bits(v[0], 8) && c[..8] == Bits(w[0], 8);
      assert b[8..] == BytesBits(v[1..]) && c[8..] == BytesBits(w[1..]);
      Powers();
      NumberOfBits(v[0], 8);
      NumberOfBits(w[0], 8);
      BytesBitsInjective(v[1..], w[1..]);
      assert v == [v[0]] + v[1..] && w == [w[0]] + w[1..];
    }
  }

  /** Feeding up to four bytes is adding their packed word and stepping it through. */
  lemma {:induction false} WindowRun(c: Word, w: Bytes)
    requires |w| <= 4
    ensures Run(c, w) == BitSteps(Xor(c, Window(w)), 8 * |w|)
    decreases |w|
  {
    if w == [] {
      assert Xor(c, Window(w)) == c;
    } else {
      var b, rest := ByteWord(w[0]), Window(w[1..]);
      var shifted: Word := Zeros(8) + rest[..24];
      Powers();
      BitsPadded(w[0], 8, 32);
      assert Xor(c, Window(w)) == Xor(Xor(c, b), shifted);
      BitStepsShift(shifted, 8);
      assert ShiftRight(shifted, 8) == rest;
      BitStepsLinear(Xor(c, b), shifted, 8);
      BitStepsCompose(Xor(c, Window(w)), 8, 8 * (|w| - 1));
      WindowRun(BitSteps(Xor(c, b), 8), w[1..]);
    }
  }

  /** Two inputs of equal length that differ only within four consecutive bytes have
      different checksums. */
  lemma DetectsWindow(before: Bytes, v: Bytes, w: Bytes, after: Bytes)
    requires |v| == |w| <= 4 && v != w
    ensures Crc(before + v + after) != Crc(before + w + after)
  {
    if Crc(before + v + after) == Crc(before + w + after) {
      CrcInjective(before + v + after, before + w + after);
      SplitRun(before, v, after);
      SplitRun(before, w, after);
      var c := Run(AllOnes(), before);
      RunInjective(Run(c, v), Run(c, w), after);
      WindowRun(c, v);
      WindowRun(c, w);
      BitStepsInjective(Xor(c, Window(v)), Xor(c, Window(w)), 8 * |v|);
      XorInjective(Window(v), Window(w), c);
      assert Window(v)[..8 * |v|] == BytesBits(v) && Window(w)[..8 * |v|] == BytesBits(w);
      BytesBitsInjective(v, w);
    }
  }

  lemma SplitRun(before: Bytes, v: Bytes, after: Bytes)
    ensures Run(AllOnes(), before + v + after) == Run(Run(Run(AllOnes(), before), v), after)
  {
    RunConcat(AllOnes(), before + v, after);
    RunConcat(AllOnes(), before, v);
  }
}
