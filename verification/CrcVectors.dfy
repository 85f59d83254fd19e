/** The register as the `uint32_t` of `src/wal_record.cpp`, and what that pins down about the
    checksum: its residue for all data, and its standard check value. */
module CrcVectors {
  import opened ByteUtil
  import opened Crc32

  // ----- a register and its 32 bits -----

  function Half(v: bv32): bv32 {
    v >> 1
  }

  predicate Low(v: bv32) {
    v & 1 == 1
  }

  /** Without its low byte. */
  function Rest(v: bv32): bv32 {
    v >> 8
  }

  function Mix(a: bv32, b: bv32): bv32 {
    a ^ b
  }

  function BitsOf(v: bv32, k: nat): (b: seq<bool>)
    ensures |b| == k
    decreases k
  {
    if k == 0 then [] else [Low(v)] + BitsOf(Half(v), k - 1)
  }

  function WordOf(v: bv32): Word {
    BitsOf(v, 32)
  }

  function Shifted(v: bv32, n: nat): bv32
    decreases n
  {
    if n == 0 then v else Shifted(Half(v), n - 1)
  }

  lemma MixHalves(a: bv32, b: bv32)
    ensures Half(Mix(a, b)) == Mix(Half(a), Half(b))
    ensures Low(Mix(a, b)) <==> Low(a) != Low(b)
  {
  }

  lemma {:induction false} MixBits(a: bv32, b: bv32, k: nat)
    ensures forall i :: 0 <= i < k ==> BitsOf(Mix(a, b), k)[i] == (BitsOf(a, k)[i] != BitsOf(b, k)[i])
    decreases k
  {
    hide Half, Low, Mix;
    if k > 0 {
      MixHalves(a, b);
      MixBits(Half(a), Half(b), k - 1);
    }
  }

  lemma XorWords(a: bv32, b: bv32)
    ensures Xor(WordOf(a), WordOf(b)) == WordOf(Mix(a, b))
  {
    hide BitsOf, Mix;
    MixBits(a, b, 32);
  }

  lemma {:induction false} BitsOfEnd(v: bv32, k: nat)
    ensures BitsOf(v, k + 1) == BitsOf(v, k) + [Low(Shifted(v, k))]
    decreases k
  {
    hide Half, Low;
    if k > 0 {
      BitsOfEnd(Half(v), k - 1);
    }
  }

  lemma {:induction false} ShiftedTwice(v: bv32, m: nat, n: nat)
    ensures Shifted(Shifted(v, m), n) == Shifted(v, m + n)
    decreases m
  {
    hide Half;
    if m > 0 {
      ShiftedTwice(Half(v), m - 1, n);
    }
  }

  lemma ShiftedEight(v: bv32)
    ensures Shifted(v, 8) == Rest(v)
  {
    assert Shifted(v, 4) == Half(Half(Half(Half(v))));
    assert Shifted(Shifted(v, 4), 4) == Half(Half(Half(Half(Shifted(v, 4)))));
    ShiftedTwice(v, 4, 4);
  }

  lemma ShiftedAll(v: bv32)
    ensures Shifted(v, 32) == Rest(Rest(Rest(Rest(v))))
  {
    hide Shifted, Rest;
    ShiftedEight(v);
    ShiftedEight(Rest(v));
    ShiftedEight(Rest(Rest(v)));
    ShiftedEight(Rest(Rest(Rest(v))));
    ShiftedTwice(v, 8, 8);
    ShiftedTwice(v, 16, 8);
    ShiftedTwice(v, 24, 8);
  }

  lemma NothingLeft(v: bv32)
    ensures !Low(Rest(Rest(Rest(Rest(v)))))
  {
  }

  lemma ShiftWord(v: bv32)
    ensures ShiftRight(WordOf(v), 1) == WordOf(Half(v))
  {
    hide Half, Rest, Low;
    BitsOfEnd(Half(v), 31);
    ShiftedAll(v);
    NothingLeft(v);
    assert Shifted(v, 32) == Shifted(Half(v), 31);
    assert WordOf(v)[1..] == BitsOf(Half(v), 31);
  }

  // ----- the number of a register -----

  function NumberOf(v: bv32, k: nat): nat
    decreases k
  {
    if k == 0 then 0 else (if Low(v) then 1 else 0) + 2 * NumberOf(Half(v), k - 1)
  }

  lemma {:induction false} NumberOfBitsOf(v: bv32, k: nat)
    ensures Number(BitsOf(v, k)) == NumberOf(v, k)
    decreases k
  {
    hide Half, Low;
    if k > 0 {
      NumberOfBitsOf(Half(v), k - 1);
      assert BitsOf(v, k)[1..] == BitsOf(Half(v), k - 1);
    }
  }

  lemma {:induction false} NumberOfSplit(v: bv32, m: nat, n: nat)
    ensures NumberOf(v, m + n) == NumberOf(v, m) + PowerOfTwo(m) * NumberOf(Shifted(v, m), n)
    decreases m
  {
    hide Half, Low;
    if m > 0 {
      NumberOfSplit(Half(v), m - 1, n);
      Twice(PowerOfTwo(m - 1), NumberOf(Shifted(v, m), n));
    }
  }

  lemma Twice(p: nat, x: nat)
    ensures 2 * p * x == 2 * (p * x)
  {
  }

  lemma NumberOfBytes(v: bv32)
    ensures NumberOf(v, 32) == NumberOf(v, 8) + 256 * NumberOf(Rest(v), 8)
                               + 65536 * NumberOf(Rest(Rest(v)), 8) + 16777216 * NumberOf(Rest(Rest(Rest(v))), 8)
  {
    hide NumberOf, Shifted, Rest;
    Powers();
    ShiftedEight(v);
    ShiftedEight(Rest(v));
    ShiftedEight(Rest(Rest(v)));
    NumberOfSplit(v, 8, 24);
    NumberOfSplit(Rest(v), 8, 16);
    NumberOfSplit(Rest(Rest(v)), 8, 8);
  }

  function Flag(b: bool, weight: nat): nat {
    if b then weight else 0
  }

  function LowByte(v: bv32): nat {
    Flag(v & 0x01 != 0, 1) + Flag(v & 0x02 != 0, 2) + Flag(v & 0x04 != 0, 4) + Flag(v & 0x08 != 0, 8)
    + Flag(v & 0x10 != 0, 16) + Flag(v & 0x20 != 0, 32) + Flag(v & 0x40 != 0, 64) + Flag(v & 0x80 != 0, 128)
  }

  lemma NumberOfNibble(v: bv32)
    ensures NumberOf(v, 4) == Flag(v & 0x01 != 0, 1) + Flag(v & 0x02 != 0, 2)
                              + Flag(v & 0x04 != 0, 4) + Flag(v & 0x08 != 0, 8)
  {
  }

  lemma NumberOfByte(v: bv32)
    ensures NumberOf(v, 8) == LowByte(v)
  {
    hide NumberOf;
    NumberOfNibble(v);
    NumberOfNibble(v >> 4);
    NumberOfSplit(v, 4, 4);
    assert Shifted(v, 4) == Half(Half(Half(Half(v)))) == v >> 4;
    assert PowerOfTwo(4) == 16;
  }

  /** `v` is the register that holds the number `n`. */
  predicate Holds(v: bv32, n: nat) {
    LowByte(v) + 256 * LowByte(Rest(v)) + 65536 * LowByte(Rest(Rest(v))) + 16777216 * LowByte(Rest(Rest(Rest(v)))) == n
  }

  lemma HoldsWord(v: bv32, n: nat)
    requires Holds(v, n)
    ensures WordOf(v) == Bits(n, 32) && Number(WordOf(v)) == n
  {
    hide BitsOf, NumberOf, LowByte, Rest;
    NumberOfBytes(v);
    NumberOfByte(v);
    NumberOfByte(Rest(v));
    NumberOfByte(Rest(Rest(v)));
    NumberOfByte(Rest(Rest(Rest(v))));
    NumberOfBitsOf(v, 32);
    BitsOfNumber(WordOf(v));
  }

  lemma {:induction false} OnesBits(n: nat, k: nat)
    requires n == PowerOfTwo(k) - 1
    ensures forall i :: 0 <= i < k ==> Bits(n, k)[i]
  {
    if k > 0 {
      OnesBits(n / 2, k - 1);
    }
  }

  lemma Constants()
    ensures Polynomial() == WordOf(0xEDB8_8320) && AllOnes() == WordOf(0xFFFF_FFFF)
  {
    hide BitsOf, Bits;
    assert Holds(0xEDB8_8320, 0xEDB8_8320);
    HoldsWord(0xEDB8_8320, 0xEDB8_8320);
    assert Holds(0xFFFF_FFFF, 0xFFFF_FFFF);
    HoldsWord(0xFFFF_FFFF, 0xFFFF_FFFF);
    Powers();
    OnesBits(0xFFFF_FFFF, 32);
    assert Polynomial() == Bits(0xEDB8_8320, 32);
  }

  // ----- the register step of the source -----

  function Step(c: bv32): bv32 {
    if c & 1 == 1 then (c >> 1) ^ 0xEDB8_8320 else c >> 1
  }

  function Steps(c: bv32, n: nat): bv32
    decreases n
  {
    if n == 0 then c else Steps(Step(c), n - 1)
  }

  lemma StepIs(c: bv32)
    ensures Step(c) == if Low(c) then Mix(Half(c), 0xEDB8_8320) else Half(c)
  {
  }

  lemma StepWord(c: bv32)
    ensures BitStep(WordOf(c)) == WordOf(Step(c))
  {
    hide Half, Low, Mix, Step;
    StepIs(c);
    ShiftWord(c);
    XorWords(Half(c), 0xEDB8_8320);
    Constants();
  }

  lemma {:induction false} StepsWord(c: bv32, n: nat)
    ensures BitSteps(WordOf(c), n) == WordOf(Steps(c, n))
    decreases n
  {
    hide Step, WordOf, BitStep;
    if n > 0 {
      StepWord(c);
      StepsWord(Step(c), n - 1);
      BitStepsCompose(WordOf(c), 1, n - 1);
      assert BitSteps(WordOf(c), 1) == BitStep(BitSteps(WordOf(c), 0));
    }
  }

  // ----- the residue -----

  lemma {:induction false} BitsSplit(v: nat, m: nat, n: nat, high: nat)
    requires high == v / PowerOfTwo(m)
    ensures Bits(v, m + n) == Bits(v, m) + Bits(high, n)
  {
    if m > 0 {
      DivideTwice(v, 2, PowerOfTwo(m - 1));
      BitsSplit(v / 2, m - 1, n, high);
    }
  }

  /** Higher bits do not matter. */
  lemma {:induction false} LowBits(u: nat, q: nat, k: nat)
    ensures Bits(u + PowerOfTwo(k) * q, k) == Bits(u, k)
  {
    if k > 0 {
      Twice(PowerOfTwo(k - 1), q);
      LowBits(u / 2, q, k - 1);
      assert (u + 2 * (PowerOfTwo(k - 1) * q)) / 2 == u / 2 + PowerOfTwo(k - 1) * q;
    }
  }

  /** A little-endian field holds the bits of its number. */
  lemma {:induction false} FieldBits(v: nat, n: nat)
    ensures BytesBits(LittleEndian(v, n)) == Bits(v, 8 * n)
  {
    hide Bits;
    if n > 0 {
      FieldBits(v / 256, n - 1);
      Powers();
      BitsSplit(v, 8, 8 * (n - 1), v / 256);
      LowBits(v % 256, v / 256, 8);
      assert LittleEndian(v, n)[1..] == LittleEndian(v / 256, n - 1);
    } else {
      assert Bits(v, 0) == [];
    }
  }

  /** Feeding a register its own inverse, as the stored checksum does, leaves all ones. */
  lemma FedBack(c: Word)
    ensures Xor(c, Xor(c, AllOnes())) == AllOnes()
  {
  }

  lemma {:induction false} StepsConcat(c: bv32, m: nat, n: nat)
    ensures Steps(c, m + n) == Steps(Steps(c, m), n)
    decreases m
  {
    hide Step;
    if m > 0 {
      StepsConcat(Step(c), m - 1, n);
    }
  }

  lemma ResidueSteps()
    ensures Steps(0xFFFF_FFFF, 32) == 0xDEBB_20E3
  {
    assert Steps(0xFFFF_FFFF, 8) == 0x2DFD_1072;
    assert Steps(0x2DFD_1072, 8) == 0xBE26_ED00;
    assert Steps(0xBE26_ED00, 8) == 0x00BE_26ED;
    assert Steps(0x00BE_26ED, 8) == 0xDEBB_20E3;
    StepsConcat(0xFFFF_FFFF, 8, 24);
    StepsConcat(0x2DFD_1072, 8, 16);
    StepsConcat(0xBE26_ED00, 8, 8);
  }

  /** The checksum of a number held in a final register. */
  lemma FinalRegister(data: Bytes, v: bv32, n: nat)
    requires Run(AllOnes(), data) == WordOf(v) && Holds(Mix(v, 0xFFFF_FFFF), n)
    ensures Crc(data) == n
  {
    hide BitsOf, Bits, Number, Mix, Holds;
    Constants();
    XorWords(v, 0xFFFF_FFFF);
    HoldsWord(Mix(v, 0xFFFF_FFFF), n);
  }

  /** The residue: whatever the data, data followed by its own checksum has the one checksum by
      which this CRC is known. */
  lemma Residue(data: Bytes)
    ensures Crc(data + LittleEndian(Crc(data), 4)) == 0x2144_DF1C
  {
    hide BitsOf, Bits, Number, BitSteps, Steps, Run, LittleEndian, BytesBits;
    var c, field := Run(AllOnes(), data), LittleEndian(Crc(data), 4);
    BitsOfNumber(Checksum(data));
    FieldBits(Crc(data), 4);
    assert Window(field) == Checksum(data);
    RunConcat(AllOnes(), data, field);
    WindowRun(c, field);
    FedBack(c);
    Constants();
    StepsWord(0xFFFF_FFFF, 32);
    ResidueSteps();
    assert Holds(Mix(0xDEBB_20E3, 0xFFFF_FFFF), 0x2144_DF1C);
    FinalRegister(data + field, 0xDEBB_20E3, 0x2144_DF1C);
  }

  // ----- the check value -----

  /** One byte of the data, register to register. */
  lemma FeedByte(c: bv32, b: Byte, v: bv32, next: bv32, data: Bytes)
    requires Holds(v, b) && Steps(Mix(c, v), 8) == next
    ensures Run(WordOf(c), [b] + data) == Run(WordOf(next), data)
  {
    hide BitsOf, Bits, Number, BitSteps, Steps, Mix, Holds;
    HoldsWord(v, b);
    XorWords(c, v);
    StepsWord(Mix(c, v), 8);
    assert ([b] + data)[1..] == data;
  }

  lemma FirstDigits(data: Bytes)
    ensures Run(WordOf(0xFFFF_FFFF), [49, 50, 51] + data) == Run(WordOf(0x77B7_9C2D), data)
  {
    hide BitsOf, Run;
    FeedByte(0xFFFF_FFFF, 49, 49, 0x7C23_1048, [50, 51] + data);
    FeedByte(0x7C23_1048, 50, 50, 0xB0AC_BB32, [51] + data);
    FeedByte(0xB0AC_BB32, 51, 51, 0x77B7_9C2D, data);
    assert [49] + ([50, 51] + data) == [49, 50, 51] + data;
    assert [50] + ([51] + data) == [50, 51] + data;
  }

  lemma MiddleDigits(data: Bytes)
    ensures Run(WordOf(0x77B7_9C2D), [52, 53, 54] + data) == Run(WordOf(0xF68D_2C9E), data)
  {
    hide BitsOf, Run;
    FeedByte(0x77B7_9C2D, 52, 52, 0x641C_1F5C, [53, 54] + data);
    FeedByte(0x641C_1F5C, 53, 53, 0x340A_C5E3, [54] + data);
    FeedByte(0x340A_C5E3, 54, 54, 0xF68D_2C9E, data);
    assert [52] + ([53, 54] + data) == [52, 53, 54] + data;
    assert [53] + ([54] + data) == [53, 54] + data;
  }

  lemma LastDigits(data: Bytes)
    ensures Run(WordOf(0xF68D_2C9E), [55, 56, 57] + data) == Run(WordOf(0x340B_C6D9), data)
  {
    hide BitsOf, Run;
    FeedByte(0xF68D_2C9E, 55, 55, 0xAFFC_9660, [56, 57] + data);
    FeedByte(0xAFFC_9660, 56, 56, 0x651F_2550, [57] + data);
    FeedByte(0x651F_2550, 57, 57, 0x340B_C6D9, data);
    assert [55] + ([56, 57] + data) == [55, 56, 57] + data;
    assert [56] + ([57] + data) == [56, 57] + data;
  }

  lemma Digits()
    ensures [49, 50, 51] + ([52, 53, 54] + ([55, 56, 57] + [])) == [49, 50, 51, 52, 53, 54, 55, 56, 57]
  {
  }

  lemma DigitsRun(digits: Bytes)
    requires digits == [49, 50, 51] + ([52, 53, 54] + ([55, 56, 57] + []))
    ensures Run(WordOf(0xFFFF_FFFF), digits) == WordOf(0x340B_C6D9)
  {
    hide WordOf, Run;
    FirstDigits([52, 53, 54] + ([55, 56, 57] + []));
    MiddleDigits([55, 56, 57] + []);
    LastDigits([]);
    RunNothing(0x340B_C6D9);
  }

  /** Nothing at all, and the nine digits "123456789" with the standard check value. */
  lemma CheckValue()
    ensures Crc([]) == 0
    ensures Crc([49, 50, 51, 52, 53, 54, 55, 56, 57]) == 0xCBF4_3926
  {
    hide *;
    Constants();
    FinalValues();
    RunNothing(0xFFFF_FFFF);
    FinalRegister([], 0xFFFF_FFFF, 0);
    Digits();
    var digits := [49, 50, 51] + ([52, 53, 54] + ([55, 56, 57] + []));
    DigitsRun(digits);
    FinalRegister(digits, 0x340B_C6D9, 0xCBF4_3926);
  }

  lemma RunNothing(c: bv32)
    ensures Run(WordOf(c), []) == WordOf(c)
  {
  }

  lemma FinalValues()
    ensures Holds(Mix(0xFFFF_FFFF, 0xFFFF_FFFF), 0)
    ensures Holds(Mix(0x340B_C6D9, 0xFFFF_FFFF), 0xCBF4_3926)
  {
  }
}
