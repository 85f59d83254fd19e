/** The checksummed, length-prefixed record shared by the write-ahead log and the SSTable data
    section (`src/wal_record.cpp`). */
module WalRecord {
  import opened ByteUtil
  import opened Crc32

  const HEADER_SIZE: nat := 13

  datatype RecordType = Put | Delete

  /** One logged write. */
  datatype Record = Record(kind: RecordType, key: Field, value: Field)

  datatype DecodeResult = Ok(record: Record, bytesConsumed: nat) | Incomplete | Corrupt

  function TypeByte(kind: RecordType): Byte {
    if kind.Put? then 1 else 2
  }

  predicate IsValidRecordType(b: Byte) {
    b == 1 || b == 2
  }

  /** A DELETE never has a value on disk, whatever the caller passes. */
  function StoredValue(kind: RecordType, value: Bytes): Bytes {
    if kind.Delete? then [] else value
  }

  /** What the checksum covers: type, lengths cast to 32 bits, key and value. */
  function Body(kind: RecordType, key: Bytes, value: Bytes): Bytes {
    [TypeByte(kind)] + LittleEndian(|key|, 4) + LittleEndian(|StoredValue(kind, value)|, 4)
    + key + StoredValue(kind, value)
  }

  function Encode(kind: RecordType, key: Bytes, value: Bytes): (record: Bytes)
    ensures |record| == HEADER_SIZE + |key| + |StoredValue(kind, value)|
  {
    LittleEndian(Crc(Body(kind, key, value)), 4) + Body(kind, key, value)
  }

  function EncodeRecordValue(r: Record): (b: Bytes)
    ensures |b| >= HEADER_SIZE
  {
    Encode(r.kind, r.key, r.value)
  }

  /** A record as it reads back: a DELETE carries no value. */
  function Canonical(r: Record): Record {
    if r.kind.Delete? then r.(value := []) else r
  }

  function Decode(data: Bytes): (d: DecodeResult)
    ensures d.Ok? ==> HEADER_SIZE <= d.bytesConsumed <= |data|
  {
    if |data| < HEADER_SIZE then Incomplete
    else
      Uint32Range(data[5..9]);
      Uint32Range(data[9..13]);
      var keyLen := FromLittleEndian(data[5..9]);
      var valueLen := FromLittleEndian(data[9..13]);
      var total := HEADER_SIZE + keyLen + valueLen;
      if |data| < total then Incomplete
      else if Crc(data[4..total]) != FromLittleEndian(data[..4]) || !IsValidRecordType(data[4]) then Corrupt
      else
        Ok(Record(if data[4] == 1 then Put else Delete, data[13..13 + keyLen], data[13 + keyLen..total]), total)
  }

  method EncodeRecord(kind: RecordType, key: Bytes, value: Bytes) returns (record: Bytes)
    ensures record == Encode(kind, key, value)
  {
    var valueToWrite := if kind.Delete? then [] else value;
    var body := [TypeByte(kind)];
    body := PutUint32LE(body, |key|);
    body := PutUint32LE(body, |valueToWrite|);
    body := body + key;
    body := body + valueToWrite;
    assert body == Body(kind, key, value);
    var crc := ComputeCrc32(body);
    record := PutUint32LE([], crc);
    record := record + body;
  }

  method DecodeRecord(data: Bytes) returns (result: DecodeResult)
    ensures result == Decode(data)
  {
    hide LittleEndian, FromLittleEndian, Crc, GetUint32LE;
    if |data| < HEADER_SIZE {
      return Incomplete;
    }
    var storedChecksum := GetUint32LE(data[..4]);
    var typeByte := data[4];
    var keyLen := GetUint32LE(data[5..9]);
    var valueLen := GetUint32LE(data[9..13]);
    var totalSize := HEADER_SIZE + keyLen + valueLen;
    if |data| < totalSize {
      return Incomplete;
    }
    var checksum := ComputeCrc32(data[4..totalSize]);
    if checksum != storedChecksum || !IsValidRecordType(typeByte) {
      return Corrupt;
    }
    Uint32Range(data[5..9]);
    Uint32Range(data[9..13]);
    var kind := if typeByte == 1 then Put else Delete;
    result := Ok(Record(kind, data[13..13 + keyLen], data[13 + keyLen..totalSize]), totalSize);
  }

  // ----- the layout of an encoded record -----

  /** The header fields of any buffer that starts with the first `p` bytes of a record. */
  lemma EncodedHeader(kind: RecordType, key: Bytes, value: Bytes, data: Bytes)
    requires |data| >= HEADER_SIZE && data[..HEADER_SIZE] == Encode(kind, key, value)[..HEADER_SIZE]
    ensures FromLittleEndian(data[..4]) == Crc(Body(kind, key, value))
    ensures data[4] == TypeByte(kind)
    ensures FromLittleEndian(data[5..9]) == |key| % TWO_32
    ensures FromLittleEndian(data[9..13]) == |StoredValue(kind, value)| % TWO_32
  {
    hide LittleEndian, FromLittleEndian, Crc;
    var e, v := Encode(kind, key, value), StoredValue(kind, value);
    var c, k, w := LittleEndian(Crc(Body(kind, key, value)), 4), LittleEndian(|key|, 4), LittleEndian(|v|, 4);
    assert e == c + [TypeByte(kind)] + k + w + key + v;
    assert data[..4] == data[..13][..4] == c;
    assert data[4] == data[..13][4];
    assert data[5..9] == data[..13][5..9] == k;
    assert data[9..13] == data[..13][9..13] == w;
    Uint32RoundTrip(Crc(Body(kind, key, value)));
    Uint32RoundTrip(|key|);
    Uint32RoundTrip(|v|);
  }

  lemma EncodedSlices(kind: RecordType, key: Bytes, value: Bytes, tail: Bytes)
    ensures var e := Encode(kind, key, value);
            var data := e + tail;
            data[4..|e|] == Body(kind, key, value)
            && data[13..13 + |key|] == key && data[13 + |key|..|e|] == StoredValue(kind, value)
  {
    hide LittleEndian, FromLittleEndian, Crc;
  }

  lemma DecodeEncoded(kind: RecordType, key: Bytes, value: Bytes, tail: Bytes)
    requires |key| < TWO_32 && |StoredValue(kind, value)| < TWO_32
    ensures Decode(Encode(kind, key, value) + tail)
         == Ok(Record(kind, key, StoredValue(kind, value)), |Encode(kind, key, value)|)
  {
    hide LittleEndian, FromLittleEndian, Crc, Encode, Body;
    var e := Encode(kind, key, value);
    var data := e + tail;
    assert data[..HEADER_SIZE] == e[..HEADER_SIZE];
    EncodedHeader(kind, key, value, data);
    EncodedSlices(kind, key, value, tail);
  }

  /** Decoding gives back exactly what was encoded, whatever follows, if and only if both
      lengths fit the 32-bit fields they are cast to. */
  lemma RoundTripIffLengthsFit(kind: RecordType, key: Bytes, value: Bytes, tail: Bytes)
    ensures var d := Decode(Encode(kind, key, value) + tail);
            (d.Ok? && d.record.kind == kind && d.record.key == key
             && d.record.value == StoredValue(kind, value)
             && d.bytesConsumed == |Encode(kind, key, value)|)
            <==> |key| < TWO_32 && |StoredValue(kind, value)| < TWO_32
  {
    hide Encode, Decode;
    if |key| < TWO_32 && |StoredValue(kind, value)| < TWO_32 {
      DecodeEncoded(kind, key, value, tail);
    }
  }

  lemma DecodeRecordValue(r: Record, tail: Bytes)
    ensures Decode(EncodeRecordValue(r) + tail) == Ok(Canonical(r), |EncodeRecordValue(r)|)
  {
    hide Encode, Decode;
    DecodeEncoded(r.kind, r.key, r.value, tail);
  }

  /** Every strict prefix of an encoded record is incomplete: no checksum is ever consulted. */
  lemma TornRecord(r: Record, p: nat)
    requires p < |EncodeRecordValue(r)|
    ensures Decode(EncodeRecordValue(r)[..p]) == Incomplete
  {
    hide LittleEndian, FromLittleEndian, Crc;
    var data := EncodeRecordValue(r)[..p];
    if p >= HEADER_SIZE {
      assert data[..HEADER_SIZE] == EncodeRecordValue(r)[..HEADER_SIZE];
      EncodedHeader(r.kind, r.key, r.value, data);
    }
  }

  /** No encoded record is a strict prefix of another. */
  lemma PrefixFree(r: Record, s: Record)
    requires EncodeRecordValue(r) <= EncodeRecordValue(s)
    ensures EncodeRecordValue(r) == EncodeRecordValue(s)
  {
    hide *;
    var a, b := EncodeRecordValue(r), EncodeRecordValue(s);
    DecodeRecordValue(r, []);
    assert a + [] == a == b[..|a|];
    if |a| < |b| {
      TornRecord(s, |a|);
    }
  }

  /** Decoding looks only at the bytes it consumes. */
  lemma DecodeLocal(data: Bytes, other: Bytes)
    requires Decode(data).Ok?
    requires |other| >= Decode(data).bytesConsumed
    requires other[..Decode(data).bytesConsumed] == data[..Decode(data).bytesConsumed]
    ensures Decode(other) == Decode(data)
  {
    hide LittleEndian, FromLittleEndian, Crc;
    var n := Decode(data).bytesConsumed;
    SliceOfPrefix(data, other, n, 0, 4);
    SliceOfPrefix(data, other, n, 5, 9);
    SliceOfPrefix(data, other, n, 9, 13);
    SliceOfPrefix(data, other, n, 4, n);
    assert data[4] == data[..n][4] == other[..n][4] == other[4];
    var keyLen := FromLittleEndian(data[5..9]);
    SliceOfPrefix(data, other, n, 13, 13 + keyLen);
    SliceOfPrefix(data, other, n, 13 + keyLen, n);
    assert data[0..4] == data[..4] && other[0..4] == other[..4];
  }

  lemma SliceOfPrefix(a: Bytes, b: Bytes, n: nat, i: nat, j: nat)
    requires i <= j <= n <= |a| && n <= |b| && a[..n] == b[..n]
    ensures a[i..j] == b[i..j]
  {
    assert a[i..j] == a[..n][i..j] == b[..n][i..j] == b[i..j];
  }

  lemma BodyLayout(data: Bytes, keyEnd: nat, end: nat)
    requires HEADER_SIZE <= keyEnd <= end <= |data|
    ensures data[4..end] == [data[4]] + data[5..9] + data[9..13] + data[13..keyEnd] + data[keyEnd..end]
  {
    assert data[4..end] == data[4..keyEnd] + data[keyEnd..end];
    assert data[4..keyEnd] == data[4..13] + data[13..keyEnd];
    assert data[4..13] == [data[4]] + data[5..9] + data[9..13];
  }

  /** The converse: what decodes re-encodes to exactly the bytes consumed if and only if it is
      a PUT or a DELETE without a value; the decoder does not reject a DELETE that has one. */
  lemma ReencodeIffCanonical(data: Bytes)
    requires Decode(data).Ok?
    ensures EncodeRecordValue(Decode(data).record) == data[..Decode(data).bytesConsumed]
       <==> Decode(data).record.kind.Put? || Decode(data).record.value == []
  {
    hide LittleEndian, FromLittleEndian, Crc;
    var n, r := Decode(data).bytesConsumed, Decode(data).record;
    if r.kind.Put? || r.value == [] {
      Uint32Range(data[..4]);
      Uint32Range(data[5..9]);
      Uint32Range(data[9..13]);
      var keyEnd := HEADER_SIZE + |r.key|;
      BodyLayout(data, keyEnd, n);
      assert data[13..keyEnd] == r.key && data[keyEnd..n] == r.value;
      assert Body(r.kind, r.key, r.value) == data[4..n];
      assert data[..n] == data[..4] + data[4..n];
    }
  }

  // ----- the language of the decoder -----

  /** The bytes of an encoded record, position by position: checksum of the rest, the number of the
      type, both lengths, key and value. */
  lemma EncodedLayout(kind: RecordType, key: Bytes, value: Bytes)
    ensures var e, v := Encode(kind, key, value), if kind.Delete? then [] else value;
            && |e| == 13 + |key| + |v|
            && FromLittleEndian(e[..4]) == Crc(e[4..])
            && e[4] == (match kind case Put => 1 case Delete => 2)
            && FromLittleEndian(e[5..9]) == |key| % TWO_32
            && FromLittleEndian(e[9..13]) == |v| % TWO_32
            && e[13..13 + |key|] == key && e[13 + |key|..] == v
  {
    hide Crc, Encode, Body;
    var e := Encode(kind, key, value);
    EncodedHeader(kind, key, value, e);
    EncodedSlices(kind, key, value, []);
    assert e + [] == e && e[4..|e|] == e[4..] && e[13 + |key|..|e|] == e[13 + |key|..];
  }

  /** When there are too few bytes: for the header, or for what its length fields announce. */
  predicate TooFew(data: Bytes) {
    |data| < 13 || |data| < 13 + FromLittleEndian(data[5..9]) + FromLittleEndian(data[9..13])
  }

  /** Each outcome of the decoder, in terms of the bytes. Whatever is long enough and neither has a
      wrong checksum nor an unknown type is a record. */
  lemma DecodeOutcomes(data: Bytes)
    ensures Decode(data) == Incomplete <==> TooFew(data)
    ensures Decode(data) == Corrupt <==>
              !TooFew(data)
              && var n := 13 + FromLittleEndian(data[5..9]) + FromLittleEndian(data[9..13]);
                 Crc(data[4..n]) != FromLittleEndian(data[..4]) || (data[4] != 1 && data[4] != 2)
  {
    hide LittleEndian, FromLittleEndian, Crc;
  }

  /** What is decoded: exactly the record whose bytes, with the type as a number, come first. */
  lemma DecodesExactly(data: Bytes, r: Record, n: nat)
    ensures Decode(data) == Ok(r, n) <==>
              && n == 13 + |r.key| + |r.value| && n <= |data|
              && data[4..n] == [match r.kind case Put => 1 case Delete => 2] + LittleEndian(|r.key|, 4)
                               + LittleEndian(|r.value|, 4) + r.key + r.value
              && data[..4] == LittleEndian(Crc(data[4..n]), 4)
  {
    hide LittleEndian, FromLittleEndian, Crc;
    if Decode(data) == Ok(r, n) {
      Uint32Range(data[..4]);
      Uint32Range(data[5..9]);
      Uint32Range(data[9..13]);
      BodyLayout(data, 13 + |r.key|, n);
    }
    if n == 13 + |r.key| + |r.value| && n <= |data| {
      RawBody(data, r, n);
      Uint32RoundTrip(|r.key|);
      Uint32RoundTrip(|r.value|);
      Uint32RoundTrip(Crc(data[4..n]));
    }
  }

  lemma RawBody(data: Bytes, r: Record, n: nat)
    requires n == 13 + |r.key| + |r.value| && n <= |data|
    ensures var t: Byte := match r.kind case Put => 1 case Delete => 2;
            data[4..n] == [t] + LittleEndian(|r.key|, 4) + LittleEndian(|r.value|, 4) + r.key + r.value ==>
              && data[4] == t && data[5..9] == LittleEndian(|r.key|, 4) && data[9..13] == LittleEndian(|r.value|, 4)
              && data[13..13 + |r.key|] == r.key && data[13 + |r.key|..n] == r.value
  {
    hide LittleEndian;
    var b := data[4..n];
    SubSlice(data, 4, n, 1, 5);
    SubSlice(data, 4, n, 5, 9);
    SubSlice(data, 4, n, 9, 9 + |r.key|);
    SubSlice(data, 4, n, 9 + |r.key|, n - 4);
    assert b[0] == data[4];
  }

  // ----- damage that is certain to be reported -----

  /** Altering only the stored checksum. */
  lemma DetectsChecksumDamage(good: Bytes, bad: Bytes)
    requires Decode(good).Ok?
    requires |bad| >= Decode(good).bytesConsumed
    requires bad[4..Decode(good).bytesConsumed] == good[4..Decode(good).bytesConsumed]
    requires bad[..4] != good[..4]
    ensures Decode(bad) == Corrupt
  {
    hide LittleEndian, FromLittleEndian, Crc;
    var n := Decode(good).bytesConsumed;
    SameLengths(good, bad, n);
    Uint32Range(bad[..4]);
    Uint32Range(good[..4]);
  }

  lemma SameLengths(good: Bytes, bad: Bytes, n: nat)
    requires HEADER_SIZE <= n <= |good| && n <= |bad| && bad[4..n] == good[4..n]
    ensures bad[5..9] == good[5..9] && bad[9..13] == good[9..13] && bad[4] == good[4]
  {
    SubSlice(bad, 4, n, 1, 5);
    SubSlice(good, 4, n, 1, 5);
    SubSlice(bad, 4, n, 5, 9);
    SubSlice(good, 4, n, 5, 9);
    assert bad[4] == bad[4..n][0] == good[4..n][0] == good[4];
  }

  lemma SubSlice(b: Bytes, i: nat, j: nat, p: nat, q: nat)
    requires i <= j <= |b| && p <= q <= j - i
    ensures b[i..j][p..q] == b[i + p..i + q]
  {
    var whole, part := b[i..j], b[i + p..i + q];
    assert |whole[p..q]| == |part|;
    forall k | 0 <= k < q - p
      ensures whole[p..q][k] == part[k]
    {
      assert whole[p..q][k] == whole[p + k] == b[i + p + k];
    }
  }

  /** Altering any bytes within four consecutive positions after the checksum, with the two
      length fields intact: the type byte, or a window of the key and value. */
  lemma DetectsWindowDamage(good: Bytes, bad: Bytes, i: nat)
    requires Decode(good).Ok?
    requires |bad| >= Decode(good).bytesConsumed
    requires 4 <= i < Decode(good).bytesConsumed
    requires bad[..4] == good[..4] && bad[5..13] == good[5..13]
    requires forall j :: 4 <= j < Decode(good).bytesConsumed && !(i <= j < i + 4) ==> bad[j] == good[j]
    requires bad[4..Decode(good).bytesConsumed] != good[4..Decode(good).bytesConsumed]
    ensures Decode(bad) == Corrupt
  {
    hide LittleEndian, FromLittleEndian, Crc;
    var n := Decode(good).bytesConsumed;
    SubSlices(bad);
    SubSlices(good);
    var e := if i + 4 <= n then i + 4 else n;
    ThreeParts(good, i, e, n);
    ThreeParts(bad, i, e, n);
    assert bad[4..i] == good[4..i];
    assert bad[e..n] == good[e..n];
    DetectsWindow(good[4..i], good[i..e], bad[i..e], good[e..n]);
  }

  lemma ThreeParts(b: Bytes, i: nat, e: nat, n: nat)
    requires 4 <= i <= e <= n <= |b|
    ensures b[4..n] == b[4..i] + b[i..e] + b[e..n]
  {
  }

  lemma SubSlices(b: Bytes)
    requires |b| >= HEADER_SIZE
    ensures b[5..9] == b[5..13][..4] && b[9..13] == b[5..13][4..]
  {
  }
}
