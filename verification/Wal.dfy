/** The write-ahead log (`src/wal.cpp`): framing of a whole file, replay, truncation. */
module Wal {
  import opened ByteUtil
  import opened WalRecord
  import opened FileSystem

  function EncodeAll(rs: seq<Record>): Bytes {
    if rs == [] then [] else EncodeRecordValue(rs[0]) + EncodeAll(rs[1..])
  }

  function CanonicalAll(rs: seq<Record>): (cs: seq<Record>)
    ensures |cs| == |rs|
    ensures forall i :: 0 <= i < |rs| ==> cs[i] == Canonical(rs[i])
  {
    seq(|rs|, i requires 0 <= i < |rs| => Canonical(rs[i]))
  }

  /** The records replay applies, in order: all up to the first torn or corrupt one. */
  function Records(data: Bytes): seq<Record>
    decreases |data|
  {
    var d := Decode(data);
    if d.Ok? then [d.record] + Records(data[d.bytesConsumed..]) else []
  }

  /** The offset right after the last of them. */
  function ValidEnd(data: Bytes): (n: nat)
    ensures n <= |data|
    decreases |data|
  {
    var d := Decode(data);
    if d.Ok? then d.bytesConsumed + ValidEnd(data[d.bytesConsumed..]) else 0
  }

  /** A file that replay leaves as it is. */
  predicate Clean(data: Bytes) {
    ValidEnd(data) == |data|
  }

  // ----- replay of any file -----

  /** Whatever replaces the discarded tail is replayed as if it stood alone. */
  lemma {:induction false} ReplayThenMore(data: Bytes, more: Bytes)
    ensures Records(data[..ValidEnd(data)] + more) == Records(data) + Records(more)
    ensures ValidEnd(data[..ValidEnd(data)] + more) == ValidEnd(data) + ValidEnd(more)
    decreases |data|
  {
    hide Decode;
    var d, end := Decode(data), ValidEnd(data);
    if d.Ok? {
      var n := d.bytesConsumed;
      var whole := data[..end] + more;
      assert whole[..n] == data[..n];
      DecodeLocal(data, whole);
      assert whole[n..] == data[n..][..ValidEnd(data[n..])] + more;
      ReplayThenMore(data[n..], more);
    } else {
      assert data[..0] + more == more;
    }
  }

  /** A second replay of the truncated file applies the same records and cuts nothing. */
  lemma ReplayNormalises(data: Bytes)
    ensures Records(data[..ValidEnd(data)]) == Records(data)
    ensures Clean(data[..ValidEnd(data)])
  {
    hide Decode;
    ReplayThenMore(data, []);
    assert data[..ValidEnd(data)] + [] == data[..ValidEnd(data)];
    NothingToReplay([]);
  }

  /** Replay stops at the first bytes that are no record, and nowhere else. */
  lemma {:induction false} ReplayStops(data: Bytes)
    ensures !Decode(data[ValidEnd(data)..]).Ok?
    ensures forall r, n: nat :: Decode(data) == Ok(r, n) ==>
              Records(data) == [r] + Records(data[n..]) && ValidEnd(data) == n + ValidEnd(data[n..])
    decreases |data|
  {
    hide Decode;
    var d := Decode(data);
    if d.Ok? {
      ReplayStops(data[d.bytesConsumed..]);
      assert data[ValidEnd(data)..] == data[d.bytesConsumed..][ValidEnd(data[d.bytesConsumed..])..];
    } else {
      assert data[0..] == data;
    }
  }

  lemma NothingToReplay(data: Bytes)
    requires !Decode(data).Ok?
    ensures Records(data) == [] && ValidEnd(data) == 0
  {
  }

  lemma {:induction false} OneRecord(r: Record)
    ensures Records(EncodeRecordValue(r)) == [Canonical(r)]
    ensures Clean(EncodeRecordValue(r))
  {
    hide Decode, EncodeRecordValue;
    var e := EncodeRecordValue(r);
    assert e + [] == e;
    DecodeRecordValue(r, []);
    assert e[|e|..] == [];
    NothingToReplay([]);
  }

  /** Appending one record after a replay and replaying again yields the records found the
      first time plus the new one. */
  lemma AppendAfterReplay(data: Bytes, r: Record)
    ensures var log := data[..ValidEnd(data)] + EncodeRecordValue(r);
            Records(log) == Records(data) + [Canonical(r)] && Clean(log)
  {
    hide *;
    OneRecord(r);
    ReplayThenMore(data, EncodeRecordValue(r));
    ReplayNormalises(data);
    assert Clean(data[..ValidEnd(data)] + EncodeRecordValue(r)) by {
      CleanMeans(EncodeRecordValue(r));
      CleanMeans(data[..ValidEnd(data)] + EncodeRecordValue(r));
    }
  }

  lemma CleanMeans(data: Bytes)
    ensures Clean(data) <==> ValidEnd(data) == |data|
    ensures Clean(data) ==> data[..ValidEnd(data)] == data
  {
    hide ValidEnd;
  }

  /** A record cut short changes nothing that replay finds, and is what replay cuts off. */
  lemma TornAppend(data: Bytes, r: Record, p: nat)
    requires Clean(data) && p < |EncodeRecordValue(r)|
    ensures Records(data + EncodeRecordValue(r)[..p]) == Records(data)
    ensures ValidEnd(data + EncodeRecordValue(r)[..p]) == |data|
  {
    hide Decode, EncodeRecordValue, Records, ValidEnd;
    var torn := EncodeRecordValue(r)[..p];
    TornRecord(r, p);
    NothingToReplay(torn);
    ReplayThenMore(data, torn);
    CleanMeans(data);
  }

  lemma CleanAppend(data: Bytes, r: Record)
    requires Clean(data)
    ensures Records(data + EncodeRecordValue(r)) == Records(data) + [Canonical(r)]
    ensures Clean(data + EncodeRecordValue(r))
  {
    hide *;
    CleanMeans(data);
    AppendAfterReplay(data, r);
  }

  lemma {:induction false} EncodeAllConcat(rs: seq<Record>, ss: seq<Record>)
    ensures EncodeAll(rs + ss) == EncodeAll(rs) + EncodeAll(ss)
  {
    hide EncodeRecordValue;
    if rs == [] {
      assert rs + ss == ss;
    } else {
      assert (rs + ss)[1..] == rs[1..] + ss;
      EncodeAllConcat(rs[1..], ss);
    }
  }

  lemma {:induction false} RecordsOfEncoded(rs: seq<Record>)
    ensures Records(EncodeAll(rs)) == CanonicalAll(rs)
    ensures Clean(EncodeAll(rs))
  {
    hide Decode, EncodeRecordValue;
    if rs == [] {
      NothingToReplay([]);
    } else {
      var e, rest := EncodeRecordValue(rs[0]), EncodeAll(rs[1..]);
      DecodeRecordValue(rs[0], rest);
      assert (e + rest)[|e|..] == rest;
      RecordsOfEncoded(rs[1..]);
    }
  }

  /** Torn-tail correctness: whole records followed by a strict prefix of one more replay to
      exactly those records and are truncated to exactly their length. */
  lemma TornTail(rs: seq<Record>, r: Record, p: nat)
    requires p < |EncodeRecordValue(r)|
    ensures var file := EncodeAll(rs) + EncodeRecordValue(r)[..p];
            Records(file) == CanonicalAll(rs) && file[..ValidEnd(file)] == EncodeAll(rs)
  {
    hide *;
    RecordsOfEncoded(rs);
    TornAppend(EncodeAll(rs), r, p);
  }

  /** The open log file. */
  class WriteAheadLog {
    const directory: Directory
    const path: string

    constructor (directory: Directory, path: string)
      modifies directory
      ensures this.directory == directory && this.path == path
      ensures path in directory.files
      ensures directory.files == if path in old(directory.files) then old(directory.files)
                                 else old(directory.files)[path := []]
      ensures directory.trail == old(directory.trail) + if path in old(directory.files) then [] else [directory.files]
    {
      this.directory := directory;
      this.path := path;
      new;
      directory.OpenForAppend(path);
    }

    method Append(kind: RecordType, key: Bytes, value: Bytes)
      requires path in directory.files
      modifies directory
      ensures directory.files ==
              old(directory.files)[path := old(directory.files)[path] + Encode(kind, key, value)]
      ensures directory.trail ==
              old(directory.trail) + AppendStates(old(directory.files), path, Encode(kind, key, value))
    {
      var record := EncodeRecord(kind, key, value);
      directory.WriteAll(path, record);
    }

    /** Replays the file and cuts off what follows the last valid record. The calls of the
        source's callback are returned as the list of records applied. */
    method Replay() returns (applied: seq<Record>)
      requires path in directory.files
      modifies directory
      ensures var contents := old(directory.files)[path];
              && applied == Records(contents)
              && directory.files == old(directory.files)[path := contents[..ValidEnd(contents)]]
              && directory.trail == old(directory.trail) +
                 (if Clean(contents) then [] else [directory.files])
    {
      hide Decode;
      var contents := directory.files[path];
      var validEnd: nat := 0;
      var remaining := contents;
      applied := [];
      while true
        invariant directory.files == old(directory.files) && directory.trail == old(directory.trail)
        invariant validEnd <= |contents| && remaining == contents[validEnd..]
        invariant applied + Records(remaining) == Records(contents)
        invariant validEnd + ValidEnd(remaining) == ValidEnd(contents)
        decreases |remaining|
      {
        var result := DecodeRecord(remaining);
        if !result.Ok? {
          break;
        }
        applied := applied + [result.record];
        validEnd := validEnd + result.bytesConsumed;
        remaining := remaining[result.bytesConsumed..];
      }
      if validEnd < |contents| {
        directory.Truncate(path, validEnd);
      } else {
        assert contents[..validEnd] == contents;
      }
    }

    method Reset()
      requires path in directory.files
      modifies directory
      ensures directory.files == old(directory.files)[path := []]
      ensures directory.trail == old(directory.trail) + [directory.files]
    {
      directory.Truncate(path, 0);
      assert old(directory.files[path])[..0] == [];
    }
  }
}
