/** The write-ahead log (src/wal/mod.rs): its byte format, replay of any prefix of it, and the writer. */
module Wals {
  import opened ByteStrings

  /** `crc(initial, data)`: an arbitrary checksum, the continuation of a hasher started at `initial`. */
  type Checksum = (U32, Bytes) -> U32

  const COMMIT_BIT: nat := 0x8000

  /** An update, or a commit record when it carries a timestamp. */
  datatype WalRecord = WalRecord(key: Bytes, value: Bytes, timestamp: Option<nat>)

  /** What a record must keep to for replay to read it back: a key length of 15 bits, a value length of 16. */
  predicate Loggable(r: WalRecord) {
    && |r.key| < COMMIT_BIT && |r.value| < 0x1_0000
    && (r.key == [] ==> r.value == [])
    && (r.timestamp.Some? ==> Size(r.timestamp.value) <= 8)
  }

  predicate AllLoggable(rs: seq<WalRecord>) {
    forall i :: 0 <= i < |rs| ==> Loggable(rs[i])
  }

  //
  // Encoding
  //

  function TimestampBytes(r: WalRecord): Bytes {
    if r.timestamp.Some? then BE(r.timestamp.value, 8) else []
  }

  /** The checksum of a record, continuing that of the records before it in the transaction. */
  function RecordCrc(crc: Checksum, roll: U32, r: WalRecord): U32 {
    var kv := crc(crc(roll, r.key), r.value);
    if r.timestamp.Some? then crc(kv, TimestampBytes(r)) else kv
  }

  /** The u16 key length with the commit bit set in a commit record. */
  function KeyField(r: WalRecord): nat {
    var len := |r.key| % 0x1_0000;
    if r.timestamp.Some? && len < COMMIT_BIT then len + COMMIT_BIT else len
  }

  function RecordHeader(r: WalRecord): (h: Bytes)
    ensures |h| == 4
  {
    LE(KeyField(r), 2) + LE(|r.value|, 2)
  }

  function EncodeRecord(crc: Checksum, roll: U32, r: WalRecord): Bytes {
    RecordHeader(r) + (r.key + r.value + TimestampBytes(r) + LE(RecordCrc(crc, roll, r), 4))
  }

  /** The checksum is rolling within a transaction and starts again after a commit. */
  function RollPast(crc: Checksum, roll: U32, r: WalRecord): U32 {
    if r.timestamp.Some? then 0 else RecordCrc(crc, roll, r)
  }

  function EncodeLog(crc: Checksum, roll: U32, rs: seq<WalRecord>): Bytes
    decreases |rs|
  {
    if rs == [] then [] else EncodeRecord(crc, roll, rs[0]) + EncodeLog(crc, RollPast(crc, roll, rs[0]), rs[1..])
  }

  function RollAfter(crc: Checksum, roll: U32, rs: seq<WalRecord>): U32
    decreases |rs|
  {
    if rs == [] then roll else RollAfter(crc, RollPast(crc, roll, rs[0]), rs[1..])
  }

  lemma {:induction false} EncodeLogConcat(crc: Checksum, roll: U32, xs: seq<WalRecord>, ys: seq<WalRecord>)
    ensures EncodeLog(crc, roll, xs + ys) == EncodeLog(crc, roll, xs) + EncodeLog(crc, RollAfter(crc, roll, xs), ys)
    ensures RollAfter(crc, roll, xs + ys) == RollAfter(crc, RollAfter(crc, roll, xs), ys)
    decreases |xs|
  {
    hide EncodeRecord, RollPast;
    if xs == [] {
      assert xs + ys == ys;
    } else {
      var next := RollPast(crc, roll, xs[0]);
      EncodeLogConcat(crc, next, xs[1..], ys);
      assert (xs + ys)[1..] == xs[1..] + ys;
      Assoc(EncodeRecord(crc, roll, xs[0]), EncodeLog(crc, next, xs[1..]),
            EncodeLog(crc, RollAfter(crc, next, xs[1..]), ys));
    }
  }

  lemma EncodeLogOne(crc: Checksum, roll: U32, r: WalRecord)
    ensures EncodeLog(crc, roll, [r]) == EncodeRecord(crc, roll, r)
    ensures RollAfter(crc, roll, [r]) == RollPast(crc, roll, r)
  {
    hide EncodeRecord, RollPast;
    assert [r][1..] == [];
    assert EncodeRecord(crc, roll, r) + [] == EncodeRecord(crc, roll, r);
  }

  /** Length of the committed part: up to and including the last commit record. */
  function Committed(rs: seq<WalRecord>): (n: nat)
    ensures n <= |rs|
    ensures n > 0 ==> rs[n - 1].timestamp.Some?
    ensures forall i :: n <= i < |rs| ==> rs[i].timestamp.None?
  {
    if rs == [] then 0
    else if rs[|rs| - 1].timestamp.Some? then |rs|
    else Committed(rs[..|rs| - 1])
  }

  /** After a commit the checksum starts at 0. */
  lemma CommittedRoll(crc: Checksum, rs: seq<WalRecord>)
    ensures RollAfter(crc, 0, rs[..Committed(rs)]) == 0
  {
    var n := Committed(rs);
    if n > 0 {
      assert rs[..n] == rs[..n - 1] + [rs[n - 1]];
      EncodeLogConcat(crc, 0, rs[..n - 1], [rs[n - 1]]);
      EncodeLogOne(crc, RollAfter(crc, 0, rs[..n - 1]), rs[n - 1]);
    }
  }

  //
  // Replay
  //

  /** The record at the front of `bytes`, its checksum and what follows; none where replay stops. */
  function ReadRecord(crc: Checksum, roll: U32, bytes: Bytes): (r: Option<(WalRecord, U32, Bytes)>)
    ensures r.Some? ==> |r.value.2| < |bytes|
  {
    if |bytes| < 4 then None else ReadBody(crc, roll, FromLE(bytes[0..2]), FromLE(bytes[2..4]), bytes[4..])
  }

  /** The same, once the two length fields are read. */
  function ReadBody(crc: Checksum, roll: U32, field: nat, valueLen: nat, body: Bytes)
    : (r: Option<(WalRecord, U32, Bytes)>)
    ensures r.Some? ==> |r.value.2| <= |body|
  {
    var isCommit := field >= COMMIT_BIT;
    var keyLen := field % COMMIT_BIT;
    var dataLen := if keyLen != 0 then keyLen + valueLen else 0;
    var n := dataLen + (if isCommit then 8 else 0);
    if |body| < n + 4 then None
    else
      var r := WalRecord(
                 if keyLen != 0 then body[..keyLen] else [],
                 if keyLen != 0 then body[keyLen..keyLen + valueLen] else Unread(valueLen),
                 if isCommit then Some(FromBE(body[dataLen..dataLen + 8])) else None);
      var data := if isCommit then crc(crc(crc(roll, r.key), r.value), body[dataLen..dataLen + 8])
                  else crc(crc(roll, r.key), r.value);
      if FromLE(body[n..n + 4]) != data then None
      else Some((r, data, body[n + 4..]))
  }

  /** A value buffer that is sized but never read into, because the key is empty; its contents are arbitrary. */
  function Unread(n: nat): Bytes { seq(n, _ => 0) }

  /** The loop of `replay`: records read so far, and how many of them are committed. */
  function ReplayFrom(crc: Checksum, roll: U32, bytes: Bytes, read: seq<WalRecord>, committed: nat): seq<WalRecord>
    requires committed <= |read|
    decreases |bytes|
  {
    match ReadRecord(crc, roll, bytes)
    case None => read[..committed]
    case Some((r, c, rest)) =>
      ReplayFrom(crc, if r.timestamp.Some? then 0 else c, rest, read + [r],
                 if r.timestamp.Some? then |read| + 1 else committed)
  }

  function Replay(crc: Checksum, file: Bytes): seq<WalRecord> {
    ReplayFrom(crc, 0, file, [], 0)
  }

  lemma ReplayStep(crc: Checksum, roll: U32, bytes: Bytes, read: seq<WalRecord>, committed: nat)
    requires committed <= |read|
    ensures
      var o := ReadRecord(crc, roll, bytes);
      ReplayFrom(crc, roll, bytes, read, committed) ==
      if o.None? then read[..committed]
      else
        var r := o.value.0;
        ReplayFrom(crc, if r.timestamp.Some? then 0 else o.value.1, o.value.2, read + [r],
                   if r.timestamp.Some? then |read| + 1 else committed)
  {
    hide ReadRecord;
  }

  /** `ReadRecord` in terms of positions in the file. */
  lemma ReadRecordAt(crc: Checksum, roll: U32, file: Bytes, pos: nat)
    requires pos <= |file|
    ensures
      var o := ReadRecord(crc, roll, file[pos..]);
      if pos + 4 > |file| then o == None
      else
        var field, valueLen := FromLE(file[pos..pos + 2]), FromLE(file[pos + 2..pos + 4]);
        var keyLen, p := field % COMMIT_BIT, pos + 4;
        var q := if keyLen != 0 then p + keyLen + valueLen else p;
        var e := if field >= COMMIT_BIT then q + 8 else q;
        if e + 4 > |file| then o == None
        else
          var key := if keyLen != 0 then file[p..p + keyLen] else [];
          var value := if keyLen != 0 then file[p + keyLen..p + keyLen + valueLen] else Unread(valueLen);
          var kv := crc(crc(roll, key), value);
          var data := if field >= COMMIT_BIT then crc(kv, file[q..q + 8]) else kv;
          if FromLE(file[e..e + 4]) != data then o == None
          else o == Some((WalRecord(key, value, if field >= COMMIT_BIT then Some(FromBE(file[q..q + 8])) else None),
                          data, file[e + 4..]))
  {
    hide FromLE, FromBE, Unread, ReadBody;
    var bytes := file[pos..];
    if pos + 4 <= |file| {
      SliceWithin(file, pos, bytes, 0, 2);
      SliceWithin(file, pos, bytes, 2, 4);
      assert bytes[4..] == file[pos + 4..];
      ReadBodyAt(crc, roll, file, pos + 4, FromLE(file[pos..pos + 2]), FromLE(file[pos + 2..pos + 4]));
    }
  }

  lemma ReadBodyAt(crc: Checksum, roll: U32, file: Bytes, p: nat, field: nat, valueLen: nat)
    requires p <= |file|
    ensures
      var o := ReadBody(crc, roll, field, valueLen, file[p..]);
      var keyLen := field % COMMIT_BIT;
      var q := if keyLen != 0 then p + keyLen + valueLen else p;
      var e := if field >= COMMIT_BIT then q + 8 else q;
      if e + 4 > |file| then o == None
      else
        var key := if keyLen != 0 then file[p..p + keyLen] else [];
        var value := if keyLen != 0 then file[p + keyLen..p + keyLen + valueLen] else Unread(valueLen);
        var kv := crc(crc(roll, key), value);
        var data := if field >= COMMIT_BIT then crc(kv, file[q..q + 8]) else kv;
        if FromLE(file[e..e + 4]) != data then o == None
        else o == Some((WalRecord(key, value, if field >= COMMIT_BIT then Some(FromBE(file[q..q + 8])) else None),
                        data, file[e + 4..]))
  {
    hide FromLE, FromBE, Unread;
    var keyLen := field % COMMIT_BIT;
    var d := if keyLen != 0 then keyLen + valueLen else 0;
    var n := if field >= COMMIT_BIT then d + 8 else d;
    if p + n + 4 <= |file| {
      BodySlices(file, p, keyLen, d, n);
      if keyLen == 0 {
        NoKeyBody(crc, roll, field, valueLen, file[p..]);
      } else {
        KeyBody(crc, roll, field, valueLen, file[p..]);
      }
    }
  }

  lemma BodySlices(file: Bytes, p: nat, keyLen: nat, d: nat, n: nat)
    requires keyLen <= d <= n && p + n + 4 <= |file|
    ensures
      var body := file[p..];
      && body[..keyLen] == file[p..p + keyLen] && body[keyLen..d] == file[p + keyLen..p + d]
      && body[d..n] == file[p + d..p + n]
      && body[n..n + 4] == file[p + n..p + n + 4] && body[n + 4..] == file[p + n + 4..]
  {
    SliceOfRest(file, p, 0, keyLen);
    SliceOfRest(file, p, keyLen, d);
    SliceOfRest(file, p, d, n);
    SliceOfRest(file, p, n, n + 4);
  }

  lemma NoKeyBody(crc: Checksum, roll: U32, field: nat, valueLen: nat, body: Bytes)
    requires field % COMMIT_BIT == 0
    ensures
      var n := if field >= COMMIT_BIT then 8 else 0;
      |body| >= n + 4 ==>
        var kv := crc(crc(roll, []), Unread(valueLen));
        var data := if field >= COMMIT_BIT then crc(kv, body[..n]) else kv;
        ReadBody(crc, roll, field, valueLen, body)
        == if FromLE(body[n..n + 4]) != data then None
           else Some((WalRecord([], Unread(valueLen), if field >= COMMIT_BIT then Some(FromBE(body[..n])) else None),
                      data, body[n + 4..]))
  {
    hide FromLE, FromBE, Unread;
  }

  lemma KeyBody(crc: Checksum, roll: U32, field: nat, valueLen: nat, body: Bytes)
    requires field % COMMIT_BIT != 0
    ensures
      var keyLen := field % COMMIT_BIT;
      var d := keyLen + valueLen;
      var n := if field >= COMMIT_BIT then d + 8 else d;
      |body| >= n + 4 ==>
        var kv := crc(crc(roll, body[..keyLen]), body[keyLen..d]);
        var data := if field >= COMMIT_BIT then crc(kv, body[d..n]) else kv;
        ReadBody(crc, roll, field, valueLen, body)
        == if FromLE(body[n..n + 4]) != data then None
           else Some((WalRecord(body[..keyLen], body[keyLen..d],
                                if field >= COMMIT_BIT then Some(FromBE(body[d..n])) else None), data, body[n + 4..]))
  {
    hide FromLE, FromBE, Unread;
  }

  /** Slices of what is left of a file. */
  lemma SliceOfRest(file: Bytes, p: nat, i: nat, j: nat)
    requires i <= j && p + j <= |file|
    ensures file[p..][i..j] == file[p + i..p + j] && file[p..][j..] == file[p + j..]
  {
  }

  /** `replay` over the bytes of the file. */
  method ReplayFile(crc: Checksum, file: Bytes) returns (records: seq<WalRecord>)
    ensures records == Replay(crc, file)
  {
    hide ReplayFrom, ReadRecord, FromLE, FromBE, Unread;
    records := [];
    var lastCommitPos: nat := 0;
    var rollingCrc: U32 := 0;
    var pos := 0;
    assert file[0..] == file;
    while true
      invariant pos <= |file| && lastCommitPos <= |records|
      invariant Replay(crc, file) == ReplayFrom(crc, rollingCrc, file[pos..], records, lastCommitPos)
      decreases |file| - pos
    {
      ReplayStep(crc, rollingCrc, file[pos..], records, lastCommitPos);
      ReadRecordAt(crc, rollingCrc, file, pos);
      ghost var stop := Replay(crc, file) == records[..lastCommitPos];
      if pos >= |file| {
        assert stop;
        break;
      }
      if pos + 2 > |file| {
        assert stop;
        break;
      }
      var field := FromLE(file[pos..pos + 2]);
      pos := pos + 2;
      var isCommit := field >= COMMIT_BIT;
      var keyLen := field % COMMIT_BIT;
      if pos + 2 > |file| {
        assert stop;
        break;
      }
      var valueLen := FromLE(file[pos..pos + 2]);
      pos := pos + 2;
      var key: Bytes, value: Bytes := [], Unread(valueLen);
      if keyLen != 0 {
        if pos + keyLen > |file| {
          assert stop;
          break;
        }
        key := file[pos..pos + keyLen];
        pos := pos + keyLen;
        if pos + valueLen > |file| {
          assert stop;
          break;
        }
        value := file[pos..pos + valueLen];
        pos := pos + valueLen;
      }
      var timestamp := None;
      var sum := crc(crc(rollingCrc, key), value);
      if isCommit {
        if pos + 8 > |file| {
          assert stop;
          break;
        }
        timestamp := Some(FromBE(file[pos..pos + 8]));
        sum := crc(sum, file[pos..pos + 8]);
        pos := pos + 8;
      }
      if pos + 4 > |file| {
        assert stop;
        break;
      }
      var verifyCrc := FromLE(file[pos..pos + 4]);
      pos := pos + 4;
      if sum != verifyCrc {
        assert stop;
        break;
      }
      rollingCrc := sum;
      records := records + [WalRecord(key, value, timestamp)];
      if isCommit {
        lastCommitPos := |records|;
        rollingCrc := 0;
      }
    }
    records := records[..lastCommitPos];
  }

  //
  // Replay of a written log
  //

  lemma {:induction false} FieldOf(r: WalRecord)
    requires Loggable(r)
    ensures KeyField(r) < 0x1_0000
    ensures KeyField(r) % COMMIT_BIT == |r.key| && (KeyField(r) >= COMMIT_BIT <==> r.timestamp.Some?)
  {
  }

  /** Length of an encoded record, as its header tells it. */
  function RecordLength(r: WalRecord): nat {
    4 + |r.key| + |r.value| + (if r.timestamp.Some? then 8 else 0) + 4
  }

  lemma LengthOf(crc: Checksum, roll: U32, r: WalRecord)
    ensures |EncodeRecord(crc, roll, r)| == RecordLength(r)
  {
    hide RecordCrc, LE, BE;
  }

  lemma BodyParts(body: Bytes, key: Bytes, value: Bytes, ts: Bytes, sum: Bytes, rest: Bytes)
    requires body == key + value + ts + sum + rest
    ensures |body| >= |key| + |value| + |ts| + |sum|
    ensures body[..|key|] == key && body[|key|..|key| + |value|] == value
    ensures var n := |key| + |value|; body[n..n + |ts|] == ts
    ensures var n := |key| + |value| + |ts|; body[n..n + |sum|] == sum && body[n + |sum|..] == rest
  {
  }

  lemma FieldBits(r: WalRecord)
    ensures KeyField(r) < 0x1_0000 && KeyField(r) % COMMIT_BIT == |r.key| % COMMIT_BIT
  {
  }

  lemma HeaderParts(bytes: Bytes, r: WalRecord, body: Bytes)
    requires bytes == RecordHeader(r) + body
    ensures |bytes| >= 4 && bytes[4..] == body
    ensures FromLE(bytes[0..2]) == KeyField(r) && FromLE(bytes[2..4]) == |r.value| % 0x1_0000
  {
    hide LE, FromLE, KeyField;
    FieldBits(r);
    U16Field(KeyField(r));
    U16Field(|r.value|);
    var a, b := LE(KeyField(r), 2), LE(|r.value|, 2);
    assert bytes[0..2] == a && bytes[2..4] == b;
  }

  lemma CrcField(sum: U32)
    ensures FromLE(LE(sum, 4)) == sum
  {
    FixedWidths(sum);
    LERoundTrip(sum, 4);
  }

  lemma TimestampField(r: WalRecord)
    requires Loggable(r) && r.timestamp.Some?
    ensures FromBE(TimestampBytes(r)) == r.timestamp.value && |TimestampBytes(r)| == 8
  {
    BERoundTrip(r.timestamp.value, 8);
  }

  lemma HeaderFirst(header: Bytes, key: Bytes, value: Bytes, ts: Bytes, sum: Bytes, rest: Bytes)
    ensures header + key + value + ts + sum + rest == header + (key + value + ts + sum + rest)
  {
  }

  lemma ReadParts(crc: Checksum, roll: U32, r: WalRecord, bytes: Bytes, body: Bytes, rest: Bytes)
    requires Loggable(r) && |bytes| >= 4 && bytes[4..] == body
    requires FromLE(bytes[0..2]) % COMMIT_BIT == |r.key| && (FromLE(bytes[0..2]) >= COMMIT_BIT <==> r.timestamp.Some?)
    requires FromLE(bytes[2..4]) == |r.value|
    requires |body| >= RecordLength(r) - 4
    requires body[..|r.key|] == r.key && body[|r.key|..|r.key| + |r.value|] == r.value
    requires var n := |r.key| + |r.value|; r.timestamp.Some? ==> FromBE(body[n..n + 8]) == r.timestamp.value
    requires var n := |r.key| + |r.value|; r.timestamp.Some? ==> body[n..n + 8] == TimestampBytes(r)
    requires var n := RecordLength(r) - 8; FromLE(body[n..n + 4]) == RecordCrc(crc, roll, r) && body[n + 4..] == rest
    ensures ReadRecord(crc, roll, bytes) == Some((r, RecordCrc(crc, roll, r), rest))
  {
    assert Unread(0) == [];
    hide FromLE, FromBE, Unread, TimestampBytes;
  }

  lemma EncodedIs(crc: Checksum, roll: U32, r: WalRecord, rest: Bytes)
    ensures
      var body := r.key + r.value + TimestampBytes(r) + LE(RecordCrc(crc, roll, r), 4) + rest;
      EncodeRecord(crc, roll, r) + rest == RecordHeader(r) + body
  {
    hide RecordHeader, TimestampBytes, LE, RecordCrc;
    HeaderFirst(RecordHeader(r), r.key, r.value, TimestampBytes(r), LE(RecordCrc(crc, roll, r), 4), rest);
  }

  /** The body of a record that is loggable, in its parts. */
  lemma BodyOf(crc: Checksum, roll: U32, r: WalRecord, rest: Bytes)
    requires Loggable(r)
    ensures
      var body := r.key + r.value + TimestampBytes(r) + LE(RecordCrc(crc, roll, r), 4) + rest;
      var n := |r.key| + |r.value|;
      && |body| >= RecordLength(r) - 4 && body[..|r.key|] == r.key && body[|r.key|..n] == r.value
      && (r.timestamp.Some? ==>
            body[n..n + 8] == TimestampBytes(r) && FromBE(body[n..n + 8]) == r.timestamp.value)
      && var m := RecordLength(r) - 8;
         FromLE(body[m..m + 4]) == RecordCrc(crc, roll, r) && body[m + 4..] == rest
  {
    hide LE, FromLE, BE, FromBE, Size, Loggable, TimestampBytes, RecordCrc;
    var ts, sum := TimestampBytes(r), LE(RecordCrc(crc, roll, r), 4);
    CrcField(RecordCrc(crc, roll, r));
    if r.timestamp.Some? { TimestampField(r); } else { NoTimestampField(r); }
    BodyParts(r.key + r.value + ts + sum + rest, r.key, r.value, ts, sum, rest);
  }

  /** A whole record at the front is read back, whatever follows it. */
  lemma ReadWhole(crc: Checksum, roll: U32, r: WalRecord, rest: Bytes)
    requires Loggable(r)
    ensures ReadRecord(crc, roll, EncodeRecord(crc, roll, r) + rest) == Some((r, RecordCrc(crc, roll, r), rest))
  {
    assert |r.value| % 0x1_0000 == |r.value|;
    hide *;
    var body := r.key + r.value + TimestampBytes(r) + LE(RecordCrc(crc, roll, r), 4) + rest;
    var bytes := EncodeRecord(crc, roll, r) + rest;
    FieldOf(r);
    EncodedIs(crc, roll, r, rest);
    HeaderParts(bytes, r, body);
    BodyOf(crc, roll, r, rest);
    ReadParts(crc, roll, r, bytes, body, rest);
  }

  /** What is read has the lengths of its header. */
  lemma ReadLengths(crc: Checksum, roll: U32, bytes: Bytes)
    requires ReadRecord(crc, roll, bytes).Some?
    ensures |bytes| >= 4
    ensures
      var r, field := ReadRecord(crc, roll, bytes).value.0, FromLE(bytes[0..2]);
      && |r.key| == field % COMMIT_BIT && |r.value| == FromLE(bytes[2..4])
      && (r.timestamp.Some? <==> field >= COMMIT_BIT)
    ensures
      var (r, _, after) := ReadRecord(crc, roll, bytes).value;
      |bytes| == 8 + (if r.key == [] then 0 else |r.key| + |r.value|) + (if r.timestamp.Some? then 8 else 0) + |after|
  {
    hide FromLE, FromBE;
  }

  lemma ReadHeader(crc: Checksum, roll: U32, r: WalRecord, rest: Bytes)
    requires ReadRecord(crc, roll, EncodeRecord(crc, roll, r) + rest).Some?
    ensures
      var o := ReadRecord(crc, roll, EncodeRecord(crc, roll, r) + rest).value.0;
      && |o.key| == |r.key| % COMMIT_BIT && |o.value| == |r.value| % 0x1_0000
      && (o.timestamp.Some? <==> KeyField(r) >= COMMIT_BIT)
    ensures
      var (o, _, after) := ReadRecord(crc, roll, EncodeRecord(crc, roll, r) + rest).value;
      |EncodeRecord(crc, roll, r)| + |rest|
      == 8 + (if o.key == [] then 0 else |o.key| + |o.value|) + (if o.timestamp.Some? then 8 else 0) + |after|
  {
    hide LE, FromLE, KeyField, RecordHeader, TimestampBytes, ReadRecord, RecordCrc;
    var ts, sum := TimestampBytes(r), LE(RecordCrc(crc, roll, r), 4);
    var bytes := EncodeRecord(crc, roll, r) + rest;
    HeaderFirst(RecordHeader(r), r.key, r.value, ts, sum, rest);
    HeaderParts(bytes, r, r.key + r.value + ts + sum + rest);
    FieldBits(r);
    ReadLengths(crc, roll, bytes);
  }

  /** An update without a key: the value bytes stand where the checksum is looked for. */
  lemma EmptyKeyRead(crc: Checksum, roll: U32, r: WalRecord, rest: Bytes)
    requires r.key == [] && r.timestamp.None?
    ensures
      var body := r.value + LE(RecordCrc(crc, roll, r), 4) + rest;
      var read := WalRecord([], Unread(|r.value| % 0x1_0000), None);
      var sum := crc(crc(roll, []), read.value);
      ReadRecord(crc, roll, EncodeRecord(crc, roll, r) + rest)
      == if FromLE(body[..4]) == sum then Some((read, sum, body[4..])) else None
  {
    var sum := LE(RecordCrc(crc, roll, r), 4);
    var bytes, body := EncodeRecord(crc, roll, r) + rest, r.value + sum + rest;
    FieldBits(r);
    assert TimestampBytes(r) == [];
    assert KeyField(r) == 0;
    hide LE, FromLE, FromBE, RecordHeader, TimestampBytes, RecordCrc, Unread, KeyField;
    HeaderFirst(RecordHeader(r), [], r.value, [], sum, rest);
    assert [] + r.value + [] + sum + rest == body;
    HeaderParts(bytes, r, body);
    assert body[0..][0..4] == body[..4];
  }

  /** A record that is not loggable is not read back whole: it is read as another one, or the wrong bytes follow. */
  lemma NotLoggable(crc: Checksum, roll: U32, r: WalRecord, rest: Bytes)
    requires !Loggable(r) && (r.timestamp.Some? ==> Size(r.timestamp.value) <= 8)
    requires ReadRecord(crc, roll, EncodeRecord(crc, roll, r) + rest).Some?
    ensures
      var (o, _, after) := ReadRecord(crc, roll, EncodeRecord(crc, roll, r) + rest).value;
      if r.key == [] then |after| == |r.value| + |rest| > |rest| else o != r
  {
    assert r.key == [] ==> (KeyField(r) >= COMMIT_BIT <==> r.timestamp.Some?);
    hide ReadRecord, EncodeRecord, KeyField, Size, RecordCrc;
    ReadHeader(crc, roll, r, rest);
    LengthOf(crc, roll, r);
  }

  /**
    * A record with a 64-bit timestamp is read back, and reading goes on after it, if and only if its lengths fit the
    * header and an empty key comes with an empty value.
    */
  lemma ReadBackIff(crc: Checksum, roll: U32, r: WalRecord, rest: Bytes)
    requires r.timestamp.Some? ==> Size(r.timestamp.value) <= 8
    ensures ReadRecord(crc, roll, EncodeRecord(crc, roll, r) + rest) == Some((r, RecordCrc(crc, roll, r), rest))
            <==> Loggable(r)
    ensures
      var o := ReadRecord(crc, roll, EncodeRecord(crc, roll, r) + rest);
      r.key != [] ==> (o.Some? && o.value.0 == r <==> |r.key| < COMMIT_BIT && |r.value| < 0x1_0000)
  {
    hide ReadRecord, EncodeRecord, KeyField, Size, RecordCrc;
    if Loggable(r) {
      ReadWhole(crc, roll, r, rest);
    } else if ReadRecord(crc, roll, EncodeRecord(crc, roll, r) + rest).Some? {
      NotLoggable(crc, roll, r, rest);
    }
  }

  /**
    * A record byte by byte: the lengths of key and value, low byte first, the first with its top bit for a commit; key;
    * value; the timestamp of a commit, high byte first; and the checksum of these three after the one before it, low
    * byte first.
    */
  lemma RecordLayout(crc: Checksum, roll: U32, r: WalRecord)
    requires Loggable(r)
    ensures
      var b, k, v := EncodeRecord(crc, roll, r), |r.key|, |r.value|;
      var ts := if r.timestamp.Some? then BE(r.timestamp.value, 8) else [];
      var kv := crc(crc(roll, r.key), r.value);
      && |b| == 8 + k + v + |ts|
      && b[0] == k % 256 && b[1] == k / 256 + (if r.timestamp.Some? then 128 else 0)
      && b[2] == v % 256 && b[3] == v / 256
      && b[4..4 + k] == r.key && b[4 + k..4 + k + v] == r.value && b[4 + k + v..4 + k + v + |ts|] == ts
      && b[4 + k + v + |ts|..] == LE(if r.timestamp.Some? then crc(kv, ts) else kv, 4)
  {
    hide *;
    RecordPieces(crc, roll, r);
    HeaderBytes(r);
    var ts := if r.timestamp.Some? then BE(r.timestamp.value, 8) else [];
    var kv := crc(crc(roll, r.key), r.value);
    var sum := if r.timestamp.Some? then crc(kv, ts) else kv;
    Cuts(EncodeRecord(crc, roll, r), RecordHeader(r), r.key, r.value, ts, LE(sum, 4));
  }

  lemma Cuts(b: Bytes, head: Bytes, key: Bytes, value: Bytes, ts: Bytes, sum: Bytes)
    requires b == head + (key + value + ts + sum) && |head| == 4
    ensures |b| == 4 + |key| + |value| + |ts| + |sum|
    ensures b[0] == head[0] && b[1] == head[1] && b[2] == head[2] && b[3] == head[3]
    ensures b[4..4 + |key|] == key && b[4 + |key|..4 + |key| + |value|] == value
    ensures var n := 4 + |key| + |value|; b[n..n + |ts|] == ts && b[n + |ts|..] == sum
  {
  }

  lemma RecordPieces(crc: Checksum, roll: U32, r: WalRecord)
    ensures
      var ts := if r.timestamp.Some? then BE(r.timestamp.value, 8) else [];
      var kv := crc(crc(roll, r.key), r.value);
      var sum := if r.timestamp.Some? then crc(kv, ts) else kv;
      EncodeRecord(crc, roll, r) == RecordHeader(r) + (r.key + r.value + ts + LE(sum, 4))
  {
    hide LE, BE, RecordHeader;
  }

  lemma HeaderBytes(r: WalRecord)
    requires Loggable(r)
    ensures
      var k, v := |r.key|, |r.value|;
      RecordHeader(r) == [k % 256, k / 256 + (if r.timestamp.Some? then 128 else 0), v % 256, v / 256]
  {
    var k, v := |r.key|, |r.value|;
    var field := KeyField(r);
    assert field == k + (if r.timestamp.Some? then 0x8000 else 0);
    assert field % 256 == k % 256 && field / 256 == k / 256 + (if r.timestamp.Some? then 128 else 0);
    TwoBytes(field);
    TwoBytes(v);
  }

  lemma TwoBytes(x: nat)
    requires x < 0x1_0000
    ensures LE(x, 2) == [x % 256, x / 256]
  {
    assert LE(x / 256, 1) == [(x / 256) % 256];
  }

  /** The length fields as they are read. */
  lemma FieldRead(b: Bytes)
    requires |b| >= 2
    ensures FromLE(b[0..2]) == b[0] as nat + 256 * b[1] as nat
  {
    assert b[0..2] == [b[0], b[1]];
    FromTwo(b[0], b[1]);
  }

  lemma NoTimestampField(r: WalRecord)
    requires r.timestamp.None?
    ensures TimestampBytes(r) == []
  {
  }

  /** A record cut short is not read. */
  lemma ReadTorn(crc: Checksum, roll: U32, r: WalRecord, n: nat)
    requires Loggable(r) && n < |EncodeRecord(crc, roll, r)|
    ensures ReadRecord(crc, roll, EncodeRecord(crc, roll, r)[..n]) == None
  {
    LengthOf(crc, roll, r);
    FieldOf(r);
    var whole := EncodeRecord(crc, roll, r);
    var body := r.key + r.value + TimestampBytes(r) + LE(RecordCrc(crc, roll, r), 4);
    hide LE, FromLE, BE, FromBE, Size, KeyField, RecordHeader, Unread, TimestampBytes, RecordCrc;
    assert whole == RecordHeader(r) + body;
    HeaderParts(whole, r, body);
    if n >= 4 {
      var bytes := whole[..n];
      assert bytes[0..2] == whole[0..2] && bytes[2..4] == whole[2..4];
      hide EncodeRecord;
      ShortBody(crc, roll, bytes, |r.key|, |r.value|, r.timestamp.Some?);
    }
  }

  /** A body shorter than its header says is not read. */
  lemma ShortBody(crc: Checksum, roll: U32, bytes: Bytes, keyLen: nat, valueLen: nat, isCommit: bool)
    requires |bytes| >= 4 && keyLen < COMMIT_BIT && (keyLen == 0 ==> valueLen == 0)
    requires FromLE(bytes[0..2]) == keyLen + (if isCommit then COMMIT_BIT else 0) && FromLE(bytes[2..4]) == valueLen
    requires |bytes| < 4 + keyLen + valueLen + (if isCommit then 8 else 0) + 4
    ensures ReadRecord(crc, roll, bytes) == None
  {
    hide FromLE, FromBE, Unread;
  }

  /** Records that lie wholly inside the first `n` bytes of the log. */
  function WholeWithin(crc: Checksum, roll: U32, rs: seq<WalRecord>, n: nat): (k: nat)
    ensures k <= |rs|
    decreases |rs|
  {
    if rs == [] || n < |EncodeRecord(crc, roll, rs[0])| then 0
    else 1 + WholeWithin(crc, RollPast(crc, roll, rs[0]), rs[1..], n - |EncodeRecord(crc, roll, rs[0])|)
  }

  /** `k` records lie inside `n` bytes exactly when their encoding does. */
  lemma {:induction false} WholeWithinIff(crc: Checksum, roll: U32, rs: seq<WalRecord>, n: nat, k: nat)
    requires k <= |rs|
    ensures k <= WholeWithin(crc, roll, rs, n) <==> |EncodeLog(crc, roll, rs[..k])| <= n
    decreases |rs|
  {
    hide EncodeRecord, RollPast;
    if k > 0 {
      var next := RollPast(crc, roll, rs[0]);
      assert rs[..k][1..] == rs[1..][..k - 1];
      if n >= |EncodeRecord(crc, roll, rs[0])| {
        WholeWithinIff(crc, next, rs[1..], n - |EncodeRecord(crc, roll, rs[0])|, k - 1);
      }
    }
  }

  lemma CommittedSnoc(rs: seq<WalRecord>, r: WalRecord)
    ensures Committed(rs + [r]) == if r.timestamp.Some? then |rs| + 1 else Committed(rs)
  {
    assert (rs + [r])[..|rs|] == rs;
  }

  lemma {:induction false} ReplayWritten(crc: Checksum, roll: U32, rs: seq<WalRecord>, n: nat, read: seq<WalRecord>)
    requires AllLoggable(rs) && n <= |EncodeLog(crc, roll, rs)|
    ensures ReplayFrom(crc, roll, EncodeLog(crc, roll, rs)[..n], read, Committed(read))
            == (read + rs)[..Committed(read + rs[..WholeWithin(crc, roll, rs, n)])]
    decreases |rs|
  {
    hide EncodeRecord, ReadRecord, ReplayFrom, Committed, RollPast;
    var bytes := EncodeLog(crc, roll, rs)[..n];
    ReplayStep(crc, roll, bytes, read, Committed(read));
    if rs == [] {
      ReadNothing(crc, roll);
      Untouched(read, rs);
    } else {
      var r, one := rs[0], EncodeRecord(crc, roll, rs[0]);
      var next := RollPast(crc, roll, r);
      var tail := EncodeLog(crc, next, rs[1..]);
      if n < |one| {
        assert bytes == one[..n];
        ReadTorn(crc, roll, r, n);
        Untouched(read, rs);
      } else {
        var m := n - |one|;
        assert bytes == one + tail[..m];
        ReplayOne(crc, roll, r, tail[..m], read);
        ReplayWritten(crc, next, rs[1..], m, read + [r]);
        Shifted(read, rs, WholeWithin(crc, next, rs[1..], m));
      }
    }
  }

  /** A whole record moves on to the rest of the log. */
  lemma ReplayOne(crc: Checksum, roll: U32, r: WalRecord, rest: Bytes, read: seq<WalRecord>)
    requires Loggable(r)
    ensures ReplayFrom(crc, roll, EncodeRecord(crc, roll, r) + rest, read, Committed(read))
            == ReplayFrom(crc, RollPast(crc, roll, r), rest, read + [r], Committed(read + [r]))
  {
    hide EncodeRecord, ReadRecord, ReplayFrom, RecordCrc;
    ReadWhole(crc, roll, r, rest);
    ReplayStep(crc, roll, EncodeRecord(crc, roll, r) + rest, read, Committed(read));
    CommittedSnoc(read, r);
  }

  lemma Untouched(read: seq<WalRecord>, rs: seq<WalRecord>)
    ensures read + rs[..0] == read
    ensures (read + rs)[..Committed(read)] == read[..Committed(read)]
  {
  }

  lemma Shifted(read: seq<WalRecord>, rs: seq<WalRecord>, k: nat)
    requires rs != [] && k <= |rs[1..]|
    ensures (read + [rs[0]]) + rs[1..] == read + rs
    ensures (read + [rs[0]]) + rs[1..][..k] == read + rs[..k + 1]
  {
  }

  lemma ReadNothing(crc: Checksum, roll: U32)
    ensures ReadRecord(crc, roll, []) == None
  {
  }

  lemma ReplayPrefix(crc: Checksum, rs: seq<WalRecord>, n: nat)
    requires AllLoggable(rs) && n <= |EncodeLog(crc, 0, rs)|
    ensures Replay(crc, EncodeLog(crc, 0, rs)[..n]) == rs[..Committed(rs[..WholeWithin(crc, 0, rs, n)])]
  {
    hide EncodeLog, WholeWithin, ReplayFrom;
    ReplayWritten(crc, 0, rs, n, []);
    assert [] + rs == rs && [] + rs[..WholeWithin(crc, 0, rs, n)] == rs[..WholeWithin(crc, 0, rs, n)];
  }

  /**
    * Whatever the checksum, replaying any byte prefix of a written log gives exactly the records of the
    * transactions whose commit record lies wholly inside that prefix: a run of records from the start that
    * ends with a commit, and the longest such run that fits.
    */
  lemma TornWrites(crc: Checksum, rs: seq<WalRecord>, n: nat)
    requires AllLoggable(rs) && n <= |EncodeLog(crc, 0, rs)|
    ensures
      var m := |Replay(crc, EncodeLog(crc, 0, rs)[..n])|;
      && m <= |rs| && Replay(crc, EncodeLog(crc, 0, rs)[..n]) == rs[..m]
      && (m > 0 ==> rs[m - 1].timestamp.Some?)
      && |EncodeLog(crc, 0, rs[..m])| <= n
      && forall k :: m < k <= |rs| && rs[k - 1].timestamp.Some? ==> |EncodeLog(crc, 0, rs[..k])| > n
  {
    ReplayPrefix(crc, rs, n);
    var w := WholeWithin(crc, 0, rs, n);
    var m := Committed(rs[..w]);
    assert m > 0 ==> rs[..w][m - 1] == rs[m - 1];
    assert forall i :: m <= i < w ==> rs[..w][i] == rs[i] && rs[i].timestamp.None?;
    hide *;
    WholeWithinIff(crc, 0, rs, n, m);
    forall k | m < k <= |rs| && rs[k - 1].timestamp.Some? ensures |EncodeLog(crc, 0, rs[..k])| > n {
      WholeWithinIff(crc, 0, rs, n, k);
    }
  }

  /** A log that ends in a torn record, or in a whole one, replays to its committed part. */
  lemma ReplayTorn(crc: Checksum, rs: seq<WalRecord>, r: WalRecord, n: nat)
    requires AllLoggable(rs) && Loggable(r) && n < |EncodeRecord(crc, RollAfter(crc, 0, rs), r)|
    ensures Replay(crc, EncodeLog(crc, 0, rs) + EncodeRecord(crc, RollAfter(crc, 0, rs), r)[..n]) == rs[..Committed(rs)]
  {
    hide EncodeLog, EncodeRecord, RollAfter, Replay, WholeWithin, Committed, Loggable;
    var log, one := EncodeLog(crc, 0, rs), EncodeRecord(crc, RollAfter(crc, 0, rs), r);
    var all := rs + [r];
    Appending(crc, rs, r);
    var m := |log| + n;
    assert AllLoggable(all);
    hide *;
    TakeInto(log, one, n);
    TakeInto(rs, [r], 0);
    WholeWithinIff(crc, 0, all, m, |rs|);
    assert all[..|all|] == all;
    WholeWithinIff(crc, 0, all, m, |all|);
    ReplayPrefix(crc, all, m);
    TakeInto(rs, [r], 0);
    PrefixOfPrefix(rs, r, Committed(rs));
  }

  lemma TakeInto<T>(a: seq<T>, b: seq<T>, n: nat)
    requires n <= |b|
    ensures (a + b)[..|a| + n] == a + b[..n]
    ensures n == 0 ==> (a + b)[..|a|] == a
  {
  }

  lemma PrefixOfPrefix<T>(a: seq<T>, x: T, n: nat)
    requires n <= |a|
    ensures (a + [x])[..n] == a[..n]
  {
  }

  lemma ReplayWhole(crc: Checksum, rs: seq<WalRecord>)
    requires AllLoggable(rs)
    ensures Replay(crc, EncodeLog(crc, 0, rs)) == rs[..Committed(rs)]
  {
    var r := WalRecord([], [], None);
    LengthOf(crc, RollAfter(crc, 0, rs), r);
    ReplayTorn(crc, rs, r, 0);
    assert EncodeLog(crc, 0, rs) + EncodeRecord(crc, RollAfter(crc, 0, rs), r)[..0] == EncodeLog(crc, 0, rs);
  }

  /** Replay gets past the whole records in front. */
  lemma {:induction false} ReplayPast(crc: Checksum, roll: U32, rs: seq<WalRecord>, bytes: Bytes, read: seq<WalRecord>)
    requires AllLoggable(rs)
    ensures ReplayFrom(crc, roll, EncodeLog(crc, roll, rs) + bytes, read, Committed(read))
            == ReplayFrom(crc, RollAfter(crc, roll, rs), bytes, read + rs, Committed(read + rs))
    decreases |rs|
  {
    hide EncodeRecord, ReadRecord, ReplayFrom, Committed, RollPast;
    if rs == [] {
      assert [] + bytes == bytes && read + rs == read;
    } else {
      var r, next := rs[0], RollPast(crc, roll, rs[0]);
      var one, tail := EncodeRecord(crc, roll, r), EncodeLog(crc, next, rs[1..]);
      assert (one + tail) + bytes == one + (tail + bytes);
      ReplayOne(crc, roll, r, tail + bytes, read);
      ReplayPast(crc, next, rs[1..], bytes, read + [r]);
      assert (read + [r]) + rs[1..] == read + rs;
    }
  }

  /** Lengths within those of the header, as all records that are read have. */
  predicate Small(rs: seq<WalRecord>) {
    forall i :: 0 <= i < |rs| ==> |rs[i].key| < COMMIT_BIT && |rs[i].value| < 0x1_0000
  }

  lemma ReadSmall(crc: Checksum, roll: U32, bytes: Bytes)
    requires ReadRecord(crc, roll, bytes).Some?
    ensures Small([ReadRecord(crc, roll, bytes).value.0])
  {
    hide ReadRecord, FromLE;
    ReadLengths(crc, roll, bytes);
    FieldSmall(bytes[2..4]);
  }

  lemma FieldSmall(b: Bytes)
    requires |b| == 2
    ensures FromLE(b) < 0x1_0000
  {
    var tail := b[1..];
    assert tail[1..] == [];
    assert FromLE(tail[1..]) == 0;
    assert FromLE(tail) == tail[0];
    assert FromLE(b) == b[0] + 256 * FromLE(tail);
  }

  lemma SmallParts(rs: seq<WalRecord>, r: WalRecord, n: nat)
    requires Small(rs) && n <= |rs|
    ensures Small(rs[..n])
    ensures Small([r]) ==> Small(rs + [r])
  {
    assert [r][0] == r;
  }

  lemma {:induction false} ReplayFromSmall(crc: Checksum, roll: U32, bytes: Bytes, read: seq<WalRecord>, committed: nat)
    requires committed <= |read| && Small(read)
    ensures Small(ReplayFrom(crc, roll, bytes, read, committed))
    decreases |bytes|
  {
    hide ReadRecord, Small, ReplayFrom;
    ReplayStep(crc, roll, bytes, read, committed);
    var o := ReadRecord(crc, roll, bytes);
    if o.None? {
      SmallParts(read, WalRecord([], [], None), committed);
    } else {
      var r := o.value.0;
      ReadSmall(crc, roll, bytes);
      SmallParts(read, r, committed);
      ReplayFromSmall(crc, if r.timestamp.Some? then 0 else o.value.1, o.value.2, read + [r],
                      if r.timestamp.Some? then |read| + 1 else committed);
    }
  }

  /** Whatever the file holds. */
  lemma ReplaySmall(crc: Checksum, file: Bytes)
    ensures Small(Replay(crc, file))
  {
    hide ReplayFrom;
    ReplayFromSmall(crc, 0, file, [], 0);
  }

  /** What is committed stays in the result. */
  lemma {:induction false} ReplayKeeps(crc: Checksum, roll: U32, bytes: Bytes, read: seq<WalRecord>, committed: nat)
    requires committed <= |read|
    ensures read[..committed] <= ReplayFrom(crc, roll, bytes, read, committed)
    decreases |bytes|
  {
    hide ReadRecord;
    var o := ReadRecord(crc, roll, bytes);
    if o.Some? {
      var r := o.value.0;
      var all := read + [r];
      var n := if r.timestamp.Some? then |read| + 1 else committed;
      ReplayKeeps(crc, if r.timestamp.Some? then 0 else o.value.1, o.value.2, all, n);
      assert all[..n][..committed] == read[..committed];
    }
  }

  /**
    * An update whose key has 2^15 to 2^16 - 1 bytes is logged as a commit record of a shorter key. If the bytes
    * it is mistaken for have the wrong checksum, replay stops there: that transaction, and all that were
    * committed after it, are lost. If the checksum fits, the records before it count as committed.
    */
  lemma LongKeyLooksCommitted(crc: Checksum, rs: seq<WalRecord>, r: WalRecord, rest: Bytes)
    requires AllLoggable(rs) && r.timestamp.None? && COMMIT_BIT <= |r.key| < 0x1_0000
    ensures
      var roll := RollAfter(crc, 0, rs);
      var bytes := EncodeRecord(crc, roll, r) + rest;
      var o := ReadRecord(crc, roll, bytes);
      if o.None? then Replay(crc, EncodeLog(crc, 0, rs) + bytes) == rs[..Committed(rs)]
      else
        var read := o.value.0;
        && read.timestamp.Some? && |read.key| == |r.key| - COMMIT_BIT
        && rs + [read] <= Replay(crc, EncodeLog(crc, 0, rs) + bytes)
  {
    hide EncodeRecord, EncodeLog, ReadRecord, Replay, Committed, RollAfter, AllLoggable;
    var roll := RollAfter(crc, 0, rs);
    ReplayAfter(crc, rs, EncodeRecord(crc, roll, r) + rest);
    if ReadRecord(crc, roll, EncodeRecord(crc, roll, r) + rest).Some? {
      ReadHeader(crc, roll, r, rest);
    }
  }

  /**
    * An update with an empty key. With an empty value it is read back; with another, replay stops there unless the
    * first bytes of the value happen to fit as a checksum, and that transaction and all that were committed after it
    * are lost. If they fit, it goes on reading within the value.
    */
  lemma EmptyKeyMisread(crc: Checksum, rs: seq<WalRecord>, v: Bytes, rest: Bytes)
    requires AllLoggable(rs)
    ensures
      var r, roll := WalRecord([], v, None), RollAfter(crc, 0, rs);
      var bytes := EncodeRecord(crc, roll, r) + rest;
      var o := ReadRecord(crc, roll, bytes);
      && (o.None? <==> FromLE((v + LE(RecordCrc(crc, roll, r), 4) + rest)[..4])
                       != crc(crc(roll, []), Unread(|v| % 0x1_0000)))
      && (o.None? ==> Replay(crc, EncodeLog(crc, 0, rs) + bytes) == rs[..Committed(rs)])
      && (o.Some? ==> o.value.0.key == [] && o.value.0.timestamp.None? && |o.value.2| == |v| + |rest|)
      && (v == [] ==> o.Some? && o.value.2 == rest)
  {
    hide EncodeRecord, EncodeLog, ReadRecord, Replay, Committed, RollAfter, AllLoggable, Loggable, LE, FromLE, Unread;
    hide RecordCrc;
    var r, roll := WalRecord([], v, None), RollAfter(crc, 0, rs);
    ReplayAfter(crc, rs, EncodeRecord(crc, roll, r) + rest);
    EmptyKeyRead(crc, roll, r, rest);
    if v == [] { ReadNothingWhole(crc, roll, r, rest); }
  }

  /** A record with any other checksum ends the replay before it. */
  lemma ChecksumDecides(crc: Checksum, rs: seq<WalRecord>, r: WalRecord, sum: U32, rest: Bytes)
    requires AllLoggable(rs) && Loggable(r) && sum != RecordCrc(crc, RollAfter(crc, 0, rs), r)
    ensures
      var roll := RollAfter(crc, 0, rs);
      var whole := EncodeRecord(crc, roll, r);
      var damaged := whole[..|whole| - 4] + LE(sum, 4);
      Replay(crc, EncodeLog(crc, 0, rs) + (damaged + rest)) == rs[..Committed(rs)]
  {
    var roll := RollAfter(crc, 0, rs);
    var whole := EncodeRecord(crc, roll, r);
    LengthOf(crc, roll, r);
    assert |whole| >= 4;
    DamagedRead(crc, roll, r, sum, rest);
    hide EncodeRecord, EncodeLog, ReadRecord, Replay, Committed, RollAfter, AllLoggable, Loggable, LE, RecordCrc;
    ReplayAfter(crc, rs, whole[..|whole| - 4] + LE(sum, 4) + rest);
  }

  lemma DamagedRead(crc: Checksum, roll: U32, r: WalRecord, sum: U32, rest: Bytes)
    requires Loggable(r) && sum != RecordCrc(crc, roll, r)
    ensures
      var whole := EncodeRecord(crc, roll, r);
      |whole| >= 4 && ReadRecord(crc, roll, whole[..|whole| - 4] + LE(sum, 4) + rest) == None
  {
    var whole := EncodeRecord(crc, roll, r);
    var ts := TimestampBytes(r);
    var body := r.key + r.value + ts + LE(sum, 4) + rest;
    var bytes := whole[..|whole| - 4] + LE(sum, 4) + rest;
    DamagedIs(crc, roll, r, sum, rest);
    FieldOf(r);
    CrcField(sum);
    if r.timestamp.Some? { TimestampField(r); } else { NoTimestampField(r); }
    assert |r.value| % 0x1_0000 == |r.value|;
    hide LE, FromLE, BE, FromBE, Size, RecordHeader, TimestampBytes, RecordCrc, EncodeRecord, KeyField;
    HeaderParts(bytes, r, body);
    BodyParts(body, r.key, r.value, ts, LE(sum, 4), rest);
    hide ReadRecord;
    OtherSum(crc, roll, r, bytes, body, sum);
  }

  lemma DamagedIs(crc: Checksum, roll: U32, r: WalRecord, sum: U32, rest: Bytes)
    ensures
      var whole := EncodeRecord(crc, roll, r);
      && |whole| >= 4
      && whole[..|whole| - 4] + LE(sum, 4) + rest
         == RecordHeader(r) + (r.key + r.value + TimestampBytes(r) + LE(sum, 4) + rest)
  {
    hide LE, RecordHeader, TimestampBytes, RecordCrc;
    var head := RecordHeader(r) + (r.key + r.value + TimestampBytes(r));
    assert EncodeRecord(crc, roll, r) == head + LE(RecordCrc(crc, roll, r), 4);
  }

  lemma OtherSum(crc: Checksum, roll: U32, r: WalRecord, bytes: Bytes, body: Bytes, sum: U32)
    requires Loggable(r) && |bytes| >= 4 && bytes[4..] == body && sum != RecordCrc(crc, roll, r)
    requires FromLE(bytes[0..2]) % COMMIT_BIT == |r.key| && (FromLE(bytes[0..2]) >= COMMIT_BIT <==> r.timestamp.Some?)
    requires FromLE(bytes[2..4]) == |r.value|
    requires |body| >= RecordLength(r) - 4
    requires body[..|r.key|] == r.key && body[|r.key|..|r.key| + |r.value|] == r.value
    requires var n := |r.key| + |r.value|; r.timestamp.Some? ==> body[n..n + 8] == TimestampBytes(r)
    requires var n := RecordLength(r) - 8; FromLE(body[n..n + 4]) == sum
    ensures ReadRecord(crc, roll, bytes) == None
  {
    hide FromLE, FromBE, ReadBody, Loggable;
    var field := FromLE(bytes[0..2]);
    LoggableKey(r);
    if r.key == [] {
      NoKeyBody(crc, roll, field, |r.value|, body);
    } else {
      KeyBody(crc, roll, field, |r.value|, body);
    }
  }

  lemma LoggableKey(r: WalRecord)
    requires Loggable(r)
    ensures r.key == [] ==> r.value == [] == Unread(|r.value|)
  {
  }

  lemma ReadNothingWhole(crc: Checksum, roll: U32, r: WalRecord, rest: Bytes)
    requires r == WalRecord([], [], None)
    ensures ReadRecord(crc, roll, EncodeRecord(crc, roll, r) + rest) == Some((r, RecordCrc(crc, roll, r), rest))
  {
    ReadWhole(crc, roll, r, rest);
  }

  /** Replay after whole records: it stops, or reads on. */
  lemma ReplayAfter(crc: Checksum, rs: seq<WalRecord>, bytes: Bytes)
    requires AllLoggable(rs)
    ensures
      var o := ReadRecord(crc, RollAfter(crc, 0, rs), bytes);
      && (o.None? ==> Replay(crc, EncodeLog(crc, 0, rs) + bytes) == rs[..Committed(rs)])
      && (o.Some? && o.value.0.timestamp.Some? ==> rs + [o.value.0] <= Replay(crc, EncodeLog(crc, 0, rs) + bytes))
  {
    hide EncodeLog, ReadRecord, ReplayFrom, RollAfter, AllLoggable, Committed;
    ReplayPast(crc, 0, rs, bytes, []);
    assert [] + rs == rs;
    NoneCommitted();
    ReplayStep(crc, RollAfter(crc, 0, rs), bytes, rs, Committed(rs));
    var o := ReadRecord(crc, RollAfter(crc, 0, rs), bytes);
    if o.Some? && o.value.0.timestamp.Some? {
      var all := rs + [o.value.0];
      ReplayKeeps(crc, 0, o.value.2, all, |all|);
      assert all[..|all|] == all;
    }
  }

  lemma NoneCommitted()
    ensures Committed([]) == 0
  {
  }

  //
  // The writer
  //

  class WriteAheadLog {
    const crc: Checksum
    var file: Bytes
    var pos: nat
    var lastCommitPos: nat
    var rollingCrc: U32

    /** The records written since the log was created or reset, without those truncated away. */
    ghost var records: seq<WalRecord>

    ghost predicate Valid()
      reads this
    {
      IsLog(crc, records, file, pos, lastCommitPos, rollingCrc)
    }

    /** A file torn anywhere past the last commit replays to exactly the committed records. */
    lemma TornFile(n: nat)
      requires Valid() && AllLoggable(records) && lastCommitPos <= n <= |file|
      ensures Replay(crc, file[..n]) == records[..Committed(records)]
    {
      hide Replay, EncodeLog, AllLoggable, RollAfter;
      TornWrites(crc, records, n);
      var m, k := |Replay(crc, file[..n])|, Committed(records);
      assert k > 0 ==> records[k - 1].timestamp.Some?;
    }

    constructor (crc: Checksum)
      ensures Valid() && records == [] && this.crc == crc
    {
      this.crc, file, pos, lastCommitPos, rollingCrc, records := crc, [], 0, 0, 0, [];
    }

    /** Writes at the cursor of the file. */
    method WriteAll(data: Bytes)
      requires pos <= |file|
      modifies this`file, this`pos
      ensures pos == old(pos) + |data|
      ensures old(pos) == |old(file)| ==> file == old(file) + data && pos == |file|
    {
      file := file[..pos] + data + (if pos + |data| <= |file| then file[pos + |data|..] else []);
      pos := pos + |data|;
    }

    method WriteRecord(key: Bytes, value: Bytes, commit: Option<nat>)
      requires Valid()
      modifies this
      ensures Valid() && records == old(records) + [WalRecord(key, value, commit)]
    {
      hide IsLog, LE, BE, RecordCrc, TimestampBytes;
      ghost var r := WalRecord(key, value, commit);
      LogGrows(crc, records, r, file, pos, lastCommitPos, rollingCrc);
      RecordParts(crc, rollingCrc, r);
      var keyLen := |key| % 0x1_0000;
      if commit.Some? && keyLen < COMMIT_BIT {
        keyLen := keyLen + COMMIT_BIT;
      }
      WriteAll(LE(keyLen, 2));
      WriteAll(LE(|value|, 2));
      var hasher := rollingCrc;
      WriteAll(key);
      hasher := crc(hasher, key);
      WriteAll(value);
      hasher := crc(hasher, value);
      if commit.Some? {
        WriteAll(BE(commit.value, 8));
        hasher := crc(hasher, BE(commit.value, 8));
      }
      rollingCrc := hasher;
      WriteAll(LE(rollingCrc, 4));
      if commit.Some? {
        lastCommitPos := pos;
        rollingCrc := 0;
      }
      records := records + [r];
    }

    method WriteCommit(ts: nat)
      requires Valid()
      modifies this
      ensures Valid() && records == old(records) + [WalRecord([], [], Some(ts))]
    {
      WriteRecord([], [], Some(ts));
    }

    /** Drops the records after the last commit. */
    method TruncateToLastCommit()
      requires Valid()
      modifies this
      ensures Valid() && records == old(records)[..Committed(old(records))]
    {
      hide IsLog;
      LogCut(crc, records, file, pos, lastCommitPos, rollingCrc);
      file := file[..lastCommitPos];
      pos := lastCommitPos;
      rollingCrc := 0;
      records := records[..Committed(records)];
    }

    method Reset()
      requires Valid()
      modifies this
      ensures Valid() && records == [] && file == []
    {
      file, pos, lastCommitPos, rollingCrc, records := [], 0, 0, 0, [];
    }
  }

  /** Cutting the file after the last commit leaves the log of the committed records. */
  lemma LogCut(crc: Checksum, rs: seq<WalRecord>, file: Bytes, pos: nat, lastCommitPos: nat, roll: U32)
    requires IsLog(crc, rs, file, pos, lastCommitPos, roll)
    ensures lastCommitPos <= |file|
    ensures IsLog(crc, rs[..Committed(rs)], file[..lastCommitPos], lastCommitPos, lastCommitPos, 0)
  {
    hide EncodeLog, RollAfter;
    var n := Committed(rs);
    assert rs == rs[..n] + rs[n..];
    EncodeLogConcat(crc, 0, rs[..n], rs[n..]);
    CommittedRoll(crc, rs);
    CommittedPrefix(rs);
  }

  lemma RecordBytes(file: Bytes, a: Bytes, b: Bytes, key: Bytes, value: Bytes, ts: Bytes, sum: Bytes)
    ensures file + ((a + b) + (key + value + ts + sum)) == file + a + b + key + value + ts + sum
    ensures ts == [] ==> file + ((a + b) + (key + value + ts + sum)) == file + a + b + key + value + sum
  {
  }

  lemma RecordParts(crc: Checksum, roll: U32, r: WalRecord)
    ensures
      var kv := crc(crc(roll, r.key), r.value);
      match r.timestamp
      case Some(ts) => TimestampBytes(r) == BE(ts, 8) && RecordCrc(crc, roll, r) == crc(kv, BE(ts, 8))
      case None => TimestampBytes(r) == [] && RecordCrc(crc, roll, r) == kv
  {
  }

  /** The file, the positions and the checksum of a log object are those of its records. */
  predicate IsLog(crc: Checksum, rs: seq<WalRecord>, file: Bytes, pos: nat, lastCommitPos: nat, roll: U32) {
    && file == EncodeLog(crc, 0, rs) && pos == |file|
    && lastCommitPos == |EncodeLog(crc, 0, rs[..Committed(rs)])|
    && roll == RollAfter(crc, 0, rs)
  }

  /** Writing the fields of a record one after the other appends it. */
  lemma LogGrows(crc: Checksum, rs: seq<WalRecord>, r: WalRecord, file: Bytes, pos: nat, lastCommitPos: nat, roll: U32)
    requires IsLog(crc, rs, file, pos, lastCommitPos, roll)
    ensures pos == |file|
    ensures
      var sum := RecordCrc(crc, roll, r);
      var before := file + LE(KeyField(r), 2) + LE(|r.value|, 2) + r.key + r.value;
      var grown := (if r.timestamp.Some? then before + TimestampBytes(r) else before) + LE(sum, 4);
      IsLog(crc, rs + [r], grown, |grown|, if r.timestamp.Some? then |grown| else lastCommitPos,
            if r.timestamp.Some? then 0 else sum)
  {
    hide EncodeLog, RollAfter, LE, BE, Committed, RecordCrc, KeyField;
    Appending(crc, rs, r);
    RecordBytes(file, LE(KeyField(r), 2), LE(|r.value|, 2), r.key, r.value, TimestampBytes(r),
                LE(RecordCrc(crc, roll, r), 4));
  }

  /** What one more record does to the log. */
  lemma Appending(crc: Checksum, rs: seq<WalRecord>, r: WalRecord)
    ensures
      var all := rs + [r];
      && EncodeLog(crc, 0, all) == EncodeLog(crc, 0, rs) + EncodeRecord(crc, RollAfter(crc, 0, rs), r)
      && RollAfter(crc, 0, all) == RollPast(crc, RollAfter(crc, 0, rs), r)
      && all[..Committed(all)] == (if r.timestamp.Some? then all else rs[..Committed(rs)])
  {
    EncodeLogConcat(crc, 0, rs, [r]);
    EncodeLogOne(crc, RollAfter(crc, 0, rs), r);
    CommittedSnoc(rs, r);
  }

  lemma CommittedPrefix(rs: seq<WalRecord>)
    ensures var done := rs[..Committed(rs)]; done[..Committed(done)] == done
  {
  }
}
