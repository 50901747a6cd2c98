/** Reading a path segment by segment (src/path/read.rs). */
module PathReaders {
  import opened ByteStrings
  import opened Paths
  import VarInts
  import FractionalIndices

  datatype PathError = Delimiter(byte: Byte) | VarInt | InvalidField | InvalidIndex | TooLong

  datatype PathSegment = Field(name: Bytes) | Index(bytes: Bytes) | Tail(terminator: Terminator)

  /** What one call of `next` gives: the end of the path, or a segment or an error; and the bytes left. */
  datatype Item = Done | Read(result: Result<PathSegment, PathError>)

  /** No varint that `next` reads is cut short. */
  predicate Readable(buf: Bytes) {
    |buf| >= 2 && buf[0] == DELIMITER ==>
      && (buf[1] == TERMINATOR_CHUNKED ==> VarInts.Complete(buf[2..], 8))
      && (1 <= buf[1] < 17 ==> FractionalIndices.RoundsComplete(buf[1..]))
  }

  /** Length of the field at the front of `buf`: the bytes before the next delimiter. */
  function FieldLength(buf: Bytes): (n: nat)
    ensures n <= |buf|
  {
    if buf == [] || buf[0] == DELIMITER then 0 else 1 + FieldLength(buf[1..])
  }

  /** `next`, once the delimiter is gone: `buf` starts with the byte that tells the kind of the segment. */
  function ReadKind(buf: Bytes): (Result<PathSegment, PathError>, Bytes)
    requires buf != [] && Readable([DELIMITER] + buf)
  {
    var kind := buf[0];
    if kind == TERMINATOR_CHUNKED then
      assert ([DELIMITER] + buf)[2..] == buf[1..];
      match VarInts.Decode(buf[1..], 8)
      case None => (Err(VarInt), buf[1..])
      case Some((end, n)) => (Ok(Tail(Chunked(end))), buf[1..][n..])
    else if kind == TERMINATOR_LWW then (Ok(Tail(Lww)), [])
    else if kind == TERMINATOR_COUNTER then
      if |buf| == 5 then (Ok(Tail(Counter(ReadPid(buf[1..])))), []) else (Err(VarInt), buf[1..])
    else if 1 <= kind < 17 then
      assert ([DELIMITER] + buf)[1..] == buf;
      match FractionalIndices.IndexLength(buf)
      case None => (Err(InvalidIndex), buf)
      case Some(n) => if n == 0 then (Err(InvalidIndex), buf) else (Ok(Index(buf[..n])), buf[n..])
    else if 17 <= kind < 32 then (Err(Delimiter(kind)), buf)
    else (Ok(Field(buf[..FieldLength(buf)])), buf[FieldLength(buf)..])
  }

  function ReadPid(bytes: Bytes): U32
    requires |bytes| == 4
  {
    FromBESize(bytes);
    FixedWidths(FromBE(bytes));
    FromBE(bytes)
  }

  function ReadNext(buf: Bytes): (Item, Bytes)
    requires Readable(buf)
  {
    if |buf| < 2 then (Done, buf)
    else if buf[0] != DELIMITER then (Read(Err(Delimiter(buf[0]))), buf)
    else
      assert buf == [DELIMITER] + buf[1..];
      var (r, rest) := ReadKind(buf[1..]);
      (Read(r), rest)
  }

  class PathReader {
    var buf: Bytes

    constructor (buf: Bytes)
      ensures this.buf == buf
    {
      this.buf := buf;
    }

    method ReadField() returns (name: Bytes)
      modifies this
      ensures name == old(buf)[..FieldLength(old(buf))] && buf == old(buf)[FieldLength(old(buf))..]
    {
      var i := 0;
      while i < |buf|
        invariant 0 <= i <= |buf| && buf == old(buf)
        invariant FieldLength(buf) == i + FieldLength(buf[i..])
      {
        if buf[i] == DELIMITER {
          break;
        }
        i := i + 1;
      }
      name, buf := buf[..i], buf[i..];
    }

    method Next() returns (item: Item)
      requires Readable(buf)
      modifies this
      ensures (item, buf) == ReadNext(old(buf))
    {
      if |buf| < 2 {
        return Done;
      }
      var delim := buf[0];
      if delim != DELIMITER {
        return Read(Err(Delimiter(delim)));
      }
      ghost var all := buf;
      buf := buf[1..];
      assert all == [DELIMITER] + buf && all[1..] == buf && all[2..] == buf[1..];
      var kind := buf[0];
      if kind == TERMINATOR_CHUNKED {
        buf := buf[1..];
        var r := VarInts.ReadFrom(buf, 8);
        if r.None? {
          item := Read(Err(VarInt));
        } else {
          buf := buf[r.value.1..];
          item := Read(Ok(Tail(Chunked(r.value.0))));
        }
      } else if kind == TERMINATOR_LWW {
        buf := [];
        item := Read(Ok(Tail(Lww)));
      } else if kind == TERMINATOR_COUNTER {
        buf := buf[1..];
        if |buf| != 4 {
          item := Read(Err(VarInt));
        } else {
          var pid := ReadPid(buf);
          buf := [];
          item := Read(Ok(Tail(Counter(pid))));
        }
      } else if 1 <= kind < 17 {
        var r := FractionalIndices.FromBytes(buf);
        if r.None? {
          item := Read(Err(InvalidIndex));
        } else {
          item := Read(Ok(Index(buf[..r.value])));
          buf := buf[r.value..];
        }
      } else if 17 <= kind < 32 {
        item := Read(Err(Delimiter(kind)));
      } else {
        var name := ReadField();
        item := Read(Ok(Field(name)));
      }
    }
  }

  //
  // Round trip
  //

  /** The segment the reader reports for a step. */
  function StepSegment(s: Step): PathSegment {
    match s
    case Name(f) => Field(f)
    case Position(index) => Index(FractionalIndices.Encode(index))
  }

  function StepSegments(steps: seq<Step>): seq<PathSegment> {
    if steps == [] then [] else [StepSegment(steps[0])] + StepSegments(steps[1..])
  }

  /** Collecting the segments up to the end or the first error, as the iterator's callers do. */
  ghost predicate Collects(buf: Bytes, segments: seq<PathSegment>)
    decreases |segments|
  {
    && Readable(buf)
    && var (item, rest) := ReadNext(buf);
       if segments == [] then item == Done
       else item == Read(Ok(segments[0])) && Collects(rest, segments[1..])
  }

  lemma {:induction false} FieldLengthOf(name: Bytes, rest: Bytes)
    requires ValidField(name) && (rest == [] || rest[0] == DELIMITER)
    ensures FieldLength(name + rest) == |name|
  {
    if name == [] {
      assert name + rest == rest;
    } else {
      assert (name + rest)[0] == name[0] && (name + rest)[1..] == name[1..] + rest;
      FieldLengthOf(name[1..], rest);
    }
  }

  lemma ReadName(f: Bytes, rest: Bytes)
    requires ValidField(f) && rest != [] && rest[0] == DELIMITER
    ensures Readable([DELIMITER] + (f + rest))
    ensures ReadNext([DELIMITER] + (f + rest)) == (Read(Ok(Field(f))), rest)
  {
    var after := f + rest;
    var buf := [DELIMITER] + after;
    FieldLengthOf(f, rest);
    assert buf[1..] == after;
    assert buf[1] == DELIMITER || buf[1] >= 32;
    assert after[..|f|] == f && after[|f|..] == rest;
  }

  lemma ReadPosition(index: seq<FractionalIndices.Segment>, rest: Bytes)
    requires index != [] && rest != [] && rest[0] == DELIMITER
    ensures Readable([DELIMITER] + (FractionalIndices.Encode(index) + rest))
    ensures ReadNext([DELIMITER] + (FractionalIndices.Encode(index) + rest))
            == (Read(Ok(Index(FractionalIndices.Encode(index)))), rest)
  {
    hide FractionalIndices.Encode, FractionalIndices.RoundsComplete, FractionalIndices.IndexLength;
    var bytes := FractionalIndices.Encode(index);
    var after := bytes + rest;
    var buf := [DELIMITER] + after;
    FractionalIndices.IndexFirstByte(index);
    FractionalIndices.IndexLengthOfEncoded(index, rest);
    assert buf[1..] == after;
    assert after[..|bytes|] == bytes && after[|bytes|..] == rest;
  }

  lemma ReadStep(s: Step, rest: Bytes)
    requires ValidStep(s) && rest != [] && rest[0] == DELIMITER
    ensures Readable([DELIMITER] + StepBody(s) + rest)
    ensures ReadNext([DELIMITER] + StepBody(s) + rest) == (Read(Ok(StepSegment(s))), rest)
  {
    hide Readable, ReadNext;
    assert [DELIMITER] + StepBody(s) + rest == [DELIMITER] + (StepBody(s) + rest);
    match s
    case Name(f) => ReadName(f, rest);
    case Position(index) => ReadPosition(index, rest);
  }

  lemma ReadTail(t: Terminator)
    requires ValidTail(t)
    ensures Readable([DELIMITER] + TailBody(t))
    ensures ReadNext([DELIMITER] + TailBody(t)) == (Read(Ok(Tail(t))), [])
  {
    var buf := [DELIMITER] + TailBody(t);
    assert buf[1..] == TailBody(t);
    match t
    case Lww =>
    case Counter(pid) =>
      FixedWidths(pid);
      BERoundTrip(pid, 4);
      assert TailBody(t)[1..] == BE(pid, 4);
    case Chunked(end) =>
      VarInts.RoundTrip(end, 8, []);
      assert VarInts.Encode(end) + [] == VarInts.Encode(end);
      assert TailBody(t)[1..] == VarInts.Encode(end) && buf[2..] == VarInts.Encode(end);
  }

  lemma ReadNothing()
    ensures Readable([]) && ReadNext([]) == (Done, [])
  {
  }

  /** Reading an encoded path yields exactly its segments and its terminator. */
  lemma {:induction false} PathRoundTrip(p: Path)
    requires Valid(p)
    ensures Collects(Encode(p), StepSegments(p.steps) + [Tail(p.tail)])
    decreases |p.steps|
  {
    hide StepBody, TailBody, ReadNext, Readable;
    var segments := StepSegments(p.steps) + [Tail(p.tail)];
    assert Readable([]) && ReadNext([]) == (Done, []) by { ReadNothing(); }
    if p.steps == [] {
      assert Encode(p) == [DELIMITER] + TailBody(p.tail);
      ReadTail(p.tail);
    } else {
      var rest := Path(p.steps[1..], p.tail);
      PathRoundTrip(rest);
      EncodeIsDelimited(rest);
      assert Encode(p) == [DELIMITER] + StepBody(p.steps[0]) + Encode(rest);
      ReadStep(p.steps[0], Encode(rest));
      assert segments[1..] == StepSegments(rest.steps) + [Tail(rest.tail)];
    }
  }

  /**
    * What a call of `next` reads is what the buffer holds, and each error has its cause. A name runs to the next 0 byte
    * and does not begin with a byte below 32; an index begins with 1 to 16; 29, 30 and 31 are terminators.
    */
  predicate Holds(buf: Bytes, item: Item, rest: Bytes) {
    match item
    case Done => |buf| < 2 && rest == buf
    case Read(Ok(Field(name))) =>
      && buf == [0] + name + rest && 0 !in name && (name != [] ==> name[0] >= 32) && (rest != [] ==> rest[0] == 0)
    case Read(Ok(Index(bytes))) => buf == [0] + bytes + rest && bytes != [] && 1 <= bytes[0] < 17
    case Read(Ok(Tail(Lww))) => |buf| >= 2 && buf[..2] == [0, 30] && rest == []
    case Read(Ok(Tail(Counter(pid)))) => |buf| == 6 && buf[..2] == [0, 29] && FromBE(buf[2..]) == pid && rest == []
    case Read(Ok(Tail(Chunked(end)))) =>
      && |buf| >= 3 && buf[..2] == [0, 31] && 3 + buf[2] as nat <= |buf|
      && rest == buf[3 + buf[2]..] && FromBE(buf[3..3 + buf[2]]) == end
    case Read(Err(Delimiter(b))) =>
      |buf| >= 2
      && if buf[0] == 0 then rest == buf[1..] && b == buf[1] && 17 <= b < 29 else rest == buf && b == buf[0]
    case Read(Err(VarInt)) =>
      && |buf| >= 2 && rest == buf[2..]
      && ((buf[..2] == [0, 29] && |buf| != 6) || (buf[..2] == [0, 31] && (|buf| == 2 || buf[2] > 8)))
    case Read(Err(InvalidIndex)) => |buf| >= 2 && rest == buf[1..] && buf[0] == 0 && 1 <= buf[1] < 17
    case _ => false
  }

  lemma ReadsWhatIsThere(buf: Bytes)
    requires Readable(buf)
    ensures Holds(buf, ReadNext(buf).0, ReadNext(buf).1)
  {
    hide FractionalIndices.IndexLength, FractionalIndices.RoundsComplete, FromBE, ReadKind, Holds;
    if |buf| >= 2 && buf[0] == DELIMITER {
      var t := buf[1..];
      assert buf == [0] + t;
      if t[0] == TERMINATOR_CHUNKED { ChunkHeld(buf, t); }
      else if t[0] == TERMINATOR_LWW || t[0] == TERMINATOR_COUNTER { TailHeld(buf, t); }
      else if 1 <= t[0] < 17 { IndexHeld(buf, t); }
      else { FieldHeld(buf, t); }
    } else {
      NothingHeld(buf);
    }
  }

  lemma NothingHeld(buf: Bytes)
    requires Readable(buf) && (|buf| < 2 || buf[0] != DELIMITER)
    ensures Holds(buf, ReadNext(buf).0, ReadNext(buf).1)
  {
    hide ReadKind;
  }

  lemma ChunkHeld(buf: Bytes, t: Bytes)
    requires buf == [0] + t && t != [] && t[0] == TERMINATOR_CHUNKED && Readable(buf)
    ensures Holds(buf, Read(ReadKind(t).0), ReadKind(t).1)
  {
    hide FromBE;
    assert buf[..2] == [0, t[0]] && buf[2..] == t[1..];
    if |t| > 1 { ChunkIs(buf); }
  }

  lemma TailHeld(buf: Bytes, t: Bytes)
    requires buf == [0] + t && t != [] && (t[0] == TERMINATOR_LWW || t[0] == TERMINATOR_COUNTER) && Readable(buf)
    ensures Holds(buf, Read(ReadKind(t).0), ReadKind(t).1)
  {
    hide FromBE;
    assert buf[..2] == [0, t[0]] && buf[2..] == t[1..];
  }

  lemma IndexHeld(buf: Bytes, t: Bytes)
    requires buf == [0] + t && t != [] && 1 <= t[0] < 17 && Readable(buf)
    ensures Holds(buf, Read(ReadKind(t).0), ReadKind(t).1)
  {
    hide FractionalIndices.IndexLength, FractionalIndices.RoundsComplete;
    assert buf[1..] == t;
  }

  lemma FieldHeld(buf: Bytes, t: Bytes)
    requires buf == [0] + t && t != [] && (t[0] == 0 || 17 <= t[0] < 29 || t[0] >= 32) && Readable(buf)
    ensures Holds(buf, Read(ReadKind(t).0), ReadKind(t).1)
  {
    hide FieldLength;
    FieldIs(t);
    assert buf[1..] == t;
  }

  lemma ChunkIs(buf: Bytes)
    requires |buf| >= 3
    ensures
      var u := buf[1..][1..];
      u[0] == buf[2] && (1 + u[0] <= |u| ==> u[1..1 + u[0]] == buf[3..3 + buf[2]] && u[u[0] + 1..] == buf[3 + buf[2]..])
  {
    var u := buf[1..][1..];
    assert u == buf[2..];
  }

  lemma {:induction false} FieldIs(t: Bytes)
    ensures 0 !in t[..FieldLength(t)] && (FieldLength(t) < |t| ==> t[FieldLength(t)] == 0)
  {
    if t != [] && t[0] != DELIMITER {
      FieldIs(t[1..]);
      assert t[..FieldLength(t)] == [t[0]] + t[1..][..FieldLength(t[1..])];
    }
  }
}
