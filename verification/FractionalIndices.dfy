/**
  * LSeq fractional indices (src/path/lseq.rs): lists of (peer, sequence number) segments, each number a
  * varint. Indices are compared as byte strings.
  */
module FractionalIndices {
  import opened ByteStrings
  import VarInts

  const MAX_U32: nat := 0xffff_ffff
  /** A peer identifier; 0 is not one (src/pid.rs:34-41). */
  type Pid = n: nat | 0 < n <= 0xffff_ffff witness 1

  datatype Segment = Segment(pid: Pid, seqNo: U32)

  const MAX_SEGMENT := Segment(0xffff_ffff, 0xffff_ffff)
  const LAST_BEFORE_MAX := Segment(0xffff_ffff, 0xffff_fffe)

  predicate SegmentLess(a: Segment, b: Segment) {
    a.pid < b.pid || (a.pid == b.pid && a.seqNo < b.seqNo)
  }

  /** Structural order of indices: the first differing segment decides, a proper prefix comes first. */
  predicate IndexLess(a: seq<Segment>, b: seq<Segment>) {
    b != [] && (a == [] || SegmentLess(a[0], b[0]) || (a[0] == b[0] && IndexLess(a[1..], b[1..])))
  }

  //
  // Encoding
  //

  function EncodeSegment(s: Segment): Bytes {
    VarInts.Encode(s.pid) + VarInts.Encode(s.seqNo)
  }

  function Encode(index: seq<Segment>): Bytes {
    if index == [] then [] else EncodeSegment(index[0]) + Encode(index[1..])
  }

  lemma SegmentNumbersFit(s: Segment)
    ensures Size(s.pid) <= 4 && Size(s.seqNo) <= 4
  {
    FixedWidths(s.pid);
    FixedWidths(s.seqNo);
  }

  lemma SegmentOrder(a: Segment, b: Segment)
    requires SegmentLess(a, b)
    ensures Before(EncodeSegment(a), EncodeSegment(b))
  {
    SegmentNumbersFit(a);
    SegmentNumbersFit(b);
    if a.pid < b.pid {
      VarInts.Order(a.pid, b.pid);
      BeforeExtends(VarInts.Encode(a.pid), VarInts.Encode(b.pid), VarInts.Encode(a.seqNo), VarInts.Encode(b.seqNo));
    } else {
      VarInts.Order(a.seqNo, b.seqNo);
      BeforeAfterPrefix(VarInts.Encode(a.pid), VarInts.Encode(a.seqNo), VarInts.Encode(b.seqNo));
    }
  }

  lemma SegmentFirstByte(s: Segment)
    ensures 1 <= EncodeSegment(s)[0] <= 4
  {
    SegmentNumbersFit(s);
    VarInts.FirstByte(s.pid, 4);
  }

  /** An index is never empty as bytes unless it has no segments, and starts with a byte of 1 to 4. */
  lemma IndexFirstByte(index: seq<Segment>)
    requires index != []
    ensures Encode(index) != [] && 1 <= Encode(index)[0] <= 4
  {
    SegmentFirstByte(index[0]);
  }

  /** Smaller indices have smaller bytes, decided at the latest by the 0 byte that follows an index in a path. */
  lemma {:induction false} DelimitedOrder(a: seq<Segment>, b: seq<Segment>)
    requires IndexLess(a, b)
    ensures Before(Encode(a) + [0], Encode(b) + [0])
  {
    if a == [] {
      IndexFirstByte(b);
      assert (Encode(a) + [0])[0] == 0 < (Encode(b) + [0])[0];
    } else {
      var x, y := EncodeSegment(a[0]), EncodeSegment(b[0]);
      var ra, rb := Encode(a[1..]) + [0], Encode(b[1..]) + [0];
      assert Encode(a) + [0] == x + ra && Encode(b) + [0] == y + rb;
      if a[0] == b[0] {
        DelimitedOrder(a[1..], b[1..]);
        BeforeAfterPrefix(x, ra, rb);
      } else {
        SegmentOrder(a[0], b[0]);
        BeforeExtends(x, y, ra, rb);
      }
    }
  }

  lemma {:induction false} UndelimitedOrder(a: seq<Segment>, b: seq<Segment>)
    requires IndexLess(a, b)
    ensures Less(Encode(a), Encode(b))
  {
    if a == [] {
      IndexFirstByte(b);
    } else {
      var x, y := EncodeSegment(a[0]), EncodeSegment(b[0]);
      if a[0] == b[0] {
        UndelimitedOrder(a[1..], b[1..]);
        LessAfterPrefix(x, Encode(a[1..]), Encode(b[1..]));
      } else {
        SegmentOrder(a[0], b[0]);
        BeforeExtends(x, y, Encode(a[1..]), Encode(b[1..]));
        LessCases(Encode(a), Encode(b));
      }
    }
  }

  lemma {:induction false} IndexTotal(a: seq<Segment>, b: seq<Segment>)
    ensures IndexLess(a, b) || a == b || IndexLess(b, a)
  {
    if a != [] && b != [] && a[0] == b[0] {
      IndexTotal(a[1..], b[1..]);
      assert a == [a[0]] + a[1..] && b == [b[0]] + b[1..];
    }
  }

  /** Byte order of encoded indices is exactly their structural order, and the encoding loses nothing. */
  lemma IndexOrderIff(a: seq<Segment>, b: seq<Segment>)
    ensures Less(Encode(a), Encode(b)) <==> IndexLess(a, b)
    ensures Encode(a) == Encode(b) <==> a == b
  {
    IndexTotal(a, b);
    LessIrreflexive(Encode(a));
    if IndexLess(a, b) { UndelimitedOrder(a, b); LessAsymmetric(Encode(a), Encode(b)); }
    if IndexLess(b, a) { UndelimitedOrder(b, a); LessAsymmetric(Encode(b), Encode(a)); }
  }

  //
  // Decoding
  //

  /** No varint that `Segment::parse` reads from `bytes` is cut short. */
  predicate SegmentComplete(bytes: Bytes) {
    && VarInts.Complete(bytes, 4)
    && var p := VarInts.Decode(bytes, 4);
    (p.Some? && p.value.0 != 0 ==> VarInts.Complete(bytes[p.value.1..], 4))
  }

  lemma DecodedU32(bytes: Bytes)
    requires VarInts.Complete(bytes, 4)
    ensures var r := VarInts.Decode(bytes, 4); r.Some? ==> r.value.0 <= MAX_U32
  {
    if bytes != [] && bytes[0] <= 4 {
      FromBESize(bytes[1..1 + bytes[0]]);
      FixedWidths(FromBE(bytes[1..1 + bytes[0]]));
    }
  }

  /** `Segment::parse`: the segment and the bytes after it. */
  function Parse(bytes: Bytes): (r: Option<(Segment, Bytes)>)
    requires SegmentComplete(bytes)
    ensures r.Some? ==> |r.value.1| < |bytes|
  {
    DecodedU32(bytes);
    var p := VarInts.Decode(bytes, 4);
    if p.None? || p.value.0 == 0 then None
    else
      var rest := bytes[p.value.1..];
      DecodedU32(rest);
      var s := VarInts.Decode(rest, 4);
      if s.None? then None else Some((Segment(p.value.0, s.value.0), rest[s.value.1..]))
  }

  predicate AllComplete(bytes: Bytes)
    decreases |bytes|
  {
    SegmentComplete(bytes) && (Parse(bytes).Some? ==> AllComplete(Parse(bytes).value.1))
  }

  /** What the iterator `Segments` yields. */
  function Segments(bytes: Bytes): seq<Segment>
    requires AllComplete(bytes)
    decreases |bytes|
  {
    match Parse(bytes)
    case None => []
    case Some((s, rest)) => [s] + Segments(rest)
  }

  /** The bytes the iterator `Segments` leaves unread. */
  function Unread(bytes: Bytes): Bytes
    requires AllComplete(bytes)
    decreases |bytes|
  {
    match Parse(bytes)
    case None => bytes
    case Some((_, rest)) => Unread(rest)
  }

  predicate IsValid(bytes: Bytes)
    requires AllComplete(bytes)
  {
    Unread(bytes) == []
  }

  lemma ParseEncoded(s: Segment, rest: Bytes)
    ensures SegmentComplete(EncodeSegment(s) + rest)
    ensures Parse(EncodeSegment(s) + rest) == Some((s, rest))
  {
    SegmentNumbersFit(s);
    var p, n := VarInts.Encode(s.pid), VarInts.Encode(s.seqNo);
    VarInts.RoundTrip(s.pid, 4, n + rest);
    VarInts.RoundTrip(s.seqNo, 4, rest);
    var bytes := EncodeSegment(s) + rest;
    assert bytes == p + (n + rest);
    assert bytes[|p|..] == n + rest;
    assert (n + rest)[|n|..] == rest;
  }

  lemma ParseNothing()
    ensures SegmentComplete([]) && Parse([]) == None
  {
  }

  /** Iterating over an encoded index gives its segments and leaves nothing. */
  lemma {:induction false} SegmentsOfEncoded(index: seq<Segment>)
    ensures AllComplete(Encode(index))
    ensures Segments(Encode(index)) == index && IsValid(Encode(index))
  {
    hide EncodeSegment, SegmentComplete, Parse;
    if index != [] {
      SegmentsOfEncoded(index[1..]);
      ParseEncoded(index[0], Encode(index[1..]));
    } else {
      ParseNothing();
    }
  }

  /** One round of the loop of `from_bytes`. */
  datatype Round = Stop | Fail | Took(n: nat)

  function ReadRound(bytes: Bytes): (r: Round)
    requires SegmentComplete(bytes)
    ensures r.Took? ==> 0 < r.n <= |bytes|
  {
    var p := VarInts.Decode(bytes, 4);
    if p.None? || p.value.0 == 0 then Stop
    else
      var s := VarInts.Decode(bytes[p.value.1..], 4);
      if s.None? then Fail else Took(p.value.1 + s.value.1)
  }

  predicate RoundsComplete(bytes: Bytes)
    decreases |bytes|
  {
    SegmentComplete(bytes) && (ReadRound(bytes).Took? ==> RoundsComplete(bytes[ReadRound(bytes).n..]))
  }

  /** Length of the index at the front of `bytes`; nothing when a sequence number is unreadable. */
  function IndexLength(bytes: Bytes): (r: Option<nat>)
    requires RoundsComplete(bytes)
    ensures r.Some? ==> r.value <= |bytes|
    decreases |bytes|
  {
    match ReadRound(bytes)
    case Stop => Some(0)
    case Fail => None
    case Took(n) =>
      Plus(n, IndexLength(bytes[n..]))
  }

  function Plus(n: nat, r: Option<nat>): Option<nat> {
    if r.None? then None else Some(n + r.value)
  }

  /** `FractionalIndex::from_bytes`: the length of the index that was read. */
  method FromBytes(bytes: Bytes) returns (r: Option<nat>)
    requires RoundsComplete(bytes)
    ensures r == if IndexLength(bytes) == Some(0) then None else IndexLength(bytes)
  {
    hide IndexLength, RoundsComplete, ReadRound, VarInts.Complete, VarInts.Decode;
    var i: nat := 0;
    var b := bytes;
    while b != []
      invariant RoundsComplete(b)
      invariant IndexLength(bytes) == Plus(i, IndexLength(b))
      decreases |b|
    {
      RoundOf(b);
      var p := VarInts.ReadFrom(b, 4);
      if p.None? || p.value.0 == 0 {
        break;
      }
      i := i + p.value.1;
      b := b[p.value.1..];
      var s := VarInts.ReadFrom(b, 4);
      if s.None? {
        return None;
      }
      i := i + s.value.1;
      b := b[s.value.1..];
    }
    RoundOf(b);
    r := if i == 0 then None else Some(i);
  }

  /** One round of the loop of `from_bytes`, with the two slices it takes. */
  lemma RoundOf(b: Bytes)
    requires RoundsComplete(b)
    ensures b == [] ==> IndexLength(b) == Some(0)
    ensures VarInts.Complete(b, 4)
    ensures
      var p := VarInts.Decode(b, 4);
      if p.None? || p.value.0 == 0 then IndexLength(b) == Some(0)
      else
        && VarInts.Complete(b[p.value.1..], 4)
        && var s := VarInts.Decode(b[p.value.1..], 4);
           if s.None? then IndexLength(b) == None
           else
             var rest := b[p.value.1..][s.value.1..];
             RoundsComplete(rest) && IndexLength(b) == Plus(p.value.1 + s.value.1, IndexLength(rest))
  {
    var p := VarInts.Decode(b, 4);
    if p.Some? && p.value.0 != 0 {
      var s := VarInts.Decode(b[p.value.1..], 4);
      if s.Some? {
        assert b[p.value.1..][s.value.1..] == b[p.value.1 + s.value.1..];
      }
    }
  }

  /** `from_bytes` on an encoded index reads all of it, also when a 0 delimiter and more bytes follow. */
  lemma {:induction false} IndexLengthOfEncoded(index: seq<Segment>, rest: Bytes)
    requires rest == [] || rest[0] == 0
    ensures RoundsComplete(Encode(index) + rest)
    ensures IndexLength(Encode(index) + rest) == Some(|Encode(index)|)
  {
    hide *;
    EncodeCons(index);
    var bytes := Encode(index) + rest;
    if index == [] {
      assert bytes == rest;
      StopsAtDelimiter(rest);
    } else {
      var head, body := EncodeSegment(index[0]), Encode(index[1..]);
      IndexLengthOfEncoded(index[1..], rest);
      assert bytes == head + (body + rest);
      RoundOfEncoded(index[0], body + rest);
      RoundThenRest(bytes, head, body + rest, |body|);
    }
  }

  lemma EncodeCons(index: seq<Segment>)
    ensures if index == [] then Encode(index) == [] else Encode(index) == EncodeSegment(index[0]) + Encode(index[1..])
  {
  }

  lemma RoundThenRest(bytes: Bytes, head: Bytes, tail: Bytes, n: nat)
    requires bytes == head + tail
    requires SegmentComplete(bytes) && ReadRound(bytes) == Took(|head|)
    requires RoundsComplete(tail) && IndexLength(tail) == Some(n)
    ensures RoundsComplete(bytes) && IndexLength(bytes) == Some(|head| + n)
  {
    hide SegmentComplete, ReadRound;
    assert bytes[|head|..] == tail;
  }

  lemma StopsAtDelimiter(rest: Bytes)
    requires rest == [] || rest[0] == 0
    ensures RoundsComplete(rest) && IndexLength(rest) == Some(0)
  {
    if rest != [] { assert rest[1..1] == []; }
  }

  lemma RoundOfEncoded(s: Segment, rest: Bytes)
    ensures SegmentComplete(EncodeSegment(s) + rest)
    ensures ReadRound(EncodeSegment(s) + rest) == Took(|EncodeSegment(s)|)
  {
    hide VarInts.Encode, VarInts.Decode, VarInts.Complete, Size;
    SegmentNumbersFit(s);
    var p, n := VarInts.Encode(s.pid), VarInts.Encode(s.seqNo);
    VarInts.RoundTrip(s.pid, 4, n + rest);
    VarInts.RoundTrip(s.seqNo, 4, rest);
    var bytes := EncodeSegment(s) + rest;
    assert bytes == p + (n + rest);
    assert bytes[|p|..] == n + rest;
  }

  lemma RoundExtends(bytes: Bytes, rest: Bytes)
    requires SegmentComplete(bytes) && Parse(bytes).Some?
    ensures SegmentComplete(bytes + rest)
    ensures ReadRound(bytes + rest) == Took(|bytes| - |Parse(bytes).value.1|)
    ensures Parse(bytes).value.1 == bytes[|bytes| - |Parse(bytes).value.1|..]
  {
    hide VarInts.Decode, VarInts.Complete;
    VarInts.DecodeExtends(bytes, rest, 4);
    var n := VarInts.Decode(bytes, 4).value.1;
    VarInts.DecodeExtends(bytes[n..], rest, 4);
    assert (bytes + rest)[n..] == bytes[n..] + rest;
  }

  /** A valid index is a segment and a valid index. */
  lemma ValidCons(bytes: Bytes)
    requires AllComplete(bytes) && IsValid(bytes) && bytes != []
    ensures SegmentComplete(bytes) && Parse(bytes).Some?
    ensures AllComplete(Parse(bytes).value.1) && IsValid(Parse(bytes).value.1)
  {
    hide SegmentComplete, Parse;
  }

  /** `from_bytes` measures every valid index, also one whose numbers are not written in the shortest form. */
  lemma {:induction false} IndexLengthOfValid(bytes: Bytes, rest: Bytes)
    requires AllComplete(bytes) && IsValid(bytes) && (rest == [] || rest[0] == 0)
    ensures RoundsComplete(bytes + rest) && IndexLength(bytes + rest) == Some(|bytes|)
    decreases |bytes|
  {
    hide *;
    if bytes == [] {
      assert bytes + rest == rest;
      StopsAtDelimiter(rest);
    } else {
      ValidCons(bytes);
      var tail := Parse(bytes).value.1;
      var head := bytes[..|bytes| - |tail|];
      RoundExtends(bytes, rest);
      IndexLengthOfValid(tail, rest);
      assert bytes == head + tail;
      Assoc(head, tail, rest);
      RoundThenRest(bytes + rest, head, tail + rest, |tail|);
    }
  }

  /** The first number of a segment is not 0. */
  lemma ValidFirstByte(bytes: Bytes)
    requires AllComplete(bytes) && IsValid(bytes) && bytes != []
    ensures 1 <= bytes[0] <= 4
  {
    assert bytes[1..1] == [];
  }

  //
  // Generation of an index between two others
  //

  predicate NoMaxSeq(lo: seq<Segment>) {
    forall s :: s in lo ==> s.seqNo < MAX_U32
  }

  /** The first loop finds the place of the new index here. */
  predicate Stops(l: Segment, h: Segment, pid: Pid)
    requires l.seqNo < MAX_U32
  {
    SegmentLess(Following(l), h) && l.pid == pid
  }

  /** Generation adds one to no sequence number that is the greatest: those past the place it finds are not reached. */
  predicate NoOverflow(lo: seq<Segment>, hi: seq<Segment>, pid: Pid)
    decreases |lo|
  {
    if lo == [] || hi == [] then NoOverflowPast(lo, hi)
    else lo[0].seqNo < MAX_U32 && (Stops(lo[0], hi[0], pid) || NoOverflow(lo[1..], hi[1..], pid))
  }

  predicate NoOverflowPast(lo: seq<Segment>, hi: seq<Segment>)
    decreases |lo|
  {
    lo != [] ==>
      && lo[0].seqNo < MAX_U32
      && (SegmentLess(Following(lo[0]), if hi == [] then MAX_SEGMENT else hi[0])
          || NoOverflowPast(lo[1..], if hi == [] then [] else hi[1..]))
  }

  lemma {:induction false} NoMaxSeqSuffices(lo: seq<Segment>, hi: seq<Segment>, pid: Pid)
    requires NoMaxSeq(lo)
    ensures NoOverflow(lo, hi, pid)
    decreases |lo|
  {
    if lo == [] || hi == [] {
      NoMaxSeqSufficesPast(lo, hi);
    } else {
      NoMaxSeqSuffices(lo[1..], hi[1..], pid);
    }
  }

  lemma {:induction false} NoMaxSeqSufficesPast(lo: seq<Segment>, hi: seq<Segment>)
    requires NoMaxSeq(lo)
    ensures NoOverflowPast(lo, hi)
    decreases |lo|
  {
    if lo != [] { NoMaxSeqSufficesPast(lo[1..], if hi == [] then [] else hi[1..]); }
  }

  function Following(s: Segment): Segment
    requires s.seqNo < MAX_U32
  {
    Segment(s.pid, s.seqNo + 1)
  }

  /** The segments `write_fractional_index` emits while both neighbours still have one, and then past that. */
  function Between(lo: seq<Segment>, hi: seq<Segment>, pid: Pid): seq<Segment>
    requires NoOverflow(lo, hi, pid)
    decreases |lo|
  {
    if lo == [] || hi == [] then PastShared(lo, hi, pid)
    else if Stops(lo[0], hi[0], pid) then [Following(lo[0])]
    else [lo[0]] + Between(lo[1..], hi[1..], pid)
  }

  function PastShared(lo: seq<Segment>, hi: seq<Segment>, pid: Pid): seq<Segment>
    requires NoOverflowPast(lo, hi)
    decreases |lo| + |hi|
  {
    var l := if lo == [] then Segment(pid, 1) else lo[0];
    var h := if hi == [] then MAX_SEGMENT else hi[0];
    if SegmentLess(Following(l), h) then [Following(l)]
    else [l] + PastShared(if lo == [] then [] else lo[1..], if hi == [] then [] else hi[1..], pid)
  }

  /** What an iterator still yields: the segment already taken from it, then the rest. */
  ghost function Pending(taken: Option<Segment>, bytes: Bytes): seq<Segment>
    requires AllComplete(bytes)
  {
    if taken.None? then [] else [taken.value] + Segments(bytes)
  }

  method NextSegment(bytes: Bytes) returns (s: Option<Segment>, rest: Bytes)
    requires AllComplete(bytes)
    ensures AllComplete(rest) && Pending(s, rest) == Segments(bytes)
    ensures s.None? ==> rest == bytes
  {
    var p := VarInts.ReadFrom(bytes, 4);
    if p.None? || p.value.0 == 0 {
      return None, bytes;
    }
    DecodedU32(bytes);
    var r := bytes[p.value.1..];
    DecodedU32(r);
    var n := VarInts.ReadFrom(r, 4);
    if n.None? {
      return None, bytes;
    }
    s, rest := Some(Segment(p.value.0, n.value.0)), r[n.value.1..];
  }

  method WriteSegment(s: Segment) returns (out: Bytes)
    ensures out == EncodeSegment(s)
  {
    SegmentNumbersFit(s);
    var p := VarInts.Write(s.pid, 4);
    var n := VarInts.Write(s.seqNo, 4);
    out := p + n;
  }

  /** Emitting the first of the pending segments. */
  lemma EmitFirst(w: Bytes, s: Segment, rest: seq<Segment>)
    ensures w + Encode([s] + rest) == (w + EncodeSegment(s)) + Encode(rest)
  {
    assert ([s] + rest)[1..] == rest;
  }

  /** The iterator invariant: one that has stopped stays stopped. */
  ghost predicate Iterating(taken: Option<Segment>, bytes: Bytes) {
    AllComplete(bytes) && (taken.None? ==> Segments(bytes) == [])
  }

  /** A round of the first loop emits what `Between` does, and leaves the rest to be emitted. */
  lemma SharedRound(w: Bytes, l: Segment, lo: seq<Segment>, h: Segment, hi: seq<Segment>, pid: Pid)
    requires NoOverflow([l] + lo, [h] + hi, pid)
    ensures l.seqNo < MAX_U32 && (Stops(l, h, pid) || NoOverflow(lo, hi, pid))
    ensures w + Encode(Between([l] + lo, [h] + hi, pid)) ==
            if Stops(l, h, pid) then w + EncodeSegment(Following(l))
            else (w + EncodeSegment(l)) + Encode(Between(lo, hi, pid))
  {
    assert ([l] + lo)[1..] == lo && ([h] + hi)[1..] == hi;
    EmitFirst(w, Following(l), []);
    if !Stops(l, h, pid) { EmitFirst(w, l, Between(lo, hi, pid)); }
  }

  /** The same for the second loop, whose iterators may have stopped. */
  lemma PastSharedRound(w: Bytes, lower: Option<Segment>, loRest: Bytes,
                        higher: Option<Segment>, hiRest: Bytes, pid: Pid, goal: Bytes)
    requires Iterating(lower, loRest) && Iterating(higher, hiRest)
    requires NoOverflowPast(Pending(lower, loRest), Pending(higher, hiRest))
    requires w + Encode(PastShared(Pending(lower, loRest), Pending(higher, hiRest), pid)) == goal
    ensures
      var l := if lower.Some? then lower.value else Segment(pid, 1);
      var h := if higher.Some? then higher.value else MAX_SEGMENT;
      && l.seqNo < MAX_U32
      && (if SegmentLess(Following(l), h) then w + EncodeSegment(Following(l)) == goal
          else
            && NoOverflowPast(Segments(loRest), Segments(hiRest))
            && (w + EncodeSegment(l)) + Encode(PastShared(Segments(loRest), Segments(hiRest), pid)) == goal)
  {
    var lo, hi := Segments(loRest), Segments(hiRest);
    if lower.Some? {
      assert ([lower.value] + lo)[1..] == lo;
    }
    if higher.Some? { assert ([higher.value] + hi)[1..] == hi; }
    var l := if lower.None? then Segment(pid, 1) else lower.value;
    var h := if higher.None? then MAX_SEGMENT else higher.value;
    EmitFirst(w, Following(l), []);
    if !SegmentLess(Following(l), h) { EmitFirst(w, l, PastShared(lo, hi, pid)); }
  }

  /** The first loop: copies segments while both neighbours have one, and may find the place already. */
  method CopyShared(lo: Bytes, hi: Bytes, pid: Pid)
    returns (w: Bytes, diffed: bool, lower: Option<Segment>, loRest: Bytes, higher: Option<Segment>, hiRest: Bytes)
    requires AllComplete(lo) && AllComplete(hi) && NoOverflow(Segments(lo), Segments(hi), pid)
    ensures Iterating(lower, loRest) && Iterating(higher, hiRest)
    ensures diffed ==> w == Encode(Between(Segments(lo), Segments(hi), pid))
    ensures !diffed ==> NoOverflowPast(Pending(lower, loRest), Pending(higher, hiRest))
    ensures !diffed ==> w + Encode(PastShared(Pending(lower, loRest), Pending(higher, hiRest), pid))
                        == Encode(Between(Segments(lo), Segments(hi), pid))
  {
    w, diffed := [], false;
    ghost var goal := Encode(Between(Segments(lo), Segments(hi), pid));
    lower, loRest := NextSegment(lo);
    higher, hiRest := NextSegment(hi);
    while lower.Some? && higher.Some?
      invariant Iterating(lower, loRest) && Iterating(higher, hiRest)
      invariant NoOverflow(Pending(lower, loRest), Pending(higher, hiRest), pid) && !diffed
      invariant w + Encode(Between(Pending(lower, loRest), Pending(higher, hiRest), pid)) == goal
      decreases |Pending(lower, loRest)|
    {
      var l, h := lower.value, higher.value;
      SharedRound(w, l, Segments(loRest), h, Segments(hiRest), pid);
      var n := Segment(l.pid, l.seqNo + 1);
      if SegmentLess(n, h) {
        if n.pid != pid {
          var b := WriteSegment(l);
          w := w + b;
        } else {
          var b := WriteSegment(n);
          w := w + b;
          diffed := true;
          break;
        }
      } else {
        var b := WriteSegment(l);
        w := w + b;
      }
      lower, loRest := NextSegment(loRest);
      higher, hiRest := NextSegment(hiRest);
    }
  }

  /** `write_fractional_index` over the bytes of the two neighbours, the empty string meaning no neighbour. */
  method WriteFractionalIndex(lo: Bytes, hi: Bytes, pid: Pid) returns (w: Bytes)
    requires AllComplete(lo) && AllComplete(hi) && NoOverflow(Segments(lo), Segments(hi), pid)
    ensures w == Encode(Between(Segments(lo), Segments(hi), pid))
  {
    hide Encode, EncodeSegment, Between, PastShared, Segments, AllComplete;
    ghost var goal := Encode(Between(Segments(lo), Segments(hi), pid));
    var diffed, lower, loRest, higher, hiRest;
    w, diffed, lower, loRest, higher, hiRest := CopyShared(lo, hi, pid);
    while !diffed
      invariant Iterating(lower, loRest) && Iterating(higher, hiRest)
      invariant diffed ==> w == goal
      invariant !diffed ==> NoOverflowPast(Pending(lower, loRest), Pending(higher, hiRest))
      invariant !diffed ==> w + Encode(PastShared(Pending(lower, loRest), Pending(higher, hiRest), pid)) == goal
      decreases !diffed, |Pending(lower, loRest)| + |Pending(higher, hiRest)|
    {
      assert lower.Some? || higher.Some? || SegmentLess(Segment(pid, 2), MAX_SEGMENT);
      PastSharedRound(w, lower, loRest, higher, hiRest, pid, goal);
      var l := if lower.Some? then lower.value else Segment(pid, 1);
      var h := if higher.Some? then higher.value else MAX_SEGMENT;
      var n := Segment(l.pid, l.seqNo + 1);
      if SegmentLess(n, h) {
        var b := WriteSegment(n);
        w := w + b;
        diffed := true;
      } else {
        var b := WriteSegment(l);
        w := w + b;
      }
      lower, loRest := NextSegment(loRest);
      higher, hiRest := NextSegment(hiRest);
    }
  }

  //
  // What generation promises
  //

  /**
    * Whether there is room for the new index below `hi`: the neighbours differ where both have a segment,
    * or `hi`, past `lo`, exceeds `(pid, 1)` repeated for ever. A missing `hi` is no bound at all.
    */
  predicate Room(lo: seq<Segment>, hi: seq<Segment>, pid: Pid) {
    if lo != [] && hi != [] then lo[0] != hi[0] || Room(lo[1..], hi[1..], pid)
    else lo == [] && AboveRepeated(hi, pid)
  }

  predicate AboveRepeated(t: seq<Segment>, pid: Pid) {
    t != [] && (SegmentLess(Segment(pid, 1), t[0]) || (t[0] == Segment(pid, 1) && AboveRepeated(t[1..], pid)))
  }

  lemma {:induction false} AboveLo(lo: seq<Segment>, hi: seq<Segment>, pid: Pid)
    requires NoOverflow(lo, hi, pid)
    ensures IndexLess(lo, Between(lo, hi, pid))
    decreases |lo|
  {
    if lo == [] || hi == [] {
      PastSharedAboveLo(lo, hi, pid);
    } else if !Stops(lo[0], hi[0], pid) {
      AboveLo(lo[1..], hi[1..], pid);
      assert ([lo[0]] + Between(lo[1..], hi[1..], pid))[1..] == Between(lo[1..], hi[1..], pid);
    }
  }

  lemma {:induction false} PastSharedAboveLo(lo: seq<Segment>, hi: seq<Segment>, pid: Pid)
    requires NoOverflowPast(lo, hi)
    ensures IndexLess(lo, PastShared(lo, hi, pid))
    decreases |lo| + |hi|
  {
    var los, his := if lo == [] then [] else lo[1..], if hi == [] then [] else hi[1..];
    var l := if lo == [] then Segment(pid, 1) else lo[0];
    var h := if hi == [] then MAX_SEGMENT else hi[0];
    if !SegmentLess(Following(l), h) && lo != [] {
      PastSharedAboveLo(los, his, pid);
      assert ([l] + PastShared(los, his, pid))[1..] == PastShared(los, his, pid);
    }
  }

  /** The new index stays below `hi` exactly when there is room. */
  lemma {:induction false} BelowHi(lo: seq<Segment>, hi: seq<Segment>, pid: Pid)
    requires NoOverflow(lo, hi, pid) && IndexLess(lo, hi)
    ensures IndexLess(Between(lo, hi, pid), hi) <==> Room(lo, hi, pid)
    decreases |lo|
  {
    if lo == [] {
      PastLoBelowHi(hi, pid);
    } else if !Stops(lo[0], hi[0], pid) {
      assert ([lo[0]] + Between(lo[1..], hi[1..], pid))[1..] == Between(lo[1..], hi[1..], pid);
      if lo[0] == hi[0] { BelowHi(lo[1..], hi[1..], pid); }
    }
  }

  lemma {:induction false} PastLoBelowHi(hi: seq<Segment>, pid: Pid)
    requires hi != []
    ensures IndexLess(PastShared([], hi, pid), hi) <==> AboveRepeated(hi, pid)
  {
    var l := Segment(pid, 1);
    if !SegmentLess(Following(l), hi[0]) {
      var rest := PastShared([], hi[1..], pid);
      assert ([l] + rest)[1..] == rest;
      if l == hi[0] && |hi| > 1 { PastLoBelowHi(hi[1..], pid); }
    }
  }

  /**
    * `FractionalIndex::between` on encoded neighbours: a readable, valid index above the lower one in byte
    * order, and below the upper one exactly when there is room.
    */
  lemma BetweenTheorem(lo: seq<Segment>, hi: seq<Segment>, pid: Pid)
    requires NoOverflow(lo, hi, pid) && (hi == [] || IndexLess(lo, hi))
    ensures
      var bytes := Encode(Between(lo, hi, pid));
      && RoundsComplete(bytes) && bytes != [] && IndexLength(bytes) == Some(|bytes|)
      && AllComplete(bytes) && IsValid(bytes)
      && Less(Encode(lo), bytes)
      && (hi != [] ==> (Less(bytes, Encode(hi)) <==> Room(lo, hi, pid)))
  {
    var index := Between(lo, hi, pid);
    SegmentsOfEncoded(index);
    IndexLengthOfEncoded(index, []);
    assert Encode(index) + [] == Encode(index);
    AboveLo(lo, hi, pid);
    IndexOrderIff(lo, index);
    IndexOrderIff(index, hi);
    if hi != [] { BelowHi(lo, hi, pid); }
  }

  /** A pair of neighbours without room: prepending before (2, 5) as peer 3 overshoots it. */
  lemma NoRoomExample()
    ensures Between([], [Segment(2, 5)], 3) == [Segment(3, 1), Segment(3, 2)]
    ensures IndexLess([Segment(2, 5)], Between([], [Segment(2, 5)], 3))
  {
    assert PastShared([], [], 3) == [Segment(3, 2)];
  }

  /** Appending ignores who appends, unless every segment of `lo` is stuck below the greatest one. */
  lemma {:induction false} AppendIgnoresPeer(lo: seq<Segment>, p: Pid, q: Pid)
    requires NoOverflow(lo, [], p) && NoOverflow(lo, [], q) && p != q
    ensures Between(lo, [], p) == Between(lo, [], q) <==> exists s :: s in lo && s != LAST_BEFORE_MAX
    decreases |lo|
  {
    if lo != [] {
      assert forall s :: s in lo <==> s == lo[0] || s in lo[1..];
      if lo[0] == LAST_BEFORE_MAX {
        AppendIgnoresPeer(lo[1..], p, q);
        var bp, bq := PastShared(lo[1..], [], p), PastShared(lo[1..], [], q);
        assert ([lo[0]] + bp)[1..] == bp && ([lo[0]] + bq)[1..] == bq;
        assert Between(lo[1..], [], p) == bp && Between(lo[1..], [], q) == bq;
      } else {
        assert lo[0] in lo && SegmentLess(Following(lo[0]), MAX_SEGMENT);
      }
    }
  }

  //
  // Where the new index goes
  //

  /** The lower segment is the peer's own, and its next sequence number is free below the upper one. */
  predicate OwnPlace(l: Segment, h: Segment, pid: Pid) {
    l.pid == pid && (pid < h.pid || (pid == h.pid && l.seqNo + 1 < h.seqNo))
  }

  predicate NoOwnPlace(lo: seq<Segment>, hi: seq<Segment>, pid: Pid) {
    forall i :: 0 <= i < |lo| && i < |hi| ==> !OwnPlace(lo[i], hi[i], pid)
  }

  lemma NoOwnPlaceCons(lo: seq<Segment>, hi: seq<Segment>, pid: Pid)
    requires lo != [] && hi != []
    ensures NoOwnPlace(lo, hi, pid) <==> !OwnPlace(lo[0], hi[0], pid) && NoOwnPlace(lo[1..], hi[1..], pid)
  {
    hide OwnPlace;
    if !OwnPlace(lo[0], hi[0], pid) && NoOwnPlace(lo[1..], hi[1..], pid) {
      forall i | 0 <= i < |lo| && i < |hi| ensures !OwnPlace(lo[i], hi[i], pid) {
        if i > 0 { assert lo[i] == lo[1..][i - 1] && hi[i] == hi[1..][i - 1]; }
      }
    }
    if NoOwnPlace(lo, hi, pid) {
      forall i | 0 <= i < |lo| - 1 && i < |hi| - 1 ensures !OwnPlace(lo[1..][i], hi[1..][i], pid) {
        assert lo[1..][i] == lo[i + 1] && hi[1..][i] == hi[i + 1];
      }
    }
  }

  /** At the first place of its own a peer ends the index, one past the lower neighbour. */
  lemma {:induction false} StaysOnLevel(lo: seq<Segment>, hi: seq<Segment>, pid: Pid, k: nat)
    requires NoOverflow(lo, hi, pid) && k < |lo| && k < |hi|
    requires NoOwnPlace(lo[..k], hi[..k], pid) && OwnPlace(lo[k], hi[k], pid)
    ensures lo[k].seqNo < MAX_U32 && Between(lo, hi, pid) == lo[..k] + [Segment(pid, lo[k].seqNo + 1)]
    decreases |lo|
  {
    if k > 0 {
      assert lo[..k][1..] == lo[1..][..k - 1] && hi[..k][1..] == hi[1..][..k - 1];
      NoOwnPlaceCons(lo[..k], hi[..k], pid);
      StaysOnLevel(lo[1..], hi[1..], pid, k - 1);
      assert lo[..k] == [lo[0]] + lo[1..][..k - 1];
    }
  }

  /** Without one it copies the lower neighbour as long as both have segments. */
  lemma {:induction false} CopiesShared(lo: seq<Segment>, hi: seq<Segment>, pid: Pid)
    requires NoOverflow(lo, hi, pid) && NoOwnPlace(lo, hi, pid)
    ensures
      var n := if |lo| < |hi| then |lo| else |hi|;
      && NoOverflowPast(lo[n..], hi[n..])
      && Between(lo, hi, pid) == lo[..n] + PastShared(lo[n..], hi[n..], pid)
    decreases |lo|
  {
    if lo != [] && hi != [] {
      NoOwnPlaceCons(lo, hi, pid);
      assert !Stops(lo[0], hi[0], pid);
      CopiesShared(lo[1..], hi[1..], pid);
      Descends(lo, hi, pid);
      hide *;
      var n := if |lo| < |hi| then |lo| else |hi|;
      assert lo[1..][n - 1..] == lo[n..] && hi[1..][n - 1..] == hi[n..];
      PrefixCons(lo, n, PastShared(lo[n..], hi[n..], pid));
    } else {
      assert lo[0..] == lo && hi[0..] == hi;
    }
  }

  lemma Descends(lo: seq<Segment>, hi: seq<Segment>, pid: Pid)
    requires NoOverflow(lo, hi, pid) && lo != [] && hi != [] && !Stops(lo[0], hi[0], pid)
    ensures Between(lo, hi, pid) == [lo[0]] + Between(lo[1..], hi[1..], pid)
  {
  }

  lemma PrefixCons(lo: seq<Segment>, n: nat, rest: seq<Segment>)
    requires 0 < n <= |lo|
    ensures [lo[0]] + (lo[1..][..n - 1] + rest) == lo[..n] + rest
  {
  }

  /** `(pid, 1)` for each segment of the upper neighbour that is not past `(pid, 2)`, and then `(pid, 2)`. */
  lemma {:induction false} OpensLevel(hi: seq<Segment>, pid: Pid, n: nat)
    requires n <= |hi| && forall i :: 0 <= i < n ==> !SegmentLess(Segment(pid, 2), hi[i])
    requires n < |hi| ==> SegmentLess(Segment(pid, 2), hi[n])
    ensures PastShared([], hi, pid) == seq(n, _ => Segment(pid, 1)) + [Segment(pid, 2)]
    decreases n
  {
    var ones := seq(n, _ => Segment(pid, 1));
    if n > 0 {
      OpensLevel(hi[1..], pid, n - 1);
      assert ones == [Segment(pid, 1)] + seq(n - 1, _ => Segment(pid, 1));
    } else {
      assert ones == [];
    }
  }

  /** Past a shorter upper neighbour: one past the first segment that is not one below the greatest. */
  lemma {:induction false} EndsPastHi(lo: seq<Segment>, pid: Pid, n: nat)
    requires NoOverflowPast(lo, []) && n <= |lo| && forall i :: 0 <= i < n ==> lo[i] == LAST_BEFORE_MAX
    requires n < |lo| ==> lo[n] != LAST_BEFORE_MAX
    ensures PastShared(lo, [], pid)
            == lo[..n] + [if n < |lo| && lo[n].seqNo < MAX_U32 then Following(lo[n]) else Segment(pid, 2)]
    ensures n < |lo| ==> lo[n].seqNo < MAX_U32
    decreases |lo|
  {
    if n > 0 {
      EndsPastHi(lo[1..], pid, n - 1);
      assert lo[..n] == [lo[0]] + lo[1..][..n - 1];
    }
  }

  /** Some segment is not one below the greatest. */
  ghost predicate Free(lo: seq<Segment>) { exists s :: s in lo && s != LAST_BEFORE_MAX }

  /**
    * Two peers get the same index between the same neighbours if and only if neither has a place of its own there, the
    * upper neighbour is the shorter one, and past it some segment of the lower one is not one below the greatest.
    */
  lemma {:induction false} PeersAgreeIff(lo: seq<Segment>, hi: seq<Segment>, p: Pid, q: Pid)
    requires NoOverflow(lo, hi, p) && NoOverflow(lo, hi, q) && p != q
    ensures Between(lo, hi, p) == Between(lo, hi, q)
            <==> |lo| > |hi| && NoOwnPlace(lo, hi, p) && NoOwnPlace(lo, hi, q) && Free(lo[|hi|..])
    decreases |lo|
  {
    if hi == [] {
      assert lo[0..] == lo;
      AppendIgnoresPeer(lo, p, q);
    } else if lo != [] {
      hide Free, NoOwnPlace;
      NoOwnPlaceCons(lo, hi, p);
      NoOwnPlaceCons(lo, hi, q);
      if |lo| > |hi| { assert lo[1..][|hi| - 1..] == lo[|hi|..]; }
      assert Stops(lo[0], hi[0], p) <==> OwnPlace(lo[0], hi[0], p);
      assert Stops(lo[0], hi[0], q) <==> OwnPlace(lo[0], hi[0], q);
      if OwnPlace(lo[0], hi[0], p) || OwnPlace(lo[0], hi[0], q) {
        assert Between(lo, hi, p)[0] != Between(lo, hi, q)[0];
      } else {
        PeersAgreeIff(lo[1..], hi[1..], p, q);
        var bp, bq := Between(lo[1..], hi[1..], p), Between(lo[1..], hi[1..], q);
        assert ([lo[0]] + bp)[1..] == bp && ([lo[0]] + bq)[1..] == bq;
      }
    }
  }


  //
  // Where measuring stops
  //

  lemma {:induction false} StopsAfter(index: seq<Segment>, rest: Bytes)
    requires RoundsComplete(rest)
    ensures RoundsComplete(Encode(index) + rest)
    ensures IndexLength(Encode(index) + rest) == Plus(|Encode(index)|, IndexLength(rest))
  {
    hide *;
    EncodeCons(index);
    if index == [] {
      assert [] + rest == rest;
      PlusNothing(IndexLength(rest));
    } else {
      var head, body := EncodeSegment(index[0]), Encode(index[1..]);
      StopsAfter(index[1..], rest);
      assert Encode(index) + rest == head + (body + rest);
      RoundOfEncoded(index[0], body + rest);
      RoundThenMore(Encode(index) + rest, head, body + rest);
      PlusTwice(|head|, |body|, IndexLength(rest));
    }
  }

  lemma PlusNothing(r: Option<nat>)
    ensures Plus(0, r) == r
  {
  }

  lemma PlusTwice(a: nat, b: nat, r: Option<nat>)
    ensures Plus(a, Plus(b, r)) == Plus(a + b, r)
  {
  }

  lemma RoundThenMore(bytes: Bytes, head: Bytes, tail: Bytes)
    requires bytes == head + tail
    requires SegmentComplete(bytes) && ReadRound(bytes) == Took(|head|) && RoundsComplete(tail)
    ensures RoundsComplete(bytes) && IndexLength(bytes) == Plus(|head|, IndexLength(tail))
  {
    hide SegmentComplete, ReadRound;
    assert bytes[|head|..] == tail;
  }

  /**
    * After whole segments, a byte that begins no number ends the index there; after the peer of one more segment it
    * makes all of it unreadable.
    */
  lemma Unreadable(index: seq<Segment>, pid: Pid, rest: Bytes)
    requires rest != [] && rest[0] > 4
    ensures
      && RoundsComplete(Encode(index) + rest)
      && IndexLength(Encode(index) + rest) == Some(|Encode(index)|)
    ensures
      && RoundsComplete(Encode(index) + (VarInts.Encode(pid) + rest))
      && IndexLength(Encode(index) + (VarInts.Encode(pid) + rest)) == None
  {
    hide EncodeSegment, Encode;
    StopsThere(rest);
    StopsAfter(index, rest);
    FailsThere(pid, rest);
    StopsAfter(index, VarInts.Encode(pid) + rest);
  }

  lemma StopsThere(rest: Bytes)
    requires rest != [] && rest[0] > 4
    ensures RoundsComplete(rest) && IndexLength(rest) == Some(0)
  {
  }

  lemma FailsThere(pid: Pid, rest: Bytes)
    requires rest != [] && rest[0] > 4
    ensures RoundsComplete(VarInts.Encode(pid) + rest) && IndexLength(VarInts.Encode(pid) + rest) == None
  {
    FixedWidths(pid);
    var p := VarInts.Encode(pid);
    VarInts.RoundTrip(pid, 4, rest);
    assert (p + rest)[|p|..] == rest;
    hide VarInts.Encode;
  }
}
