/** Flattening a mutation tree into key-value pairs over one shared, truncated path buffer (src/mutation.rs). */
module Mutations {
  import opened ByteStrings
  import opened PathReaders
  import opened PathWriters
  import opened Entries
  import Paths
  import FractionalIndices

  /** An operation on a leaf; an assigned value stands for its CBOR encoding. */
  datatype Op = Assign(value: Bytes) | Delete

  datatype Segment = Field(name: Bytes) | FractionalIndex(bytes: Bytes)

  datatype Mutation =
    | Apply(segment: Segment, op: Op)
    | Nested(segment: Segment, mutations: seq<Mutation>)
    | Compose(mutations: seq<Mutation>)

  /** Indices inside hold no varint that is cut short. */
  predicate Complete(m: Mutation) {
    match m
    case Apply(s, _) => CompleteSegment(s)
    case Nested(s, ms) => CompleteSegment(s) && forall i :: 0 <= i < |ms| ==> Complete(ms[i])
    case Compose(ms) => forall i :: 0 <= i < |ms| ==> Complete(ms[i])
  }

  predicate CompleteSegment(s: Segment) {
    s.FractionalIndex? ==> FractionalIndices.AllComplete(s.bytes)
  }

  /** `Segment::write`. */
  function Written(b: Buffer, s: Segment): Result<Buffer, PathError>
    requires CompleteSegment(s)
  {
    match s
    case Field(name) => Pushed(b, PushField(name))
    case FractionalIndex(bytes) =>
      if FractionalIndices.IsValid(bytes) then Pushed(b, PushIndex(bytes)) else Err(InvalidIndex)
  }

  function OpValue(op: Op): Bytes {
    if op.Delete? then [] else op.value
  }

  function LwwTail(): Bytes { [Paths.DELIMITER] + Paths.TailBody(Paths.Lww) }

  datatype Outcome = Outcome(result: Result<(), PathError>, emitted: seq<Entry>, buffer: Buffer)

  /** What the traversal of `for_each_internal` does to the buffer, and what it hands to the callback. */
  function Run(m: Mutation, b: Buffer): (o: Outcome)
    requires Complete(m)
    ensures b.bytes <= o.buffer.bytes
    decreases m, 1
  {
    match m
    case Apply(s, op) =>
      (match Written(b, s)
       case Err(e) => Outcome(Err(e), [], b)
       case Ok(b1) => Outcome(Ok(()), [Entry(b1.bytes + LwwTail(), OpValue(op))], b1))
    case Nested(s, ms) =>
      (match Written(b, s)
       case Err(e) => Outcome(Err(e), [], b)
       case Ok(b1) => RunAll(ms, b1))
    case Compose(ms) => RunAll(ms, b)
  }

  /** Children run one after the other; after each the buffer is cut back, but not the account of bytes written. */
  function RunAll(ms: seq<Mutation>, b: Buffer): (o: Outcome)
    requires forall i :: 0 <= i < |ms| ==> Complete(ms[i])
    ensures b.bytes <= o.buffer.bytes
    decreases ms, 0
  {
    if ms == [] then Outcome(Ok(()), [], b)
    else
      var o := Run(ms[0], b);
      if o.result.Err? then o
      else
        var rest := RunAll(ms[1..], Buffer(o.buffer.bytes[..|b.bytes|], o.buffer.written));
        Outcome(rest.result, o.emitted + rest.emitted, rest.buffer)
  }

  method WriteSegment(s: Segment, w: PathWriter) returns (r: Result<(), PathError>)
    requires CompleteSegment(s)
    modifies w
    ensures match Written(old(w.State()), s)
            case Ok(b) => r == Ok(()) && w.State() == b
            case Err(e) => r == Err(e) && w.State() == old(w.State())
  {
    match s
    case Field(name) => r := w.PushField(name);
    case FractionalIndex(bytes) =>
      if !FractionalIndices.IsValid(bytes) {
        return Err(InvalidIndex);
      }
      r := w.PushIndex(bytes);
  }

  method ForEachInternal(m: Mutation, w: PathWriter) returns (r: Result<(), PathError>, emitted: seq<Entry>)
    requires Complete(m)
    modifies w
    ensures Outcome(r, emitted, w.State()) == Run(m, old(w.State()))
    decreases m, 1
  {
    match m
    case Apply(s, op) =>
      r := WriteSegment(s, w);
      if r.Err? {
        return r, [];
      }
      var key := w.Lww();
      emitted := [Entry(key, OpValue(op))];
    case Nested(s, ms) =>
      r := WriteSegment(s, w);
      if r.Err? {
        return r, [];
      }
      r, emitted := ForEachChild(ms, w);
    case Compose(ms) =>
      r, emitted := ForEachChild(ms, w);
  }

  /** The loop both composite cases share. */
  method ForEachChild(ms: seq<Mutation>, w: PathWriter) returns (r: Result<(), PathError>, emitted: seq<Entry>)
    requires forall i :: 0 <= i < |ms| ==> Complete(ms[i])
    modifies w
    ensures Outcome(r, emitted, w.State()) == RunAll(ms, old(w.State()))
    decreases ms, 0
  {
    hide Complete, Run;
    ghost var goal := RunAll(ms, w.State());
    var trunc := |w.writer|;
    emitted := [];
    var i := 0;
    while i < |ms|
      invariant 0 <= i <= |ms| && |w.writer| == trunc
      invariant
        var rest := RunAll(ms[i..], w.State());
        goal == Outcome(rest.result, emitted + rest.emitted, rest.buffer)
    {
      ghost var before, done := w.State(), emitted;
      assert ms[i..][0] == ms[i] && ms[i..][1..] == ms[i + 1..];
      assert Complete(ms[i]);
      var one, more := ForEachInternal(ms[i], w);
      emitted := emitted + more;
      if one.Err? {
        return one, emitted;
      }
      ghost var o := Run(ms[i], before);
      w.writer := w.writer[..trunc];
      i := i + 1;
      ghost var rest := RunAll(ms[i..], w.State());
      assert (done + more) + rest.emitted == done + (more + rest.emitted);
    }
    assert emitted + [] == emitted;
    r := Ok(());
  }

  method ForEach(m: Mutation) returns (r: Result<(), PathError>, emitted: seq<Entry>)
    requires Complete(m)
    ensures r == Run(m, Buffer([], 0)).result && emitted == Run(m, Buffer([], 0)).emitted
  {
    var w := new PathWriter([], 0);
    r, emitted := ForEachInternal(m, w);
  }

  //
  // What is emitted
  //

  function SegmentBytes(s: Segment): Bytes {
    match s
    case Field(name) => name
    case FractionalIndex(bytes) => bytes
  }

  /** The key of a leaf: the delimited segments from the root to it, and the last-write-wins terminator. */
  function KeyOf(path: seq<Segment>): Bytes {
    PathBytes(path) + LwwTail()
  }

  function PathBytes(path: seq<Segment>): Bytes {
    if path == [] then [] else PathBytes(path[..|path| - 1]) + ([Paths.DELIMITER] + SegmentBytes(path[|path| - 1]))
  }

  /** The leaves under `path`, in document order, each with its whole path and its value. */
  function Leaves(m: Mutation, path: seq<Segment>): seq<Entry>
    decreases m, 1
  {
    match m
    case Apply(s, op) => [Entry(KeyOf(path + [s]), OpValue(op))]
    case Nested(s, ms) => AllLeaves(ms, path + [s])
    case Compose(ms) => AllLeaves(ms, path)
  }

  function AllLeaves(ms: seq<Mutation>, path: seq<Segment>): seq<Entry>
    decreases ms, 0
  {
    if ms == [] then [] else Leaves(ms[0], path) + AllLeaves(ms[1..], path)
  }

  /** Every segment written, in the order of the traversal. */
  function Visited(m: Mutation): seq<Segment>
    decreases m, 1
  {
    match m
    case Apply(s, _) => [s]
    case Nested(s, ms) => [s] + AllVisited(ms)
    case Compose(ms) => AllVisited(ms)
  }

  function AllVisited(ms: seq<Mutation>): seq<Segment>
    decreases ms, 0
  {
    if ms == [] then [] else Visited(ms[0]) + AllVisited(ms[1..])
  }

  /** For every segment written, whether it is that of a leaf. */
  function LeafFlags(m: Mutation): (flags: seq<bool>)
    ensures |flags| == |Visited(m)|
    decreases m, 1
  {
    match m
    case Apply(_, _) => [true]
    case Nested(_, ms) => [false] + AllLeafFlags(ms)
    case Compose(ms) => AllLeafFlags(ms)
  }

  function AllLeafFlags(ms: seq<Mutation>): (flags: seq<bool>)
    ensures |flags| == |AllVisited(ms)|
    decreases ms, 0
  {
    if ms == [] then [] else LeafFlags(ms[0]) + AllLeafFlags(ms[1..])
  }

  function Count(flags: seq<bool>): nat {
    if flags == [] then 0 else (if flags[0] then 1 else 0) + Count(flags[1..])
  }

  lemma {:induction false} CountConcat(a: seq<bool>, b: seq<bool>)
    ensures Count(a + b) == Count(a) + Count(b)
  {
    if a == [] {
      assert a + b == b;
    } else {
      assert (a + b)[1..] == a[1..] + b;
      CountConcat(a[1..], b);
    }
  }

  predicate AllCompleteSegments(segments: seq<Segment>) {
    forall i :: 0 <= i < |segments| ==> CompleteSegment(segments[i])
  }

  /** The account after writing the segments one after the other, never rewound; or the first refusal. */
  function Spend(segments: seq<Segment>, written: nat): Result<nat, PathError>
    requires AllCompleteSegments(segments)
    decreases |segments|
  {
    if segments == [] then Ok(written)
    else
      match Written(Buffer([], written), segments[0])
      case Err(e) => Err(e)
      case Ok(b) => Spend(segments[1..], b.written)
  }

  /** How many segments are written before the first refusal. */
  function Accepted(segments: seq<Segment>, written: nat): (n: nat)
    requires AllCompleteSegments(segments)
    ensures n <= |segments|
    ensures n == |segments| <==> Spend(segments, written).Ok?
    decreases |segments|
  {
    if segments == [] then 0
    else
      match Written(Buffer([], written), segments[0])
      case Err(_) => 0
      case Ok(b) => 1 + Accepted(segments[1..], b.written)
  }

  lemma WrittenIsLocal(s: Segment, b: Buffer)
    requires CompleteSegment(s)
    ensures
      var r, r0 := Written(b, s), Written(Buffer([], b.written), s);
      && (r.Err? <==> r0.Err?)
      && (r.Err? ==> r.error == r0.error)
      && (r.Ok? ==> r.value == Buffer(b.bytes + ([Paths.DELIMITER] + SegmentBytes(s)), r0.value.written))
  {
    assert b.bytes + [Paths.DELIMITER] + SegmentBytes(s) == b.bytes + ([Paths.DELIMITER] + SegmentBytes(s));
  }

  /** An index that is not valid is refused as such, whatever its length; all else as the push of its bytes is. */
  lemma WhyRefused(s: Segment, b: Buffer)
    requires CompleteSegment(s)
    ensures Written(b, s) == Err(InvalidIndex) <==> s.FractionalIndex? && !FractionalIndices.IsValid(s.bytes)
  {
  }

  lemma {:induction false} SpendConcat(xs: seq<Segment>, ys: seq<Segment>, written: nat)
    requires AllCompleteSegments(xs) && AllCompleteSegments(ys)
    ensures AllCompleteSegments(xs + ys)
    ensures Spend(xs + ys, written)
            == if Spend(xs, written).Ok? then Spend(ys, Spend(xs, written).value) else Spend(xs, written)
    decreases |xs|
  {
    if xs == [] {
      assert xs + ys == ys;
    } else {
      assert (xs + ys)[1..] == xs[1..] + ys;
      var r := Written(Buffer([], written), xs[0]);
      SpendConcat(xs[1..], ys, if r.Ok? then r.value.written else 0);
    }
  }

  /** The second of two runs is reached when the first is accepted. */
  lemma {:induction false} AcceptedConcat(xs: seq<Segment>, ys: seq<Segment>, written: nat)
    requires AllCompleteSegments(xs) && AllCompleteSegments(ys)
    ensures AllCompleteSegments(xs + ys)
    ensures Accepted(xs + ys, written)
            == if Spend(xs, written).Ok? then |xs| + Accepted(ys, Spend(xs, written).value) else Accepted(xs, written)
    decreases |xs|
  {
    if xs == [] {
      assert xs + ys == ys;
    } else {
      assert (xs + ys)[1..] == xs[1..] + ys;
      var r := Written(Buffer([], written), xs[0]);
      AcceptedConcat(xs[1..], ys, if r.Ok? then r.value.written else 0);
    }
  }

  lemma PathBytesSnoc(path: seq<Segment>, s: Segment)
    ensures PathBytes(path + [s]) == PathBytes(path) + ([Paths.DELIMITER] + SegmentBytes(s))
  {
    assert (path + [s])[..|path|] == path;
  }

  /**
    * What a traversal that writes `segments` gives: the outcome of writing them, and the leaves whose segment
    * comes before the first that is refused.
    */
  ghost predicate Flattens(o: Outcome, leaves: seq<Entry>, flags: seq<bool>, segments: seq<Segment>, b: Buffer)
    requires AllCompleteSegments(segments) && |flags| == |segments|
  {
    && o.emitted <= leaves && |o.emitted| == Count(flags[..Accepted(segments, b.written)])
    && match Spend(segments, b.written)
       case Err(e) => o.result == Err(e)
       case Ok(n) => o.result == Ok(()) && o.emitted == leaves && o.buffer.written == n && b.bytes <= o.buffer.bytes
  }

  lemma FlattensFirst(o: Outcome, leaves: seq<Entry>, flags: seq<bool>, segments: seq<Segment>, b: Buffer,
                      more: seq<Entry>, moreFlags: seq<bool>, moreSegments: seq<Segment>)
    requires AllCompleteSegments(segments) && |flags| == |segments|
    requires AllCompleteSegments(moreSegments) && |moreFlags| == |moreSegments|
    requires Flattens(o, leaves, flags, segments, b) && o.result.Err?
    ensures AllCompleteSegments(segments + moreSegments)
    ensures Flattens(o, leaves + more, flags + moreFlags, segments + moreSegments, b)
  {
    hide Written, Count;
    SpendConcat(segments, moreSegments, b.written);
    AcceptedConcat(segments, moreSegments, b.written);
    var n := Accepted(segments, b.written);
    assert (flags + moreFlags)[..n] == flags[..n];
  }

  lemma FlattensThen(o: Outcome, leaves: seq<Entry>, flags: seq<bool>, segments: seq<Segment>, b: Buffer,
                     rest: Outcome, more: seq<Entry>, moreFlags: seq<bool>, moreSegments: seq<Segment>, b': Buffer)
    requires AllCompleteSegments(segments) && |flags| == |segments|
    requires AllCompleteSegments(moreSegments) && |moreFlags| == |moreSegments|
    requires Flattens(o, leaves, flags, segments, b) && o.result.Ok? && b'.written == o.buffer.written
    requires Flattens(rest, more, moreFlags, moreSegments, b') && b.bytes <= rest.buffer.bytes
    ensures AllCompleteSegments(segments + moreSegments)
    ensures Flattens(Outcome(rest.result, o.emitted + rest.emitted, rest.buffer), leaves + more, flags + moreFlags,
                     segments + moreSegments, b)
  {
    hide Written, Count, Accepted, Spend, CompleteSegment;
    SpendConcat(segments, moreSegments, b.written);
    AcceptedConcat(segments, moreSegments, b.written);
    var n := Accepted(moreSegments, b'.written);
    assert flags[..|flags|] == flags;
    assert (flags + moreFlags)[..|flags| + n] == flags + moreFlags[..n];
    CountConcat(flags, moreFlags[..n]);
    PrefixUnderPrefix(leaves, rest.emitted, more);
  }

  /** The children of a segment that is accepted. */
  lemma FlattensUnder(o: Outcome, leaves: seq<Entry>, flags: seq<bool>, segments: seq<Segment>, inner: Buffer,
                      s: Segment, b: Buffer)
    requires AllCompleteSegments(segments) && |flags| == |segments| && CompleteSegment(s)
    requires Written(b, s) == Ok(inner) && b.bytes <= inner.bytes
    requires Flattens(o, leaves, flags, segments, inner)
    ensures AllCompleteSegments([s] + segments)
    ensures Flattens(o, leaves, [false] + flags, [s] + segments, b)
  {
    hide Written, CompleteSegment;
    WrittenIsLocal(s, b);
    var n := Accepted(segments, inner.written);
    assert ([s] + segments)[1..] == segments;
    assert ([false] + flags)[..n + 1] == [false] + flags[..n];
    assert ([false] + flags[..n])[1..] == flags[..n];
  }

  /**
    * The traversal emits exactly one pair for each leaf, in document order, under the leaf's own path,
    * whatever was cut from the shared buffer before; it stops with an error exactly when the whole mutation's
    * segments overrun the account or one is invalid, and has then emitted exactly the leaves before that segment.
    */
  lemma {:induction false} Flattening(m: Mutation, path: seq<Segment>, b: Buffer)
    requires Complete(m) && b.bytes == PathBytes(path)
    ensures AllCompleteSegments(Visited(m))
    ensures Flattens(Run(m, b), Leaves(m, path), LeafFlags(m), Visited(m), b)
    decreases m, 1
  {
    hide Written, PathBytes, SegmentBytes, CompleteSegment;
    match m
    case Apply(s, op) =>
      WrittenIsLocal(s, b);
      PathBytesSnoc(path, s);
      assert Count([true][..0]) == 0 && Count([true]) == 1 && [true][..1] == [true];
    case Nested(s, ms) =>
      PathBytesSnoc(path, s);
      AllComplete(ms);
      WrittenIsLocal(s, b);
      var r := Written(b, s);
      if r.Ok? {
        FlatteningAll(ms, path + [s], r.value);
        FlattensUnder(RunAll(ms, r.value), AllLeaves(ms, path + [s]), AllLeafFlags(ms), AllVisited(ms), r.value, s, b);
      }
    case Compose(ms) =>
      FlatteningAll(ms, path, b);
  }

  lemma {:induction false} AllComplete(ms: seq<Mutation>)
    requires forall i :: 0 <= i < |ms| ==> Complete(ms[i])
    ensures AllCompleteSegments(AllVisited(ms))
    decreases ms, 0
  {
    if ms != [] {
      VisitedComplete(ms[0]);
      AllComplete(ms[1..]);
    }
  }

  lemma {:induction false} VisitedComplete(m: Mutation)
    requires Complete(m)
    ensures AllCompleteSegments(Visited(m))
    decreases m, 1
  {
    match m
    case Apply(_, _) =>
    case Nested(_, ms) => AllComplete(ms);
    case Compose(ms) => AllComplete(ms);
  }

  lemma {:induction false} FlatteningAll(ms: seq<Mutation>, path: seq<Segment>, b: Buffer)
    requires forall i :: 0 <= i < |ms| ==> Complete(ms[i])
    requires b.bytes == PathBytes(path)
    ensures AllCompleteSegments(AllVisited(ms))
    ensures Flattens(RunAll(ms, b), AllLeaves(ms, path), AllLeafFlags(ms), AllVisited(ms), b)
    decreases ms, 0
  {
    hide Flattens, Spend, Accepted, Count;
    AllComplete(ms);
    if ms == [] {
      NothingFlattens(b);
    } else {
      Flattening(ms[0], path, b);
      AllComplete(ms[1..]);
      var o := Run(ms[0], b);
      var leaves, flags, segments := AllLeaves(ms[1..], path), AllLeafFlags(ms[1..]), AllVisited(ms[1..]);
      if o.result.Ok? {
        var b' := Buffer(o.buffer.bytes[..|b.bytes|], o.buffer.written);
        assert b'.bytes == b.bytes;
        FlatteningAll(ms[1..], path, b');
        FlattensThen(o, Leaves(ms[0], path), LeafFlags(ms[0]), Visited(ms[0]), b,
                     RunAll(ms[1..], b'), leaves, flags, segments, b');
      } else {
        FlattensFirst(o, Leaves(ms[0], path), LeafFlags(ms[0]), Visited(ms[0]), b, leaves, flags, segments);
      }
    }
  }

  lemma NothingFlattens(b: Buffer)
    ensures Flattens(Outcome(Ok(()), [], b), [], [], [], b)
  {
  }

  function Cost(s: Segment): nat {
    if s.Field? then 1 + |s.name| else |s.bytes|
  }

  function TotalCost(segments: seq<Segment>): nat {
    if segments == [] then 0 else Cost(segments[0]) + TotalCost(segments[1..])
  }

  predicate ValidSegment(s: Segment)
    requires CompleteSegment(s)
  {
    match s
    case Field(name) => Paths.ValidField(name)
    case FractionalIndex(bytes) => FractionalIndices.IsValid(bytes)
  }

  predicate AllValid(segments: seq<Segment>)
    requires AllCompleteSegments(segments)
  {
    forall i :: 0 <= i < |segments| ==> ValidSegment(segments[i])
  }

  lemma AllValidCons(s: Segment, rest: seq<Segment>)
    requires CompleteSegment(s) && AllCompleteSegments([s] + rest) && AllCompleteSegments(rest)
    ensures AllValid([s] + rest) <==> ValidSegment(s) && AllValid(rest)
  {
    hide ValidSegment;
    var all := [s] + rest;
    assert all[0] == s && forall i :: 0 <= i < |rest| ==> all[i + 1] == rest[i];
    assert forall i :: 0 < i < |all| ==> all[i] == rest[i - 1];
  }

  /** The byte the check of an index adds to what is counted. */
  function LastCheck(segments: seq<Segment>): nat {
    if segments != [] && segments[|segments| - 1].FractionalIndex? then 1 else 0
  }

  /**
    * A mutation is accepted if and only if all its segments are valid and the bytes counted for all of them
    * together fit the limit; only the last check can add a byte that no later one covers.
    */
  lemma {:induction false} AcceptedIff(segments: seq<Segment>, written: nat)
    requires AllCompleteSegments(segments)
    ensures Spend(segments, written).Ok?
            <==> AllValid(segments)
                 && (segments == [] || written + TotalCost(segments) + LastCheck(segments) <= MAX_PATH)
    decreases |segments|
  {
    hide AllValid;
    if segments == [] {
      assert AllValid(segments) by { NothingInvalid(); }
    } else {
      var s, rest := segments[0], segments[1..];
      assert segments == [s] + rest;
      AllValidCons(s, rest);
      AcceptedIff(rest, written + Cost(s));
      RestCosts(rest);
    }
  }

  lemma NothingInvalid()
    ensures AllValid([])
  {
  }

  /** When a whole mutation is accepted, in terms of its segments. */
  lemma MutationAccepted(m: Mutation)
    requires Complete(m)
    ensures AllCompleteSegments(Visited(m))
    ensures Run(m, Buffer([], 0)).result == Ok(())
            <==> AllValid(Visited(m))
                 && (Visited(m) == [] || TotalCost(Visited(m)) + LastCheck(Visited(m)) <= MAX_PATH)
  {
    hide AllValid, TotalCost, LastCheck, Run, Leaves;
    Flattening(m, [], Buffer([], 0));
    AcceptedIff(Visited(m), 0);
  }

  lemma {:induction false} RestCosts(segments: seq<Segment>)
    ensures segments != [] ==> TotalCost(segments) + LastCheck(segments) >= 1
  {
    if |segments| > 1 { RestCosts(segments[1..]); }
  }

  /** The limit is on the mutation, not on its paths: two leaves that fit one by one are refused together. */
  lemma LimitIsShared(name: Bytes, op: Op)
    requires Paths.ValidField(name) && |name| == 20000
    ensures
      var leaf := Apply(Segment.Field(name), op);
      && Run(leaf, Buffer([], 0)).result == Ok(())
      && Run(Compose([leaf, leaf]), Buffer([], 0)).result == Err(TooLong)
  {
    var leaf := Apply(Segment.Field(name), op);
    var first := Run(leaf, Buffer([], 0));
    assert first.buffer.written == 20001 && first.buffer.bytes[..0] == [];
    assert [leaf, leaf][1..] == [leaf];
    assert Run(leaf, Buffer([], 20001)).result == Err(TooLong);
    assert RunAll([leaf], Buffer([], 20001)).result == Err(TooLong);
  }

  //
  // Keys are encoded paths
  //

  function OfStep(s: Paths.Step): Segment {
    match s
    case Name(f) => Segment.Field(f)
    case Position(index) => FractionalIndex(FractionalIndices.Encode(index))
  }

  function OfSteps(steps: seq<Paths.Step>): (path: seq<Segment>)
    ensures |path| == |steps|
  {
    if steps == [] then [] else OfSteps(steps[..|steps| - 1]) + [OfStep(steps[|steps| - 1])]
  }

  lemma {:induction false} EncodeStepsSnoc(steps: seq<Paths.Step>, s: Paths.Step)
    ensures Paths.EncodeSteps(steps + [s]) == Paths.EncodeSteps(steps) + ([Paths.DELIMITER] + Paths.StepBody(s))
  {
    hide Paths.StepBody;
    if steps == [] {
      assert steps + [s] == [s];
    } else {
      EncodeStepsSnoc(steps[1..], s);
      assert (steps + [s])[1..] == steps[1..] + [s];
      var head := [Paths.DELIMITER] + Paths.StepBody(steps[0]);
      var tail := [Paths.DELIMITER] + Paths.StepBody(s);
      assert head + (Paths.EncodeSteps(steps[1..]) + tail) == (head + Paths.EncodeSteps(steps[1..])) + tail;
    }
  }

  /** The key emitted for a leaf is the encoding of its path as a last-write-wins register. */
  lemma {:induction false} KeyIsEncodedPath(steps: seq<Paths.Step>)
    ensures PathBytes(OfSteps(steps)) == Paths.EncodeSteps(steps)
    ensures KeyOf(OfSteps(steps)) == Paths.Encode(Paths.Path(steps, Paths.Lww))
  {
    hide Paths.TailBody, FractionalIndices.Encode;
    if steps != [] {
      var init, last := steps[..|steps| - 1], steps[|steps| - 1];
      KeyIsEncodedPath(init);
      EncodeStepsSnoc(init, last);
      assert steps == init + [last];
      PathBytesSnoc(OfSteps(init), OfStep(last));
    }
  }

  //
  // Which paths share a key
  //

  lemma {:induction false} PathBytesCons(path: seq<Segment>)
    requires path != []
    ensures PathBytes(path) == ([Paths.DELIMITER] + SegmentBytes(path[0])) + PathBytes(path[1..])
  {
    hide SegmentBytes;
    var init, last := path[..|path| - 1], path[|path| - 1];
    var head, end := [Paths.DELIMITER] + SegmentBytes(path[0]), [Paths.DELIMITER] + SegmentBytes(last);
    if init == [] {
      assert path[1..] == [];
    } else {
      PathBytesCons(init);
      assert path[1..][..|path| - 2] == init[1..];
      Assoc(head, PathBytes(init[1..]), end);
    }
  }

  /** The key after its first delimiter. */
  function AfterDelimiter(path: seq<Segment>): Bytes {
    if path == [] then Paths.TailBody(Paths.Lww) else SegmentBytes(path[0]) + KeyOf(path[1..])
  }

  lemma KeyIsDelimited(path: seq<Segment>)
    ensures KeyOf(path) == [Paths.DELIMITER] + AfterDelimiter(path)
  {
    hide SegmentBytes;
    if path != [] {
      PathBytesCons(path);
      hide PathBytes;
      Assoc([Paths.DELIMITER], SegmentBytes(path[0]), PathBytes(path[1..]));
      Assoc([Paths.DELIMITER], SegmentBytes(path[0]) + PathBytes(path[1..]), LwwTail());
      Assoc(SegmentBytes(path[0]), PathBytes(path[1..]), LwwTail());
    }
  }

  /** A name starts with 32 or more, an index with 1 to 4. */
  lemma FirstOfBody(s: Segment)
    requires CompleteSegment(s) && ValidSegment(s) && SegmentBytes(s) != []
    ensures if s.Field? then SegmentBytes(s)[0] >= 32 else 1 <= SegmentBytes(s)[0] <= 4
  {
    if s.FractionalIndex? { FractionalIndices.ValidFirstByte(s.bytes); }
  }

  lemma SplitAt(a: Bytes, x: Bytes, b: Bytes, y: Bytes)
    requires a + ([Paths.DELIMITER] + x) == b + ([Paths.DELIMITER] + y)
    ensures a == [] && b != [] ==> b[0] == Paths.DELIMITER
    ensures a != [] && b != [] ==> a[0] == b[0]
    ensures |a| < |b| ==> b[|a|] == Paths.DELIMITER
    ensures |a| == |b| ==> a == b && x == y
  {
    var whole := a + ([Paths.DELIMITER] + x);
    assert whole[|a|] == Paths.DELIMITER;
    assert whole == b + ([Paths.DELIMITER] + y);
    if a != [] && b != [] { assert whole[0] == a[0] && whole[0] == b[0]; }
    if |a| < |b| { assert whole[|a|] == b[|a|]; }
    if |a| == |b| {
      assert whole[..|a|] == a && whole[..|b|] == b;
      assert x == whole[|a| + 1..] && y == whole[|b| + 1..];
    }
  }

  /** An index is measured, a name runs to the delimiter. */
  lemma SameLength(s: Segment, t: Segment, x: Bytes, y: Bytes)
    requires CompleteSegment(s) && CompleteSegment(t) && ValidSegment(s) && ValidSegment(t)
    requires s.Field? == t.Field?
    requires SegmentBytes(s) + ([Paths.DELIMITER] + x) == SegmentBytes(t) + ([Paths.DELIMITER] + y)
    ensures |SegmentBytes(s)| == |SegmentBytes(t)|
  {
    hide FractionalIndices.RoundsComplete, FractionalIndices.IndexLength, FractionalIndices.AllComplete;
    hide FractionalIndices.IsValid;
    var a, b := SegmentBytes(s), SegmentBytes(t);
    if s.Field? {
      SplitAt(a, x, b, y);
      SplitAt(b, y, a, x);
    } else {
      FractionalIndices.IndexLengthOfValid(a, [Paths.DELIMITER] + x);
      FractionalIndices.IndexLengthOfValid(b, [Paths.DELIMITER] + y);
    }
  }

  /** Where a body ends can be told from the bytes. */
  lemma BodiesEnd(s: Segment, t: Segment, x: Bytes, y: Bytes)
    requires CompleteSegment(s) && CompleteSegment(t) && ValidSegment(s) && ValidSegment(t)
    requires SegmentBytes(s) + ([Paths.DELIMITER] + x) == SegmentBytes(t) + ([Paths.DELIMITER] + y)
    ensures SegmentBytes(s) == SegmentBytes(t) && x == y
  {
    hide SegmentBytes, ValidSegment, CompleteSegment;
    var a, b := SegmentBytes(s), SegmentBytes(t);
    SplitAt(a, x, b, y);
    SplitAt(b, y, a, x);
    if a != [] { FirstOfBody(s); }
    if b != [] { FirstOfBody(t); }
    if s.Field? == t.Field? { SameLength(s, t, x, y); }
  }

  /** The two segments that are written as nothing. */
  predicate Alike(s: Segment, t: Segment) {
    s == t || (s in {Segment.Field([]), FractionalIndex([])} && t in {Segment.Field([]), FractionalIndex([])})
  }

  lemma AlikeIff(s: Segment, t: Segment)
    requires CompleteSegment(s) && CompleteSegment(t) && ValidSegment(s) && ValidSegment(t)
    ensures SegmentBytes(s) == SegmentBytes(t) <==> Alike(s, t)
  {
    if SegmentBytes(s) == SegmentBytes(t) != [] {
      FirstOfBody(s);
      FirstOfBody(t);
    }
  }

  ghost predicate AllAlike(p: seq<Segment>, q: seq<Segment>) {
    |p| == |q| && forall i :: 0 <= i < |p| ==> Alike(p[i], q[i])
  }

  lemma AllAlikeCons(p: seq<Segment>, q: seq<Segment>)
    requires p != [] && q != []
    ensures AllAlike(p, q) <==> Alike(p[0], q[0]) && AllAlike(p[1..], q[1..])
  {
    hide Alike;
    if Alike(p[0], q[0]) && AllAlike(p[1..], q[1..]) {
      forall i | 0 <= i < |p| ensures Alike(p[i], q[i]) {
        if i > 0 { assert p[i] == p[1..][i - 1] && q[i] == q[1..][i - 1]; }
      }
    }
    if AllAlike(p, q) {
      assert Alike(p[0], q[0]);
      forall i | 0 <= i < |p| - 1 ensures Alike(p[1..][i], q[1..][i]) {
        assert p[1..][i] == p[i + 1] && q[1..][i] == q[i + 1];
      }
    }
  }

  /** The end of a key is not the start of a segment. */
  lemma EndIsNoSegment(q: seq<Segment>)
    requires AllCompleteSegments(q) && AllValid(q) && q != []
    ensures KeyOf([]) != KeyOf(q)
  {
    hide KeyOf, SegmentBytes, ValidSegment, CompleteSegment;
    KeyIsDelimited([]);
    KeyIsDelimited(q);
    KeyIsDelimited(q[1..]);
    if SegmentBytes(q[0]) != [] { FirstOfBody(q[0]); }
    assert AfterDelimiter([]) == KeyOf([])[1..] && AfterDelimiter(q) == KeyOf(q)[1..];
    assert AfterDelimiter([])[0] == Paths.TERMINATOR_LWW;
  }

  /**
    * Two leaves at valid paths get the same key if and only if their paths are the same, except that an empty index
    * and an empty name are written alike.
    */
  lemma {:induction false} SameKeyIff(p: seq<Segment>, q: seq<Segment>)
    requires AllCompleteSegments(p) && AllValid(p) && AllCompleteSegments(q) && AllValid(q)
    ensures KeyOf(p) == KeyOf(q) <==> AllAlike(p, q)
    decreases |p|
  {
    hide KeyOf, SegmentBytes, ValidSegment, CompleteSegment, Alike;
    if p == [] || q == [] {
      if q != [] { EndIsNoSegment(q); }
      if p != [] { EndIsNoSegment(p); }
    } else {
      SameKeyIff(p[1..], q[1..]);
      AllAlikeCons(p, q);
      AlikeIff(p[0], q[0]);
      KeyIsDelimited(p);
      KeyIsDelimited(q);
      assert KeyOf(p)[1..] == AfterDelimiter(p) && KeyOf(q)[1..] == AfterDelimiter(q);
      KeyIsDelimited(p[1..]);
      KeyIsDelimited(q[1..]);
      if KeyOf(p) == KeyOf(q) {
        BodiesEnd(p[0], q[0], AfterDelimiter(p[1..]), AfterDelimiter(q[1..]));
      }
    }
  }

  /** An empty index counts as valid, and a leaf under it takes the key of one under an empty name. */
  lemma EmptyIndexIsEmptyName(op: Op)
    ensures
      var a, b := Run(Apply(FractionalIndex([]), op), Buffer([], 0)), Run(Apply(Segment.Field([]), op), Buffer([], 0));
      a.result == b.result == Ok(()) && a.emitted == b.emitted
  {
    assert [Paths.DELIMITER] + [] == [Paths.DELIMITER];
  }
}
