/** Document paths as one byte string (src/path/mod.rs): their encoding, its order and its prefixes. */
module Paths {
  import opened ByteStrings
  import VarInts
  import FractionalIndices

  const DELIMITER: Byte := 0
  const TERMINATOR_COUNTER: Byte := 29
  const TERMINATOR_LWW: Byte := 30
  const TERMINATOR_CHUNKED: Byte := 31

  /** One step down the document tree. */
  datatype Step = Name(field: Bytes) | Position(index: seq<FractionalIndices.Segment>)

  datatype Terminator = Counter(pid: U32) | Lww | Chunked(end: nat)

  /** A finalized path. */
  datatype Path = Path(steps: seq<Step>, tail: Terminator)

  predicate ValidField(name: Bytes) {
    forall i :: 0 <= i < |name| ==> name[i] >= 32
  }

  predicate ValidStep(s: Step) {
    match s
    case Name(f) => ValidField(f)
    case Position(index) => index != []
  }

  predicate ValidSteps(steps: seq<Step>) {
    forall s :: s in steps ==> ValidStep(s)
  }

  predicate ValidTail(t: Terminator) {
    t.Chunked? ==> Size(t.end) <= 8
  }

  predicate Valid(p: Path) {
    ValidSteps(p.steps) && ValidTail(p.tail)
  }

  //
  // Encoding
  //

  function StepBody(s: Step): Bytes {
    match s
    case Name(f) => f
    case Position(index) => FractionalIndices.Encode(index)
  }

  function EncodeSteps(steps: seq<Step>): Bytes {
    if steps == [] then [] else [DELIMITER] + StepBody(steps[0]) + EncodeSteps(steps[1..])
  }

  function TailBody(t: Terminator): Bytes {
    match t
    case Counter(pid) => [TERMINATOR_COUNTER] + BE(pid, 4)
    case Lww => [TERMINATOR_LWW]
    case Chunked(end) => [TERMINATOR_CHUNKED] + VarInts.Encode(end)
  }

  function Encode(p: Path): Bytes {
    EncodeSteps(p.steps) + ([DELIMITER] + TailBody(p.tail))
  }

  //
  // Structural order
  //

  /** Empty field, then indices, then non-empty fields. */
  predicate StepLess(a: Step, b: Step) {
    match (a, b)
    case (Name(x), Name(y)) => Less(x, y)
    case (Name(x), Position(_)) => x == []
    case (Position(_), Name(y)) => y != []
    case (Position(x), Position(y)) => FractionalIndices.IndexLess(x, y)
  }

  /** Terminators lie between indices and non-empty fields. */
  predicate BelowTail(s: Step) {
    s.Position? || s.field == []
  }

  function TailRank(t: Terminator): nat {
    match t
    case Counter(_) => 0
    case Lww => 1
    case Chunked(_) => 2
  }

  predicate TailLess(a: Terminator, b: Terminator) {
    || TailRank(a) < TailRank(b)
    || (a.Counter? && b.Counter? && a.pid < b.pid)
    || (a.Chunked? && b.Chunked? && a.end < b.end)
  }

  predicate PathLess(p: Path, q: Path)
    decreases |p.steps|
  {
    if p.steps == [] && q.steps == [] then TailLess(p.tail, q.tail)
    else if p.steps == [] then !BelowTail(q.steps[0])
    else if q.steps == [] then BelowTail(p.steps[0])
    else
      || StepLess(p.steps[0], q.steps[0])
      || (p.steps[0] == q.steps[0] && PathLess(Path(p.steps[1..], p.tail), Path(q.steps[1..], q.tail)))
  }

  lemma StepTotal(a: Step, b: Step)
    ensures StepLess(a, b) || a == b || StepLess(b, a)
  {
    match (a, b)
    case (Name(x), Name(y)) => LessTotal(x, y);
    case (Position(x), Position(y)) => FractionalIndices.IndexTotal(x, y);
    case _ =>
  }

  lemma {:induction false} PathTotal(p: Path, q: Path)
    ensures PathLess(p, q) || p == q || PathLess(q, p)
    decreases |p.steps|
  {
    if p.steps != [] && q.steps != [] {
      StepTotal(p.steps[0], q.steps[0]);
      if p.steps[0] == q.steps[0] {
        PathTotal(Path(p.steps[1..], p.tail), Path(q.steps[1..], q.tail));
        assert p.steps == [p.steps[0]] + p.steps[1..] && q.steps == [q.steps[0]] + q.steps[1..];
      }
    }
  }

  //
  // Order of the encodings
  //

  /** A field and the delimiter after it order as the fields do. */
  lemma FieldOrder(x: Bytes, y: Bytes)
    requires ValidField(y) && Less(x, y)
    ensures Before(x + [0], y + [0])
  {
    LessCases(x, y);
    LessAsymmetric(x, y);
    if x <= y {
      var t := y[|x|..];
      assert y == x + t && t[0] == y[|x|];
      assert y + [0] == x + (t + [0]);
      BeforeAfterPrefix(x, [0], t + [0]);
    } else {
      BeforeExtends(x, y, [0], [0]);
    }
  }

  lemma StepBodyOrder(a: Step, b: Step)
    requires ValidStep(a) && ValidStep(b) && StepLess(a, b)
    ensures Before(StepBody(a) + [0], StepBody(b) + [0])
  {
    if a.Position? { FractionalIndices.IndexFirstByte(a.index); }
    if b.Position? { FractionalIndices.IndexFirstByte(b.index); }
    match (a, b)
    case (Name(x), Name(y)) => FieldOrder(x, y);
    case (Position(x), Position(y)) => FractionalIndices.DelimitedOrder(x, y);
    case (Name(x), Position(y)) => assert (StepBody(a) + [0])[0] == 0;
    case (Position(x), Name(y)) => assert y[0] >= 32;
  }

  /** A step body, delimited, against a terminator: the first byte decides. */
  lemma StepAgainstTail(s: Step, t: Terminator)
    requires ValidStep(s)
    ensures if BelowTail(s) then Before(StepBody(s) + [0], TailBody(t)) else Before(TailBody(t), StepBody(s) + [0])
  {
    match s
    case Name(f) => if f != [] { assert f[0] >= 32; }
    case Position(index) => FractionalIndices.IndexFirstByte(index);
  }

  lemma TailOrder(a: Terminator, b: Terminator)
    requires ValidTail(a) && ValidTail(b) && TailLess(a, b)
    ensures Before(TailBody(a), TailBody(b))
  {
    if a.Counter? && b.Counter? {
      FixedWidths(b.pid);
      BEOrder(a.pid, b.pid, 4);
      BeforeAfterPrefix([TERMINATOR_COUNTER], BE(a.pid, 4), BE(b.pid, 4));
    } else if a.Chunked? && b.Chunked? {
      VarInts.Order(a.end, b.end);
      BeforeAfterPrefix([TERMINATOR_CHUNKED], VarInts.Encode(a.end), VarInts.Encode(b.end));
    }
  }

  /** What follows the first delimiter of an encoded path. */
  function AfterDelimiter(p: Path): Bytes
    decreases |p.steps|
  {
    if p.steps == [] then TailBody(p.tail)
    else (StepBody(p.steps[0]) + [DELIMITER]) + AfterDelimiter(Path(p.steps[1..], p.tail))
  }

  lemma {:induction false} EncodeIsDelimited(p: Path)
    ensures Encode(p) == [DELIMITER] + AfterDelimiter(p)
    decreases |p.steps|
  {
    hide StepBody, TailBody;
    if p.steps != [] {
      var rest := Path(p.steps[1..], p.tail);
      EncodeIsDelimited(rest);
      assert Encode(p) == [DELIMITER] + StepBody(p.steps[0]) + Encode(rest);
    }
  }

  lemma {:induction false} BodyOrder(p: Path, q: Path)
    requires Valid(p) && Valid(q) && PathLess(p, q)
    ensures Before(AfterDelimiter(p), AfterDelimiter(q))
    decreases |p.steps|
  {
    if p.steps == [] && q.steps == [] {
      TailOrder(p.tail, q.tail);
    } else if p.steps == [] {
      StepAgainstTail(q.steps[0], p.tail);
      BeforeExtends(TailBody(p.tail), StepBody(q.steps[0]) + [0], [], AfterDelimiter(Path(q.steps[1..], q.tail)));
      assert TailBody(p.tail) + [] == TailBody(p.tail);
    } else if q.steps == [] {
      StepAgainstTail(p.steps[0], q.tail);
      BeforeExtends(StepBody(p.steps[0]) + [0], TailBody(q.tail), AfterDelimiter(Path(p.steps[1..], p.tail)), []);
      assert TailBody(q.tail) + [] == TailBody(q.tail);
    } else {
      var a, b := StepBody(p.steps[0]) + [0], StepBody(q.steps[0]) + [0];
      var p', q' := Path(p.steps[1..], p.tail), Path(q.steps[1..], q.tail);
      if p.steps[0] == q.steps[0] {
        assert !StepLess(p.steps[0], q.steps[0]) by { StepIrreflexive(p.steps[0]); }
        BodyOrder(p', q');
        BeforeAfterPrefix(a, AfterDelimiter(p'), AfterDelimiter(q'));
      } else {
        StepBodyOrder(p.steps[0], q.steps[0]);
        BeforeExtends(a, b, AfterDelimiter(p'), AfterDelimiter(q'));
      }
    }
  }

  lemma StepIrreflexive(s: Step)
    ensures !StepLess(s, s)
  {
    match s
    case Name(f) => LessIrreflexive(f);
    case Position(index) =>
      FractionalIndices.IndexOrderIff(index, index);
      LessIrreflexive(FractionalIndices.Encode(index));
  }

  /**
    * The byte order of encoded paths is exactly their structural order, different paths have different
    * encodings, and no encoded path is a prefix of another.
    */
  lemma OrderIsomorphism(p: Path, q: Path)
    requires Valid(p) && Valid(q)
    ensures Less(Encode(p), Encode(q)) <==> PathLess(p, q)
    ensures Encode(p) <= Encode(q) <==> p == q
  {
    PathTotal(p, q);
    LessIrreflexive(Encode(p));
    if PathLess(p, q) { EncodedBefore(p, q); }
    if PathLess(q, p) { EncodedBefore(q, p); }
  }

  lemma EncodedBefore(p: Path, q: Path)
    requires Valid(p) && Valid(q) && PathLess(p, q)
    ensures Less(Encode(p), Encode(q)) && !Less(Encode(q), Encode(p))
    ensures !(Encode(p) <= Encode(q)) && !(Encode(q) <= Encode(p))
  {
    EncodeIsDelimited(p);
    EncodeIsDelimited(q);
    BodyOrder(p, q);
    BeforeAfterPrefix([DELIMITER], AfterDelimiter(p), AfterDelimiter(q));
    LessCases(Encode(p), Encode(q));
    BeforeIsNoPrefix(Encode(p), Encode(q));
    LessAsymmetric(Encode(p), Encode(q));
  }

  //
  // Subtrees
  //

  /** The key prefix of the subtree under `steps`. */
  function SubtreePrefix(steps: seq<Step>): Bytes {
    EncodeSteps(steps) + [DELIMITER]
  }

  /** What follows the first delimiter of a subtree prefix. */
  function SubtreeRest(root: seq<Step>): Bytes {
    if root == [] then [] else (StepBody(root[0]) + [DELIMITER]) + SubtreeRest(root[1..])
  }

  lemma {:induction false} SubtreePrefixIsDelimited(root: seq<Step>)
    ensures SubtreePrefix(root) == [DELIMITER] + SubtreeRest(root)
  {
    if root != [] {
      SubtreePrefixIsDelimited(root[1..]);
      assert SubtreePrefix(root) == [DELIMITER] + StepBody(root[0]) + SubtreePrefix(root[1..]);
    }
  }

  /** Delimited bodies of different steps, and terminators, are never one inside the other. */
  lemma DifferentBodies(r: Step, s: Step, x: Bytes, y: Bytes)
    requires ValidStep(r) && ValidStep(s) && r != s
    ensures !((StepBody(r) + [0]) + x <= (StepBody(s) + [0]) + y)
  {
    StepTotal(r, s);
    if StepLess(r, s) { StepBodyOrder(r, s); } else { StepBodyOrder(s, r); }
    NotAPrefix(StepBody(r) + [0], StepBody(s) + [0], x, y);
  }

  lemma BodyIsNoTail(r: Step, t: Terminator, x: Bytes)
    requires ValidStep(r)
    ensures !((StepBody(r) + [0]) + x <= TailBody(t))
  {
    StepAgainstTail(r, t);
    NotAPrefix(StepBody(r) + [0], TailBody(t), x, []);
    assert TailBody(t) + [] == TailBody(t);
  }

  lemma {:induction false} SubtreeRestIsPrefix(root: seq<Step>, p: Path)
    requires ValidSteps(root) && Valid(p)
    ensures SubtreeRest(root) <= AfterDelimiter(p) <==> root <= p.steps
    decreases |root|
  {
    if root != [] {
      var r, rest := root[0], SubtreeRest(root[1..]);
      if p.steps == [] {
        BodyIsNoTail(r, p.tail, rest);
      } else {
        var s, p' := p.steps[0], Path(p.steps[1..], p.tail);
        if s == r {
          SubtreeRestIsPrefix(root[1..], p');
          PrefixUnderPrefix(StepBody(r) + [0], rest, AfterDelimiter(p'));
          assert root == [r] + root[1..] && p.steps == [r] + p.steps[1..];
          PrefixUnderPrefix([r], root[1..], p.steps[1..]);
        } else {
          DifferentBodies(r, s, rest, AfterDelimiter(p'));
        }
      }
    }
  }

  /**
    * A key starts with the prefix of a subtree exactly when its path runs through the root of that subtree,
    * although indices may hold 0 bytes of their own.
    */
  lemma SubtreeIsPrefix(root: seq<Step>, p: Path)
    requires ValidSteps(root) && Valid(p)
    ensures SubtreePrefix(root) <= Encode(p) <==> root <= p.steps
  {
    EncodeIsDelimited(p);
    SubtreePrefixIsDelimited(root);
    SubtreeRestIsPrefix(root, p);
    PrefixUnderPrefix([DELIMITER], SubtreeRest(root), AfterDelimiter(p));
  }

  lemma NotAPrefix(a: Bytes, b: Bytes, x: Bytes, y: Bytes)
    requires Before(a, b) || Before(b, a)
    ensures !(a + x <= b + y)
  {
    if Before(a, b) {
      BeforeExtends(a, b, x, y);
      BeforeIsNoPrefix(a + x, b + y);
    } else {
      BeforeExtends(b, a, y, x);
      BeforeIsNoPrefix(b + y, a + x);
    }
  }
}
