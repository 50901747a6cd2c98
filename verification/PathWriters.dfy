/** Writing a path (src/path/write.rs) and the length limit it keeps account of. */
module PathWriters {
  import opened ByteStrings
  import opened Paths
  import opened PathReaders
  import VarInts
  import FractionalIndices

  const MAX_PATH: nat := 32767

  /** A push onto the end of a path; an index is pushed as the bytes it is made of. */
  datatype Push = PushField(name: Bytes) | PushIndex(bytes: Bytes)

  /** The buffer and the account of the bytes written to it. */
  datatype Buffer = Buffer(bytes: Bytes, written: nat)

  /** What a push does, or why it is refused. An index counts without its delimiter, but is checked with it. */
  function Pushed(b: Buffer, p: Push): Result<Buffer, PathError> {
    match p
    case PushField(name) =>
      if !ValidField(name) then Err(InvalidField)
      else if b.written + 1 + |name| > MAX_PATH then Err(TooLong)
      else Ok(Buffer(b.bytes + [DELIMITER] + name, b.written + 1 + |name|))
    case PushIndex(bytes) =>
      if b.written + 1 + |bytes| > MAX_PATH then Err(TooLong)
      else Ok(Buffer(b.bytes + [DELIMITER] + bytes, b.written + |bytes|))
  }

  /** What finalizing as chunked content gives; the check leaves out the length byte of the varint. */
  function FinishedChunked(b: Buffer, end: nat): Result<Bytes, PathError> {
    if b.written + 2 + Size(end) > MAX_PATH then Err(TooLong)
    else Ok(b.bytes + ([DELIMITER] + TailBody(Chunked(end))))
  }

  method IsValidField(name: Bytes) returns (ok: bool)
    ensures ok == ValidField(name)
  {
    for i := 0 to |name|
      invariant ValidField(name[..i])
    {
      if name[i] < 32 {
        return false;
      }
    }
    assert name[..|name|] == name;
    ok := true;
  }

  class PathWriter {
    var writer: Bytes
    var written: nat

    ghost function State(): Buffer
      reads this
    {
      Buffer(writer, written)
    }

    constructor (writer: Bytes, written: nat)
      ensures State() == Buffer(writer, written)
    {
      this.writer, this.written := writer, written;
    }

    predicate HasCapacity(additional: nat)
      reads this
    {
      written + additional <= MAX_PATH
    }

    method PushField(name: Bytes) returns (r: Result<(), PathError>)
      modifies this
      ensures match Pushed(old(State()), Push.PushField(name))
              case Ok(b) => r == Ok(()) && State() == b
              case Err(e) => r == Err(e) && State() == old(State())
    {
      var ok := IsValidField(name);
      if !ok {
        return Err(InvalidField);
      }
      var len := 1 + |name|;
      if !HasCapacity(len) {
        return Err(TooLong);
      }
      writer := writer + [DELIMITER];
      writer := writer + name;
      written := written + len;
      r := Ok(());
    }

    method PushIndex(index: Bytes) returns (r: Result<(), PathError>)
      modifies this
      ensures match Pushed(old(State()), Push.PushIndex(index))
              case Ok(b) => r == Ok(()) && State() == b
              case Err(e) => r == Err(e) && State() == old(State())
    {
      var len := |index|;
      if !HasCapacity(1 + len) {
        return Err(TooLong);
      }
      writer := writer + [DELIMITER];
      writer := writer + index;
      written := written + len;
      r := Ok(());
    }

    /** Consumes the writer, like the other two finalizers. */
    method LwwChunked(end: nat) returns (r: Result<Bytes, PathError>)
      requires Size(end) <= 8
      ensures r == FinishedChunked(State(), end)
    {
      hide VarInts.Remaining, VarInts.Encode, Size, BE;
      var be := BE(end, 8);
      var zeros := 0;
      VarInts.NothingStripped(end, 8);
      while zeros < 8 && be[zeros] == 0
        invariant 0 <= zeros <= 8
        invariant VarInts.Remaining(be[zeros..], end, 8 - zeros)
      {
        VarInts.StripZeroAt(be, zeros, end);
        zeros := zeros + 1;
      }
      VarInts.RemainingSize(be[zeros..], end, 8 - zeros);
      if zeros < 8 { VarInts.StripZeroAt(be, zeros, end); }
      if !HasCapacity(2 + (8 - zeros)) {
        return Err(TooLong);
      }
      var out := writer + [DELIMITER, TERMINATOR_CHUNKED];
      var n := VarInts.Write(end, 8);
      assert out + n == writer + ([DELIMITER] + TailBody(Chunked(end)));
      r := Ok(out + n);
    }

    method Lww() returns (out: Bytes)
      ensures out == writer + ([DELIMITER] + TailBody(Terminator.Lww))
    {
      out := writer + [DELIMITER, TERMINATOR_LWW];
    }

    method Counter(pid: FractionalIndices.Pid) returns (out: Bytes)
      ensures out == writer + ([DELIMITER] + TailBody(Terminator.Counter(pid)))
    {
      out := writer + [DELIMITER, TERMINATOR_COUNTER];
      out := out + BE(pid, 4);
    }
  }

  //
  // Whole paths
  //

  function StepPush(s: Step): Push {
    match s
    case Name(f) => Push.PushField(f)
    case Position(index) => Push.PushIndex(FractionalIndices.Encode(index))
  }

  /** A run of pushes, stopped by the first refusal. */
  function PushedAll(b: Buffer, pushes: seq<Push>): Result<Buffer, PathError>
    decreases |pushes|
  {
    if pushes == [] then Ok(b)
    else
      match Pushed(b, pushes[0])
      case Err(e) => Err(e)
      case Ok(b') => PushedAll(b', pushes[1..])
  }

  function StepPushes(steps: seq<Step>): seq<Push> {
    if steps == [] then [] else [StepPush(steps[0])] + StepPushes(steps[1..])
  }

  lemma PushOfStep(s: Step, b: Buffer)
    requires ValidStep(s)
    ensures
      var r := Pushed(b, StepPush(s));
      if b.written + 1 + |StepBody(s)| > MAX_PATH then r == Err(TooLong)
      else
        && r.Ok? && r.value.bytes == b.bytes + ([DELIMITER] + StepBody(s))
        && r.value.written <= b.written + 1 + |StepBody(s)|
  {
    assert b.bytes + [DELIMITER] + StepBody(s) == b.bytes + ([DELIMITER] + StepBody(s));
  }

  /** Pushing the steps of a path one by one writes its encoding, when the limit allows. */
  lemma {:induction false} PushesEncode(steps: seq<Step>, b: Buffer)
    requires ValidSteps(steps)
    ensures var r := PushedAll(b, StepPushes(steps)); r.Ok? ==> r.value.bytes == b.bytes + EncodeSteps(steps)
    ensures b.written + |EncodeSteps(steps)| <= MAX_PATH ==> PushedAll(b, StepPushes(steps)).Ok?
    decreases |steps|
  {
    hide Pushed, StepPush, StepBody, ValidStep;
    if steps != [] {
      PushOfStep(steps[0], b);
      assert StepPushes(steps)[1..] == StepPushes(steps[1..]);
      var r := Pushed(b, StepPush(steps[0]));
      if r.Ok? {
        PushesEncode(steps[1..], r.value);
        var head, tail := [DELIMITER] + StepBody(steps[0]), EncodeSteps(steps[1..]);
        assert EncodeSteps(steps) == head + tail;
        assert PushedAll(b, StepPushes(steps)) == PushedAll(r.value, StepPushes(steps[1..]));
        Assoc(b.bytes, head, tail);
      }
    }
  }

  function IndexPushes(pushes: seq<Push>): nat {
    if pushes == [] then 0 else (if pushes[0].PushIndex? then 1 else 0) + IndexPushes(pushes[1..])
  }

  lemma {:induction false} Account(b: Buffer, pushes: seq<Push>)
    requires PushedAll(b, pushes).Ok?
    ensures
      var r := PushedAll(b, pushes).value;
      |r.bytes| - |b.bytes| == r.written - b.written + IndexPushes(pushes)
    decreases |pushes|
  {
    if pushes != [] { Account(Pushed(b, pushes[0]).value, pushes[1..]); }
  }

  /** Why a push is refused, after any pushes, in terms of the bytes of the path. */
  lemma WhyRefused(pushes: seq<Push>, p: Push)
    requires PushedAll(Buffer([], 0), pushes).Ok?
    ensures
      var b := PushedAll(Buffer([], 0), pushes).value;
      var counted := |b.bytes| - IndexPushes(pushes);
      match p
      case PushField(name) =>
        && (Pushed(b, p) == Err(InvalidField) <==> exists i :: 0 <= i < |name| && name[i] < 32)
        && (Pushed(b, p) == Err(TooLong) <==>
              (forall i :: 0 <= i < |name| ==> name[i] >= 32) && counted + 1 + |name| > 32767)
        && (Pushed(b, p).Err? ==> Pushed(b, p).error in {InvalidField, TooLong})
      case PushIndex(bytes) =>
        && (Pushed(b, p) == Err(TooLong) <==> counted + 1 + |bytes| > 32767)
        && (Pushed(b, p).Err? ==> Pushed(b, p).error == TooLong)
  {
    Account(Buffer([], 0), pushes);
  }

  /**
    * `written` falls short of the buffer by one byte for each index pushed, and no finalizer counts all of its
    * terminator: a finalized path keeps the documented limit exactly when the account, those bytes and the
    * delimited terminator fit together.
    */
  lemma LimitKept(pushes: seq<Push>, t: Terminator)
    requires PushedAll(Buffer([], 0), pushes).Ok?
    ensures
      var b := PushedAll(Buffer([], 0), pushes).value;
      |b.bytes + ([DELIMITER] + TailBody(t))| <= MAX_PATH
      <==> b.written + IndexPushes(pushes) + 1 + |TailBody(t)| <= MAX_PATH
  {
    Account(Buffer([], 0), pushes);
  }

  /** The one finalizer that checks the limit lets a path through that is a byte too long. */
  lemma ChunkedLimitBroken(name: Bytes, end: nat)
    requires ValidField(name) && Size(end) <= 8 && |name| == MAX_PATH - 3 - Size(end)
    ensures
      var b := Pushed(Buffer([], 0), Push.PushField(name));
      && b.Ok? && FinishedChunked(b.value, end).Ok?
      && |FinishedChunked(b.value, end).value| == MAX_PATH + 1
  {
  }

  /**
    * Finalizing as chunked content is refused exactly when the path would be more than one byte, and one more for each
    * index, past the limit.
    */
  lemma ChunkedIff(pushes: seq<Push>, end: nat)
    requires PushedAll(Buffer([], 0), pushes).Ok? && Size(end) <= 8
    ensures
      var b := PushedAll(Buffer([], 0), pushes).value;
      var path := b.bytes + ([DELIMITER] + TailBody(Chunked(end)));
      FinishedChunked(b, end) == if |path| <= MAX_PATH + 1 + IndexPushes(pushes) then Ok(path) else Err(TooLong)
  {
    Account(Buffer([], 0), pushes);
  }

  /** A single long field is accepted, and finalizing it gives a key beyond the limit and beyond 2^15. */
  lemma LimitBroken(name: Bytes)
    requires ValidField(name) && |name| == MAX_PATH - 1
    ensures
      var r := Pushed(Buffer([], 0), Push.PushField(name));
      r.Ok? && |r.value.bytes + ([DELIMITER] + TailBody(Terminator.Lww))| == MAX_PATH + 2 > 0x8000
  {
  }
}
