/**
  * The store as a state machine: one writer that holds the lock, any number of readers, and a crash at any
  * point (src/db.rs, src/transaction.rs, src/wal/mod.rs). Appends to files take place byte by byte.
  */
module Store {
  import opened ByteStrings
  import opened Entries
  import opened SstFormat
  import opened SstReaders
  import opened Wals
  import opened Recovery
  import Hlc

  /** Hash functions and the flush threshold. */
  datatype Config = Config(h: Hashes, crc: Checksum, threshold: nat)

  /**
    * Where the writer is. `base` is the list of tables captured when the transaction began, `puts` what it
    * has written so far. A record being appended to the log is in `pending` of the state.
    */
  datatype Phase =
    | Down
    | Loaded(recovered: ReadableState)
    | Idle
    | Writing(fork: seq<Entry>, base: seq<Table>, puts: Map)
    | Committed(fork: seq<Entry>, base: seq<Table>, puts: Map)
    | Published(fork: seq<Entry>, base: seq<Table>)
    | Flushing(fork: seq<Entry>, base: seq<Table>, ts: nat, written: nat)
    | Renamed(base: seq<Table>, ts: nat)
    | Swapped

  /** A reader: the state it captured, and how many commits that state includes. */
  datatype Snapshot = Snapshot(state: ReadableState, commits: nat)

  datatype State = State(
    disk: Disk, phase: Phase, mem: ReadableState, readers: map<nat, Snapshot>,
    lastCommitPos: nat, counter: nat,
    // What the log file is made of: whole records, then the first bytes of a pending one.
    records: seq<WalRecord>, pending: Option<WalRecord>, torn: Bytes,
    // What was committed; its part that is neither in a table nor in the log; the maps since opening, one a
    // commit; and the table files found when opening.
    durable: Map, unlogged: Map, history: seq<Map>, found: set<nat>)

  /**
    * `RaiseClock` stands for any other use of the clock that all timestamps are taken from, also before opening:
    * a process that opens the store again keeps its counter.
    */
  datatype Action =
    | Begin
    | Put(key: Bytes, value: Bytes)
    | Commit(millis: nat)
    | WalWrite(n: nat)
    | Abort
    | Publish
    | Decide(clock: nat)
    | TmpWrite(count: nat)
    | Rename
    | Swap
    | ResetWal
    | BeginReadonly(reader: nat)
    | EndReadonly(leaver: nat)
    | RaiseClock(timestamp: nat)
    | Crash
    | CleanTmp(name: nat)
    | Load
    | TruncateWal

  predicate Up(s: State) { !s.phase.Down? && !s.phase.Loaded? }

  function PendingBytes(c: Config, s: State): Bytes
    requires s.pending.Some?
  {
    EncodeRecord(c.crc, RollAfter(c.crc, 0, s.records), s.pending.value)
  }

  //
  // Transitions
  //

  function PutStarted(s: State, r: WalRecord, counter: nat): State {
    s.(pending := Some(r), counter := counter)
  }

  /** More bytes of the pending record reach the log file. */
  function Torn(c: Config, s: State, m: nat): State
    requires s.pending.Some? && |s.torn| <= m <= |PendingBytes(c, s)|
  {
    s.(disk := s.disk.(wal := s.disk.wal + PendingBytes(c, s)[|s.torn|..m]), torn := PendingBytes(c, s)[..m])
  }

  /** The pending record is whole: an update goes to the fork next, a commit record makes the transaction durable. */
  function RecordDone(c: Config, s: State): State
    requires s.phase.Writing? && s.pending.Some? && |s.torn| <= |PendingBytes(c, s)|
  {
    var r := s.pending.value;
    var wal := s.disk.wal + PendingBytes(c, s)[|s.torn|..];
    var s1 := s.(disk := s.disk.(wal := wal), records := s.records + [r], torn := [], pending := None);
    if r.timestamp.Some? then
      s1.(phase := Committed(s.phase.fork, s.phase.base, s.phase.puts),
          lastCommitPos := |wal|, durable := s.durable + s.phase.puts)
    else
      s1.(phase := Writing(Insert(s.phase.fork, r.key, r.value), s.phase.base, s.phase.puts[r.key := r.value]))
  }

  function Aborted(s: State): State
    requires s.lastCommitPos <= |s.disk.wal|
  {
    s.(disk := s.disk.(wal := s.disk.wal[..s.lastCommitPos]), phase := Idle,
       records := s.records[..Wals.Committed(s.records)])
  }

  function Publishing(s: State): State
    requires s.phase.Committed?
  {
    s.(mem := ReadableState(s.phase.fork, s.phase.base), phase := Published(s.phase.fork, s.phase.base),
       history := s.history + [s.durable])
  }

  function FlushStarted(s: State, ts: nat): State
    requires s.phase.Published?
  {
    s.(disk := s.disk.(tmps := s.disk.tmps[ts := []]), counter := ts,
       phase := Flushing(s.phase.fork, s.phase.base, ts, 0))
  }

  function FlushedFile(c: Config, s: State): Bytes
    requires s.phase.Flushing?
  {
    FileBytes(c.h, s.phase.fork, s.phase.ts, s.phase.ts)
  }

  function TmpWritten(c: Config, s: State, m: nat): State
    requires s.phase.Flushing? && m <= |FlushedFile(c, s)|
  {
    s.(disk := s.disk.(tmps := s.disk.tmps[s.phase.ts := FlushedFile(c, s)[..m]]), phase := s.phase.(written := m))
  }

  function RenameDone(s: State): State
    requires s.phase.Flushing? && s.phase.ts in s.disk.tmps
  {
    var ts := s.phase.ts;
    s.(disk := s.disk.(tmps := s.disk.tmps - {ts}, ssts := s.disk.ssts[ts := s.disk.tmps[ts]]),
       phase := Renamed(s.phase.base, ts), unlogged := map[])
  }

  function SwapDone(s: State): State
    requires s.phase.Renamed? && s.phase.ts in s.disk.ssts
  {
    s.(mem := ReadableState([], [Table(s.phase.ts, s.disk.ssts[s.phase.ts])] + s.phase.base), phase := Swapped)
  }

  function ResetDone(s: State): State {
    s.(disk := s.disk.(wal := []), records := [], lastCommitPos := 0, phase := Idle)
  }

  /** Memory is gone; what is durable from here on is what the files hold. */
  ghost function Crashed(c: Config, s: State): State {
    s.(phase := Down, mem := ReadableState([], []), readers := map[], counter := 0, lastCommitPos := 0,
       durable := View(Recovered(c.crc, s.disk)), unlogged := map[], history := [], found := {})
  }

  function OpenDone(s: State): State
    requires s.phase.Loaded?
  {
    s.(disk := s.disk.(wal := []), records := [], pending := None, torn := [], phase := Idle,
       mem := s.phase.recovered, readers := map[], lastCommitPos := 0, unlogged := ToMap(s.phase.recovered.active),
       history := [s.durable],
       found := s.disk.ssts.Keys)
  }

  /** A flush at this time takes a name past those of the table files found at opening. */
  predicate PastFound(s: State, ts: nat) {
    forall n :: n in s.found ==> n < ts
  }

  /** One step of the code, or none when the action does not apply. */
  ghost function Move(c: Config, s: State, a: Action): Option<State> {
    match a
    case Begin =>
      if !s.phase.Idle? then None else Some(s.(phase := Writing(s.mem.active, s.mem.tables, map[])))
    case Put(k, v) =>
      if !s.phase.Writing? || s.pending.Some? || k == [] || |k| >= 0x8000 || |v| >= 0x1_0000 then None
      else Some(PutStarted(s, WalRecord(k, v, None), s.counter))
    case Commit(clock) =>
      var ts := Hlc.Tick(clock, s.counter);
      if !s.phase.Writing? || s.pending.Some? || Size(ts) > 8 then None
      else Some(PutStarted(s, WalRecord([], [], Some(ts)), ts))
    case WalWrite(n) =>
      if !s.phase.Writing? || s.pending.None? || n == 0 || |s.torn| + n > |PendingBytes(c, s)| then None
      else if |s.torn| + n < |PendingBytes(c, s)| then Some(Torn(c, s, |s.torn| + n))
      else Some(RecordDone(c, s))
    case Abort =>
      if !s.phase.Writing? || s.pending.Some? || s.lastCommitPos > |s.disk.wal| then None else Some(Aborted(s))
    case Publish =>
      if !s.phase.Committed? then None else Some(Publishing(s))
    case Decide(clock) =>
      if !s.phase.Published? then None
      else if Footprint(s.phase.fork) < c.threshold then Some(s.(phase := Idle))
      else
        var ts := Hlc.Tick(clock, s.counter);
        if !Addressable(c.h, s.phase.fork, ts, ts) then None else Some(FlushStarted(s, ts))
    case TmpWrite(n) =>
      if !s.phase.Flushing? || s.phase.written + n > |FlushedFile(c, s)| then None
      else Some(TmpWritten(c, s, s.phase.written + n))
    case Rename =>
      if !s.phase.Flushing? || s.phase.ts !in s.disk.tmps || s.phase.written != |FlushedFile(c, s)| then None
      else Some(RenameDone(s))
    case Swap =>
      if !s.phase.Renamed? || s.phase.ts !in s.disk.ssts then None else Some(SwapDone(s))
    case ResetWal =>
      if !s.phase.Swapped? then None else Some(ResetDone(s))
    case BeginReadonly(r) =>
      if !Up(s) || r in s.readers || s.history == [] then None
      else Some(s.(readers := s.readers[r := Snapshot(s.mem, |s.history| - 1)]))
    case EndReadonly(r) => if !Up(s) then None else Some(s.(readers := s.readers - {r}))
    case RaiseClock(ts) => if ts < s.counter then None else Some(s.(counter := ts))
    case Crash => Some(Crashed(c, s))
    case CleanTmp(name) =>
      if !s.phase.Down? then None else Some(s.(disk := s.disk.(tmps := s.disk.tmps - {name})))
    case Load =>
      if !s.phase.Down? || s.disk.tmps != map[] then None else Some(s.(phase := Loaded(Recovered(c.crc, s.disk))))
    case TruncateWal =>
      if !s.phase.Loaded? then None else Some(OpenDone(s))
  }

  /** A flush, if the action starts one, is past the table files found at opening. */
  predicate Timely(c: Config, s: State, a: Action) {
    a.Decide? && s.phase.Published? && Footprint(s.phase.fork) >= c.threshold
    ==> PastFound(s, Hlc.Tick(a.clock, s.counter))
  }

  /** A step with a clock that serves: what the invariant is kept by. */
  ghost function Step(c: Config, s: State, a: Action): Option<State> {
    if Timely(c, s, a) then Move(c, s, a) else None
  }

  /** An empty directory, before the first opening. */
  function Init(): State {
    State(Disk([], map[], map[]), Down, ReadableState([], []), map[], 0, 0, [], None, [], map[], map[], [], {})
  }

  //
  // Invariant
  //

  /** The log file is its whole records and a strict prefix of the pending one. */
  ghost predicate LogInv(c: Config, s: State) {
    && AllLoggable(s.records)
    && (s.pending.None? ==> s.torn == [])
    && (s.pending.Some? ==>
          && Loggable(s.pending.value)
          && |s.torn| < |PendingBytes(c, s)| && s.torn == PendingBytes(c, s)[..|s.torn|])
    && s.disk.wal == EncodeLog(c.crc, 0, s.records) + s.torn
  }

  /** What the table files hold, and what replaying the log gives. */
  ghost function Tables(s: State): Map { TablesMap(Listing(s.disk.ssts)) }

  function Logged(s: State): Map { RecordsMap(s.records[..Wals.Committed(s.records)]) }

  /** Everything committed is in a table, was recovered when opening, or is in the log. */
  ghost predicate DurableInv(s: State) {
    s.durable == Tables(s) + s.unlogged + Logged(s)
  }

  /** The MemTable of the published state between flushes. */
  ghost predicate MemInv(s: State) {
    Storable(s.mem.active) && ToMap(s.mem.active) == s.unlogged + Logged(s)
  }

  predicate AllCommitted(s: State) {
    Wals.Committed(s.records) == |s.records|
  }

  /** What the writer has in memory and in unfinished files; before opening, what the files hold. */
  ghost predicate PhaseInv(c: Config, s: State) {
    match s.phase
    case Down => s.unlogged == map[] && s.durable == Tables(s) + Logged(s)
    case Loaded(rs) => s.unlogged == map[] && s.durable == Tables(s) + Logged(s) && rs == Recovered(c.crc, s.disk)
    case Idle => MemInv(s) && s.pending == None && AllCommitted(s)
    case Writing(fork, base, puts) =>
      && MemInv(s) && base == s.mem.tables
      && Storable(fork) && ToMap(fork) == ToMap(s.mem.active) + puts
      && RecordsMap(s.records) == Logged(s) + puts
      && (s.pending.Some? ==> (s.pending.value.timestamp.None? <==> s.pending.value.key != []))
    case Committed(fork, base, puts) =>
      && s.pending == None && AllCommitted(s) && base == s.mem.tables
      && Storable(fork) && ToMap(fork) == ToMap(s.mem.active) + puts == s.unlogged + Logged(s)
    case Published(fork, base) =>
      MemInv(s) && s.pending == None && AllCommitted(s) && s.mem == ReadableState(fork, base)
    case Flushing(fork, base, ts, written) =>
      && MemInv(s) && s.pending == None && AllCommitted(s) && s.mem == ReadableState(fork, base)
      && Addressable(c.h, fork, ts, ts)
      && ts in s.disk.tmps && written <= |FileBytes(c.h, fork, ts, ts)|
      && s.disk.tmps[ts] == FileBytes(c.h, fork, ts, ts)[..written]
    case Renamed(base, ts) =>
      && s.pending == None && AllCommitted(s) && s.unlogged == map[]
      && s.mem.tables == base && ts in s.disk.ssts && Contents(s.disk.ssts[ts]) == s.mem.active
      && ToMap(s.mem.active) + Logged(s) == ToMap(s.mem.active)
    case Swapped =>
      && s.pending == None && AllCommitted(s) && s.unlogged == map[] && s.mem.active == []
      && TablesMap(s.mem.tables) + Logged(s) == TablesMap(s.mem.tables)
  }

  /**
    * The tables in memory are those opening would find, in its order, but for a renamed file that is not published
    * yet.
    */
  ghost predicate TablesInv(s: State) {
    match s.phase
    case Down => true
    case Loaded(_) => true
    case Flushing(_, _, ts, _) =>
      s.mem.tables == Listing(s.disk.ssts) && ts <= s.counter && forall n :: n in s.disk.ssts ==> n < ts
    case Renamed(base, ts) =>
      ts in s.disk.ssts && Listing(s.disk.ssts) == [Table(ts, s.disk.ssts[ts])] + base
    case _ => s.mem.tables == Listing(s.disk.ssts)
  }

  /** Each reader shows the map after the commits it includes. */
  ghost predicate ShowCommits(readers: map<nat, Snapshot>, history: seq<Map>) {
    forall r :: r in readers ==> readers[r].commits < |history| && View(readers[r].state) == history[readers[r].commits]
  }

  /** Readers and the published state show the maps of whole commits. */
  ghost predicate ViewInv(s: State) {
    Up(s) ==>
      && s.history != []
      && View(s.mem) == s.history[|s.history| - 1]
      && s.durable == (if s.phase.Committed? then View(s.mem) + s.phase.puts else View(s.mem))
      && ShowCommits(s.readers, s.history)
  }

  ghost predicate CommitPosInv(c: Config, s: State) {
    Up(s) ==>
      && s.lastCommitPos == |EncodeLog(c.crc, 0, s.records[..Wals.Committed(s.records)])|
      && s.lastCommitPos <= |s.disk.wal|
  }

  /** Table names are old, or not past the counter. */
  ghost predicate NamesInv(s: State) {
    Up(s) ==> forall n :: n in s.disk.ssts ==> n in s.found || n <= s.counter
  }

  /** What every move keeps, under whatever names the clock gives to table files. */
  ghost predicate Sound(c: Config, s: State) {
    LogInv(c, s) && PhaseInv(c, s) && ViewInv(s) && CommitPosInv(c, s)
  }

  /** What every step keeps: the directory, too, is what memory takes it for. */
  ghost predicate Inv(c: Config, s: State) {
    Sound(c, s) && TablesInv(s) && NamesInv(s)
  }

  //
  // Log
  //

  lemma OverlayAssoc(a: Map, b: Map, c: Map)
    ensures (a + b) + c == a + (b + c)
  {
  }

  /** Replay sees the committed records, however the log file ends. */
  lemma ReplaysCommitted(c: Config, s: State)
    requires LogInv(c, s)
    ensures Replay(c.crc, s.disk.wal) == s.records[..Wals.Committed(s.records)]
  {
    hide EncodeLog, EncodeRecord, Replay, Wals.Committed;
    if s.pending.Some? {
      ReplayTorn(c.crc, s.records, s.pending.value, |s.torn|);
    } else {
      assert s.disk.wal == EncodeLog(c.crc, 0, s.records);
      ReplayWhole(c.crc, s.records);
    }
  }

  /** What opening the files in this state would show. */
  lemma RecoveredView(c: Config, s: State)
    requires LogInv(c, s)
    ensures View(Recovered(c.crc, s.disk)) == Tables(s) + Logged(s)
    ensures Storable(Recovered(c.crc, s.disk).active) && ToMap(Recovered(c.crc, s.disk).active) == Logged(s)
  {
    ReplaysCommitted(c, s);
    var rs := s.records[..Wals.Committed(s.records)];
    assert Small(rs);
    FromRecordsMap(rs);
  }

  lemma AllCommittedIs(s: State)
    requires AllCommitted(s)
    ensures s.records[..Wals.Committed(s.records)] == s.records && Logged(s) == RecordsMap(s.records)
  {
  }

  //
  // Every move is sound
  //

  /** The log invariant is about the log file and its records only. */
  lemma LogInvFrame(c: Config, s: State, t: State)
    requires LogInv(c, s)
    requires t.records == s.records && t.pending == s.pending && t.torn == s.torn && t.disk.wal == s.disk.wal
    ensures LogInv(c, t) && Logged(t) == Logged(s)
  {
    hide EncodeLog, EncodeRecord, RollAfter, Wals.Committed, RecordsMap, AllLoggable;
  }

  /** The committed part of the log, and so its map and its end, are the same. */
  ghost predicate SameCommits(s: State, t: State) {
    && t.records[..Wals.Committed(t.records)] == s.records[..Wals.Committed(s.records)]
    && t.lastCommitPos == s.lastCommitPos
  }

  /** Nothing published, durable or in a table changed. */
  predicate SameData(s: State, t: State) {
    && t.mem == s.mem && t.readers == s.readers && t.history == s.history && t.durable == s.durable
    && t.unlogged == s.unlogged && t.disk.ssts == s.disk.ssts && t.found == s.found && s.counter <= t.counter
  }

  /** A step of the writer that publishes nothing. */
  lemma KeepsQuietly(c: Config, s: State, t: State)
    requires Sound(c, s) && Up(s) && Up(t) && !s.phase.Committed? && !t.phase.Committed?
    requires SameData(s, t) && SameCommits(s, t) && s.lastCommitPos <= |t.disk.wal|
    requires LogInv(c, t) && PhaseInv(c, t)
    ensures Sound(c, t)
  {
    hide LogInv, PhaseInv, EncodeLog, View, ShowCommits, Wals.Committed;
  }

  lemma BeginPhase(c: Config, s: State, t: State)
    requires PhaseInv(c, s) && s.phase.Idle? && t == s.(phase := Writing(s.mem.active, s.mem.tables, map[]))
    ensures PhaseInv(c, t)
  {
    AllCommittedIs(s);
    hide RecordsMap, ToMap, Storable, Listing, Wals.Committed, AllCommitted;
    var m := ToMap(s.mem.active);
    assert m + map[] == m;
    var l := RecordsMap(s.records);
    assert l + map[] == l;
    assert Logged(t) == Logged(s) == l;
    hide Logged;
  }

  lemma KeepsBegin(c: Config, s: State)
    requires Sound(c, s) && s.phase.Idle?
    ensures Sound(c, s.(phase := Writing(s.mem.active, s.mem.tables, map[])))
  {
    var t := s.(phase := Writing(s.mem.active, s.mem.tables, map[]));
    SoundParts(c, s);
    LogInvFrame(c, s, t);
    BeginPhase(c, s, t);
    hide LogInv, PhaseInv, Sound, ViewInv, EncodeLog, Wals.Committed;
    KeepsQuietly(c, s, t);
  }

  lemma SoundParts(c: Config, s: State)
    requires Sound(c, s)
    ensures LogInv(c, s) && PhaseInv(c, s) && ViewInv(s) && CommitPosInv(c, s)
  {
    hide LogInv, PhaseInv, ViewInv, CommitPosInv;
  }

  lemma PutLogged(c: Config, s: State, r: WalRecord, counter: nat)
    requires LogInv(c, s) && s.pending.None? && Loggable(r)
    ensures LogInv(c, PutStarted(s, r, counter))
  {
    LengthOf(c.crc, RollAfter(c.crc, 0, s.records), r);
    hide EncodeLog, EncodeRecord, RollAfter, AllLoggable;
    assert PendingBytes(c, PutStarted(s, r, counter))[..0] == [];
  }

  /** The phase invariant of a writer, from the parts that matter. */
  lemma WritingPhase(c: Config, s: State, t: State)
    requires PhaseInv(c, s) && s.phase.Writing? && t.phase == s.phase
    requires t.mem == s.mem && t.disk.ssts == s.disk.ssts && t.unlogged == s.unlogged && t.records == s.records
    requires t.pending.Some? ==> (t.pending.value.timestamp.None? <==> t.pending.value.key != [])
    ensures PhaseInv(c, t)
  {
    hide RecordsMap, ToMap, Storable, Listing, Wals.Committed;
    assert Logged(t) == Logged(s);
    hide Logged;
  }

  lemma KeepsPut(c: Config, s: State, r: WalRecord, counter: nat)
    requires Sound(c, s) && s.phase.Writing? && s.pending.None? && s.counter <= counter
    requires Loggable(r) && (r.timestamp.None? <==> r.key != [])
    ensures Sound(c, PutStarted(s, r, counter))
  {
    SoundParts(c, s);
    PutLogged(c, s, r, counter);
    var t := PutStarted(s, r, counter);
    hide LogInv, PhaseInv, Sound, ViewInv, EncodeLog, Wals.Committed, Loggable;
    WritingPhase(c, s, t);
    KeepsQuietly(c, s, t);
  }

  /** The bytes appended continue those already there. */
  lemma Continued(log: Bytes, bytes: Bytes, i: nat, j: nat)
    requires i <= j <= |bytes|
    ensures (log + bytes[..i]) + bytes[i..j] == log + bytes[..j]
    ensures j == |bytes| ==> (log + bytes[..i]) + bytes[i..] == log + bytes
  {
    assert bytes[..i] + bytes[i..j] == bytes[..j];
  }

  lemma TornLogged(c: Config, s: State, m: nat)
    requires LogInv(c, s) && s.pending.Some? && |s.torn| <= m < |PendingBytes(c, s)|
    ensures LogInv(c, Torn(c, s, m)) && |Torn(c, s, m).disk.wal| >= |s.disk.wal|
  {
    hide EncodeLog, EncodeRecord, RollAfter, AllLoggable;
    Continued(EncodeLog(c.crc, 0, s.records), PendingBytes(c, s), |s.torn|, m);
  }

  lemma KeepsTorn(c: Config, s: State, m: nat)
    requires Sound(c, s) && s.phase.Writing? && s.pending.Some? && |s.torn| <= m < |PendingBytes(c, s)|
    ensures Sound(c, Torn(c, s, m))
  {
    SoundParts(c, s);
    TornLogged(c, s, m);
    var t := Torn(c, s, m);
    assert s.pending.value.timestamp.None? <==> s.pending.value.key != [] by { hide MemInv, Storable; }
    hide LogInv, PhaseInv, Sound, ViewInv, EncodeLog, Wals.Committed, PendingBytes;
    WritingPhase(c, s, t);
    KeepsQuietly(c, s, t);
  }

  lemma LogGrown(crc: Checksum, rs: seq<WalRecord>, r: WalRecord, n: nat)
    requires n <= |EncodeRecord(crc, RollAfter(crc, 0, rs), r)|
    ensures
      var bytes := EncodeRecord(crc, RollAfter(crc, 0, rs), r);
      (EncodeLog(crc, 0, rs) + bytes[..n]) + bytes[n..] == EncodeLog(crc, 0, rs + [r])
  {
    Appending(crc, rs, r);
    hide *;
    var bytes := EncodeRecord(crc, RollAfter(crc, 0, rs), r);
    Continued(EncodeLog(crc, 0, rs), bytes, n, |bytes|);
  }

  /** The log once the pending record is whole. */
  lemma DoneLogged(c: Config, s: State)
    requires LogInv(c, s) && s.phase.Writing? && s.pending.Some?
    ensures
      var t := RecordDone(c, s);
      LogInv(c, t) && t.disk.wal == EncodeLog(c.crc, 0, t.records) && |t.disk.wal| >= |s.disk.wal|
  {
    hide EncodeLog, EncodeRecord, RollAfter, Insert;
    LogGrown(c.crc, s.records, s.pending.value, |s.torn|);
    assert RecordDone(c, s).disk.wal + [] == RecordDone(c, s).disk.wal;
  }

  lemma DoneRecords(c: Config, s: State)
    requires s.phase.Writing? && s.pending.Some? && |s.torn| <= |PendingBytes(c, s)|
    ensures
      var t, r := RecordDone(c, s), s.pending.value;
      && t.records[..Wals.Committed(t.records)]
         == (if r.timestamp.Some? then t.records else s.records[..Wals.Committed(s.records)])
      && RecordsMap(t.records) == (if r.key == [] then RecordsMap(s.records)
          else RecordsMap(s.records)[r.key := r.value])
  {
    Appending(c.crc, s.records, s.pending.value);
    RecordsMapSnoc(s.records, s.pending.value);
    hide EncodeLog, EncodeRecord, RollAfter, Wals.Committed, RecordsMap, Insert;
  }

  lemma PutDoneMaps(c: Config, s: State)
    requires PhaseInv(c, s) && s.phase.Writing? && s.pending.Some? && s.pending.value.timestamp.None?
    requires |s.torn| <= |PendingBytes(c, s)| && Loggable(s.pending.value)
    ensures
      var t, r := RecordDone(c, s), s.pending.value;
      && Storable(t.phase.fork) && ToMap(t.phase.fork) == ToMap(s.mem.active) + t.phase.puts
      && RecordsMap(t.records) == Logged(s) + t.phase.puts
  {
    var r, puts := s.pending.value, s.phase.puts;
    DoneRecords(c, s);
    InsertStorable(s.phase.fork, r.key, r.value);
    UpdateOverlay(ToMap(s.mem.active), puts, r.key, r.value);
    UpdateOverlay(Logged(s), puts, r.key, r.value);
    hide EncodeRecord, Wals.Committed, RecordsMap, ToMap, Listing, Storable, Insert, PendingBytes, Logged, Size;
  }

  lemma PutDoneSame(c: Config, s: State)
    requires s.phase.Writing? && s.pending.Some? && s.pending.value.timestamp.None? && |s.torn| <= |PendingBytes(c, s)|
    ensures SameCommits(s, RecordDone(c, s)) && Logged(RecordDone(c, s)) == Logged(s)
  {
    hide Wals.Committed, RecordsMap, Insert, PendingBytes;
    DoneRecords(c, s);
  }

  lemma PutDonePhase(c: Config, s: State)
    requires PhaseInv(c, s) && s.phase.Writing? && s.pending.Some? && s.pending.value.timestamp.None?
    requires |s.torn| <= |PendingBytes(c, s)| && Loggable(s.pending.value)
    ensures PhaseInv(c, RecordDone(c, s)) && SameCommits(s, RecordDone(c, s))
  {
    hide Wals.Committed, RecordsMap, ToMap, Listing, Storable, Insert, PendingBytes, Loggable, Logged, SameCommits;
    PutDoneSame(c, s);
    PutDoneMaps(c, s);
  }

  lemma PendingLoggable(c: Config, s: State)
    requires LogInv(c, s) && s.pending.Some?
    ensures Loggable(s.pending.value) && |s.torn| <= |PendingBytes(c, s)|
  {
    hide Loggable, AllLoggable, EncodeLog, PendingBytes;
  }

  lemma KeepsPutDone(c: Config, s: State)
    requires Sound(c, s) && s.phase.Writing? && s.pending.Some? && s.pending.value.timestamp.None?
    ensures Sound(c, RecordDone(c, s))
  {
    hide LogInv, PhaseInv, Sound, ViewInv, EncodeLog, Wals.Committed, PendingBytes, SameCommits,
      RecordsMap, Insert, Loggable;
    SoundParts(c, s);
    PendingLoggable(c, s);
    DoneLogged(c, s);
    PutDonePhase(c, s);
    KeepsQuietly(c, s, RecordDone(c, s));
  }

  lemma CommitDoneMaps(c: Config, s: State)
    requires LogInv(c, s) && PhaseInv(c, s) && s.phase.Writing? && s.pending.Some?
    requires s.pending.value.timestamp.Some?
    ensures
      var t, puts := RecordDone(c, s), s.phase.puts;
      && Logged(t) == Logged(s) + puts && AllCommitted(t)
      && s.unlogged + Logged(t) == ToMap(s.mem.active) + puts
  {
    var puts, t := s.phase.puts, RecordDone(c, s);
    DoneRecords(c, s);
    CommittedSnoc(s.records, s.pending.value);
    OverlayAssoc(s.unlogged, Logged(s), puts);
    hide EncodeLog, EncodeRecord, RollAfter, Wals.Committed, RecordsMap, ToMap, Storable, LogInv,
      PendingBytes;
    assert Logged(t) == Logged(s) + puts;
    hide Logged;
  }

  lemma CommitDonePhase(c: Config, s: State)
    requires LogInv(c, s) && PhaseInv(c, s) && s.phase.Writing? && s.pending.Some?
    requires s.pending.value.timestamp.Some?
    ensures PhaseInv(c, RecordDone(c, s))
  {
    CommitDoneMaps(c, s);
    hide LogInv, Logged, ToMap, Storable, AllCommitted, PendingBytes, RecordsMap;
  }

  lemma KeepsCommitDone(c: Config, s: State)
    requires Sound(c, s) && s.phase.Writing? && s.pending.Some? && s.pending.value.timestamp.Some?
    ensures Sound(c, RecordDone(c, s))
  {
    hide LogInv, PhaseInv, EncodeLog, Wals.Committed, PendingBytes, RecordsMap, Logged, Tables, ToMap, View,
      ShowCommits, AllCommitted, Loggable, Insert;
    SoundParts(c, s);
    PendingLoggable(c, s);
    DoneLogged(c, s);
    DoneRecords(c, s);
    CommitDoneMaps(c, s);
    CommitDonePhase(c, s);
  }

  /** The log up to its last commit. */
  lemma LogPrefix(crc: Checksum, done: seq<WalRecord>, rest: seq<WalRecord>)
    ensures EncodeLog(crc, 0, done) <= EncodeLog(crc, 0, done + rest)
  {
    hide *;
    EncodeLogConcat(crc, 0, done, rest);
  }

  lemma CommittedLog(crc: Checksum, rs: seq<WalRecord>)
    ensures EncodeLog(crc, 0, rs[..Wals.Committed(rs)]) <= EncodeLog(crc, 0, rs)
  {
    hide EncodeLog, Wals.Committed;
    var n := Wals.Committed(rs);
    assert rs[..n] + rs[n..] == rs;
    LogPrefix(crc, rs[..n], rs[n..]);
  }

  lemma AbortedFile(c: Config, s: State)
    requires LogInv(c, s) && CommitPosInv(c, s) && s.phase.Writing? && s.pending.None?
    ensures s.lastCommitPos <= |s.disk.wal|
    ensures Aborted(s).disk.wal == EncodeLog(c.crc, 0, s.records[..Wals.Committed(s.records)])
  {
    hide EncodeLog, EncodeRecord, RollAfter, Wals.Committed, AllLoggable, PendingBytes;
    CommittedLog(c.crc, s.records);
    assert s.disk.wal == EncodeLog(c.crc, 0, s.records);
  }

  lemma AbortLogged(c: Config, s: State)
    requires LogInv(c, s) && CommitPosInv(c, s) && s.phase.Writing? && s.pending.None?
    ensures s.lastCommitPos <= |s.disk.wal|
    ensures
      var t := Aborted(s);
      LogInv(c, t) && SameCommits(s, t) && AllCommitted(t) && |t.disk.wal| == s.lastCommitPos
  {
    AbortedFile(c, s);
    CommittedPrefix(s.records);
    assert AllLoggable(s.records[..Wals.Committed(s.records)]);
    hide EncodeLog, EncodeRecord, RollAfter, Wals.Committed, AllLoggable, CommitPosInv;
    assert Aborted(s).disk.wal + [] == Aborted(s).disk.wal;
  }

  lemma AbortPhase(c: Config, s: State)
    requires PhaseInv(c, s) && s.phase.Writing? && s.pending.None? && s.lastCommitPos <= |s.disk.wal|
    requires SameCommits(s, Aborted(s)) && AllCommitted(Aborted(s))
    ensures PhaseInv(c, Aborted(s))
  {
    hide RecordsMap, ToMap, Listing, Storable, Wals.Committed, AllCommitted;
    assert Logged(Aborted(s)) == Logged(s);
    hide Logged;
  }

  lemma KeepsAbort(c: Config, s: State)
    requires Sound(c, s) && s.phase.Writing? && s.pending.None? && s.lastCommitPos <= |s.disk.wal|
    ensures Sound(c, Aborted(s))
  {
    SoundParts(c, s);
    AbortLogged(c, s);
    AbortPhase(c, s);
    hide LogInv, PhaseInv, Sound, ViewInv, CommitPosInv, SameCommits, AllCommitted, Wals.Committed;
    KeepsQuietly(c, s, Aborted(s));
  }

  lemma PublishPhase(c: Config, s: State)
    requires PhaseInv(c, s) && s.phase.Committed?
    ensures PhaseInv(c, Publishing(s))
  {
    hide RecordsMap, ToMap, Listing, Storable, Wals.Committed;
    assert Logged(Publishing(s)) == Logged(s);
    hide Logged;
  }

  lemma PublishedView(c: Config, s: State)
    requires PhaseInv(c, s) && ViewInv(s) && s.phase.Committed?
    ensures View(Publishing(s).mem) == s.durable
  {
    OverlayAssoc(TablesMap(s.mem.tables), ToMap(s.mem.active), s.phase.puts);
    hide ToMap, TablesMap, Storable, Logged, AllCommitted, ShowCommits;
  }

  lemma MoreHistory(readers: map<nat, Snapshot>, history: seq<Map>, m: Map)
    requires ShowCommits(readers, history)
    ensures ShowCommits(readers, history + [m])
  {
    hide View;
  }

  lemma KeepsPublish(c: Config, s: State)
    requires Sound(c, s) && s.phase.Committed?
    ensures Sound(c, Publishing(s))
  {
    hide LogInv, PhaseInv, EncodeLog, Wals.Committed, Listing, TablesMap, RecordsMap, View, ShowCommits;
    SoundParts(c, s);
    LogInvFrame(c, s, Publishing(s));
    PublishPhase(c, s);
    PublishedView(c, s);
    if s.history != [] { MoreHistory(s.readers, s.history, s.durable); }
    assert Tables(Publishing(s)) == Tables(s) && Logged(Publishing(s)) == Logged(s);
    hide Tables, Logged;
  }

  /** Phases that carry the state published at the commit. */
  lemma PublishedPhase(c: Config, s: State, t: State)
    requires PhaseInv(c, s) && (s.phase.Published? || s.phase.Flushing?)
    requires t.phase.Idle? || t.phase.Flushing?
    requires SameDataBut(s, t)
    requires t.phase.Flushing? ==>
               && t.phase.fork == s.phase.fork && t.phase.base == s.phase.base
               && Addressable(c.h, t.phase.fork, t.phase.ts, t.phase.ts)
               && t.phase.ts in t.disk.tmps && t.phase.written <= |FlushedFile(c, t)|
               && t.disk.tmps[t.phase.ts] == FlushedFile(c, t)[..t.phase.written]
    ensures PhaseInv(c, t)
  {
    hide RecordsMap, ToMap, Listing, Storable, Wals.Committed, FileBytes, Addressable;
    assert Logged(t) == Logged(s);
    hide Logged;
  }

  predicate SameDataBut(s: State, t: State) {
    SameData(s, t) && t.records == s.records && t.pending == s.pending && t.torn == s.torn && t.disk.wal == s.disk.wal
    && t.lastCommitPos == s.lastCommitPos
  }

  lemma KeepsFlushing(c: Config, s: State, t: State)
    requires Sound(c, s) && (s.phase.Published? || s.phase.Flushing?) && Up(t) && !t.phase.Committed?
    requires SameDataBut(s, t) && PhaseInv(c, t)
    ensures Sound(c, t)
  {
    SoundParts(c, s);
    LogInvFrame(c, s, t);
    hide LogInv, PhaseInv, Sound, ViewInv, EncodeLog, Wals.Committed;
    KeepsQuietly(c, s, t);
  }

  lemma KeepsDecide(c: Config, s: State)
    requires Sound(c, s) && s.phase.Published?
    ensures Sound(c, s.(phase := Idle))
  {
    SoundParts(c, s);
    hide LogInv, PhaseInv, Sound, ViewInv, CommitPosInv;
    PublishedPhase(c, s, s.(phase := Idle));
    KeepsFlushing(c, s, s.(phase := Idle));
  }

  lemma KeepsFlushStart(c: Config, s: State, ts: nat)
    requires Sound(c, s) && s.phase.Published? && s.counter <= ts && Addressable(c.h, s.phase.fork, ts, ts)
    ensures Sound(c, FlushStarted(s, ts))
  {
    hide LogInv, PhaseInv, Sound, ViewInv, CommitPosInv, FlushedFile, Addressable;
    var t := FlushStarted(s, ts);
    SoundParts(c, s);
    assert FlushedFile(c, t)[..0] == [];
    PublishedPhase(c, s, t);
    KeepsFlushing(c, s, t);
  }

  /** What the phase invariant says of a flush. */
  lemma FlushingParts(c: Config, s: State)
    requires PhaseInv(c, s) && s.phase.Flushing?
    ensures MemInv(s) && s.pending == None && AllCommitted(s) && s.mem == ReadableState(s.phase.fork, s.phase.base)
    ensures Addressable(c.h, s.phase.fork, s.phase.ts, s.phase.ts)
    ensures s.phase.ts in s.disk.tmps && s.phase.written <= |FlushedFile(c, s)|
    ensures s.disk.tmps[s.phase.ts] == FlushedFile(c, s)[..s.phase.written]
  {
    hide MemInv, AllCommitted, FileBytes, Addressable;
  }

  lemma KeepsTmpWrite(c: Config, s: State, m: nat)
    requires Sound(c, s) && s.phase.Flushing? && m <= |FlushedFile(c, s)|
    ensures Sound(c, TmpWritten(c, s, m))
  {
    hide LogInv, Sound, ViewInv, CommitPosInv, PhaseInv, FileBytes, Addressable;
    SoundParts(c, s);
    FlushingParts(c, s);
    var t := TmpWritten(c, s, m);
    PublishedPhase(c, s, t);
    KeepsFlushing(c, s, t);
  }

  /** The renamed file holds the MemTable. */
  lemma RenamedContents(c: Config, s: State)
    requires PhaseInv(c, s) && s.phase.Flushing? && s.phase.written == |FlushedFile(c, s)|
    ensures s.phase.ts in s.disk.tmps && s.mem == ReadableState(s.phase.fork, s.phase.base)
    ensures RenameDone(s).disk.ssts == s.disk.ssts[s.phase.ts := FlushedFile(c, s)]
    ensures Contents(FlushedFile(c, s)) == s.phase.fork && ToMap(s.phase.fork) == s.unlogged + Logged(s)
  {
    hide PhaseInv, FileBytes, Contents, ToMap, Addressable, Logged, AllCommitted;
    FlushingParts(c, s);
    var file := FlushedFile(c, s);
    ContentsOfWritten(c.h, s.phase.fork, s.phase.ts, s.phase.ts);
    assert file[..|file|] == file;
  }

  lemma RenamePhase(c: Config, s: State)
    requires PhaseInv(c, s) && s.phase.Flushing? && s.phase.written == |FlushedFile(c, s)|
    ensures s.phase.ts in s.disk.tmps
    ensures PhaseInv(c, RenameDone(s)) && Logged(RenameDone(s)) == Logged(s)
  {
    hide PhaseInv, RecordsMap, Wals.Committed, FlushedFile, Addressable, Contents, MemInv, ToMap;
    RenamedContents(c, s);
    FlushingParts(c, s);
    OverlaidTwice(s.unlogged, Logged(s));
    IsRenamed(c, RenameDone(s));
  }

  lemma IsRenamed(c: Config, s: State)
    requires s.phase.Renamed? && s.pending == None && AllCommitted(s) && s.unlogged == map[]
    requires s.mem.tables == s.phase.base && s.phase.ts in s.disk.ssts
    requires Contents(s.disk.ssts[s.phase.ts]) == s.mem.active
    requires ToMap(s.mem.active) + Logged(s) == ToMap(s.mem.active)
    ensures PhaseInv(c, s)
  {
    hide AllCommitted, Contents, Logged, ToMap;
  }

  lemma OverlaidTwice(a: Map, b: Map)
    ensures (a + b) + b == a + b
  {
  }

  lemma IsIdle(c: Config, s: State)
    requires s.phase.Idle? && MemInv(s) && s.pending == None && AllCommitted(s)
    ensures PhaseInv(c, s)
  {
    hide MemInv, AllCommitted;
  }

  lemma KeepsRename(c: Config, s: State)
    requires Sound(c, s) && s.phase.Flushing? && s.phase.written == |FlushedFile(c, s)|
    ensures s.phase.ts in s.disk.tmps && Sound(c, RenameDone(s))
  {
    hide LogInv, PhaseInv, EncodeLog, Wals.Committed, View, ShowCommits, FileBytes, Addressable;
    SoundParts(c, s);
    RenamePhase(c, s);
    LogInvFrame(c, s, RenameDone(s));
  }

  lemma RenamedParts(c: Config, s: State)
    requires PhaseInv(c, s) && s.phase.Renamed?
    ensures s.pending == None && AllCommitted(s) && s.unlogged == map[]
    ensures s.mem.tables == s.phase.base && s.phase.ts in s.disk.ssts
    ensures Contents(s.disk.ssts[s.phase.ts]) == s.mem.active && ToMap(s.mem.active) + Logged(s) == ToMap(s.mem.active)
  {
    hide AllCommitted, Contents, Logged, ToMap;
  }

  /** The new table shows what the MemTable did. */
  lemma SwapPhase(c: Config, s: State)
    requires PhaseInv(c, s) && s.phase.Renamed?
    ensures s.phase.ts in s.disk.ssts
    ensures PhaseInv(c, SwapDone(s)) && View(SwapDone(s).mem) == View(s.mem)
  {
    hide PhaseInv, RecordsMap, TablesMap, Wals.Committed, Contents;
    RenamedParts(c, s);
    var t := Table(s.phase.ts, s.disk.ssts[s.phase.ts]);
    TablesCons(t, s.phase.base);
    assert ToMap([]) == map[];
    hide ToMap;
    var m := TablesMap(s.phase.base);
    OverlayAssoc(m, TableMap(t), Logged(s));
    NothingUnlogged(m + TableMap(t));
    assert Logged(SwapDone(s)) == Logged(s);
    hide Logged;
    IsSwapped(c, SwapDone(s));
  }

  lemma IsSwapped(c: Config, s: State)
    requires s.phase.Swapped? && s.pending == None && AllCommitted(s) && s.unlogged == map[] && s.mem.active == []
    requires TablesMap(s.mem.tables) + Logged(s) == TablesMap(s.mem.tables)
    ensures PhaseInv(c, s)
  {
    hide AllCommitted, Logged, TablesMap;
  }

  lemma TablesCons(t: Table, rest: seq<Table>)
    ensures TablesMap([t] + rest) == TablesMap(rest) + TableMap(t)
  {
    hide TableMap;
    assert ([t] + rest)[1..] == rest;
  }

  lemma KeepsSwap(c: Config, s: State)
    requires Sound(c, s) && s.phase.Renamed?
    ensures s.phase.ts in s.disk.ssts && Sound(c, SwapDone(s))
  {
    SoundParts(c, s);
    SwapPhase(c, s);
    LogInvFrame(c, s, SwapDone(s));
    hide LogInv, PhaseInv, EncodeLog, Wals.Committed, View, ShowCommits;
  }

  lemma NothingLogged(c: Config, t: State)
    requires t.records == [] && t.pending == None && t.torn == [] && t.disk.wal == []
    ensures LogInv(c, t) && Logged(t) == map[] && AllCommitted(t)
    ensures EncodeLog(c.crc, 0, t.records[..Wals.Committed(t.records)]) == []
  {
  }

  lemma NothingStored()
    ensures ToMap([]) == map[] && Storable([])
  {
  }

  /** What the phase invariant says after the swap. */
  lemma SwappedParts(c: Config, s: State)
    requires PhaseInv(c, s) && LogInv(c, s) && s.phase.Swapped?
    ensures s.pending == None && s.torn == [] && s.unlogged == map[] && s.mem.active == []
  {
    hide EncodeLog, EncodeRecord, RollAfter, AllCommitted, AllLoggable;
  }

  lemma ResetPhase(c: Config, s: State)
    requires s.unlogged == map[] && s.mem.active == [] && s.pending == None && s.torn == []
    ensures PhaseInv(c, ResetDone(s)) && LogInv(c, ResetDone(s))
  {
    NothingLogged(c, ResetDone(s));
    NothingStored();
    hide LogInv, Logged, ToMap, Storable, AllCommitted, Wals.Committed, EncodeLog;
    var m: Map := map[];
    assert m + m == m;
  }

  lemma KeepsReset(c: Config, s: State)
    requires Sound(c, s) && s.phase.Swapped?
    ensures Sound(c, ResetDone(s))
  {
    hide LogInv, PhaseInv, EncodeLog, Wals.Committed, View, ShowCommits;
    SoundParts(c, s);
    SwappedParts(c, s);
    ResetPhase(c, s);
    NothingLogged(c, ResetDone(s));
  }

  /** The phase invariant is not about readers, nor about the counter. */
  lemma AsidePhase(c: Config, s: State, t: State)
    requires PhaseInv(c, s) && t == s.(readers := t.readers, counter := t.counter)
    ensures PhaseInv(c, t)
  {
    hide RecordsMap, ToMap, Listing, TablesMap, Storable, FileBytes, Addressable, Contents, Wals.Committed, Recovered;
    assert Tables(t) == Tables(s) && Logged(t) == Logged(s);
    hide Tables, Logged;
  }

  lemma ReadersShow(readers: map<nat, Snapshot>, more: map<nat, Snapshot>, mem: ReadableState, history: seq<Map>)
    requires ShowCommits(readers, history) && history != [] && View(mem) == history[|history| - 1]
    requires forall r :: r in more ==>
               (r in readers && more[r] == readers[r]) || more[r] == Snapshot(mem, |history| - 1)
    ensures ShowCommits(more, history)
  {
    hide View;
  }

  lemma KeepsReaders(c: Config, s: State, readers: map<nat, Snapshot>)
    requires Sound(c, s) && Up(s)
    requires forall r :: r in readers ==>
               (r in s.readers && readers[r] == s.readers[r]) || readers[r] == Snapshot(s.mem, |s.history| - 1)
    ensures Sound(c, s.(readers := readers))
  {
    hide LogInv, PhaseInv, EncodeLog, Wals.Committed, View, ShowCommits;
    var t := s.(readers := readers);
    SoundParts(c, s);
    LogInvFrame(c, s, t);
    AsidePhase(c, s, t);
    ReadersShow(s.readers, readers, s.mem, s.history);
  }

  lemma KeepsClock(c: Config, s: State, counter: nat)
    requires Sound(c, s)
    ensures Sound(c, s.(counter := counter))
  {
    hide LogInv, PhaseInv, EncodeLog, Wals.Committed, View, ShowCommits;
    SoundParts(c, s);
    LogInvFrame(c, s, s.(counter := counter));
    AsidePhase(c, s, s.(counter := counter));
  }

  /** A crash restores the whole invariant, whatever went before. */
  lemma CrashRestores(c: Config, s: State)
    requires LogInv(c, s)
    ensures Inv(c, Crashed(c, s))
  {
    hide LogInv, Logged, View, Recovered, Tables, Storable, ToMap;
    RecoveredView(c, s);
    var t := Crashed(c, s);
    LogInvFrame(c, s, t);
    assert Tables(t) == Tables(s) by { SameTables(s, t); }
  }

  lemma SameTables(s: State, t: State)
    requires t.disk.ssts == s.disk.ssts
    ensures Tables(t) == Tables(s)
  {
    hide Listing, TablesMap;
  }

  lemma KeepsDown(c: Config, s: State, t: State)
    requires Sound(c, s) && s.phase.Down?
    requires t == s.(disk := t.disk, phase := t.phase) && t.disk == s.disk.(tmps := t.disk.tmps)
    requires t.phase.Down? || (t.phase == Loaded(Recovered(c.crc, s.disk)) && t.disk == s.disk)
    ensures Sound(c, t)
  {
    SoundParts(c, s);
    LogInvFrame(c, s, t);
    hide LogInv, Listing, TablesMap, View, Recovered, Logged;
    assert Tables(t) == Tables(s);
    hide Tables;
  }

  lemma LoadedParts(c: Config, s: State)
    requires PhaseInv(c, s) && s.phase.Loaded?
    ensures s.unlogged == map[] && s.phase.recovered == Recovered(c.crc, s.disk) && s.durable == Tables(s) + Logged(s)
  {
    hide Recovered, Tables, Logged;
  }

  lemma OpenMaps(c: Config, s: State)
    requires LogInv(c, s) && PhaseInv(c, s) && s.phase.Loaded?
    ensures
      var t := OpenDone(s);
      Storable(t.mem.active) && t.mem.tables == Listing(t.disk.ssts) && View(t.mem) == s.durable
  {
    hide LogInv, PhaseInv, RecordsMap, ToMap, Listing, TablesMap, Storable, View, Logged, FromRecords, Replay, Tables;
    LoadedParts(c, s);
    RecoveredView(c, s);
  }

  lemma OpenPhase(c: Config, s: State)
    requires LogInv(c, s) && PhaseInv(c, s) && s.phase.Loaded?
    ensures PhaseInv(c, OpenDone(s)) && LogInv(c, OpenDone(s))
  {
    hide PhaseInv, LogInv, Logged, Listing, Storable, View, Tables, ToMap, AllCommitted, Wals.Committed, EncodeLog;
    hide Recovered;
    OpenMaps(c, s);
    NothingLogged(c, OpenDone(s));
    var m := OpenDone(s).unlogged;
    assert m + map[] == m;
    IsIdle(c, OpenDone(s));
  }

  lemma KeepsOpen(c: Config, s: State)
    requires Sound(c, s) && s.phase.Loaded?
    ensures Sound(c, OpenDone(s))
  {
    hide LogInv, PhaseInv, EncodeLog, Wals.Committed, View, Recovered, ToMap, Listing;
    SoundParts(c, s);
    OpenMaps(c, s);
    OpenPhase(c, s);
    NothingLogged(c, OpenDone(s));
  }

  /** Every move of the writer, of any reader, of opening and of crashing, whatever the clock. */
  lemma MoveKeepsSound(c: Config, s: State, a: Action, t: State)
    requires Sound(c, s) && Move(c, s, a) == Some(t)
    ensures Sound(c, t)
  {
    hide Sound, PutStarted, Torn, RecordDone, Aborted, Publishing, FlushStarted, TmpWritten, RenameDone, SwapDone,
      ResetDone, Crashed, OpenDone, FlushedFile, PendingBytes, Footprint, Addressable, Recovered;
    match a
    case Begin => KeepsBegin(c, s);
    case Put(k, v) => KeepsPut(c, s, WalRecord(k, v, None), s.counter);
    case Commit(clock) =>
      var ts := Hlc.Tick(clock, s.counter);
      KeepsPut(c, s, WalRecord([], [], Some(ts)), ts);
    case WalWrite(n) =>
      if |s.torn| + n < |PendingBytes(c, s)| { KeepsTorn(c, s, |s.torn| + n); }
      else if s.pending.value.timestamp.None? { KeepsPutDone(c, s); }
      else { KeepsCommitDone(c, s); }
    case Abort => KeepsAbort(c, s);
    case Publish => KeepsPublish(c, s);
    case Decide(clock) =>
      if Footprint(s.phase.fork) < c.threshold { KeepsDecide(c, s); }
      else { KeepsFlushStart(c, s, Hlc.Tick(clock, s.counter)); }
    case TmpWrite(n) => KeepsTmpWrite(c, s, s.phase.written + n);
    case Rename => KeepsRename(c, s);
    case Swap => KeepsSwap(c, s);
    case ResetWal => KeepsReset(c, s);
    case BeginReadonly(r) => KeepsReaders(c, s, s.readers[r := Snapshot(s.mem, |s.history| - 1)]);
    case EndReadonly(r) => KeepsReaders(c, s, s.readers - {r});
    case RaiseClock(ts) => KeepsClock(c, s, ts);
    case Crash => KeepsCrash(c, s);
    case CleanTmp(name) => KeepsDown(c, s, t);
    case Load => KeepsDown(c, s, t);
    case TruncateWal => KeepsOpen(c, s);
  }

  lemma KeepsCrash(c: Config, s: State)
    requires Sound(c, s)
    ensures Sound(c, Crashed(c, s))
  {
    hide LogInv, PhaseInv, ViewInv, CommitPosInv, Crashed, TablesInv, NamesInv;
    CrashRestores(c, s);
  }

  //
  // A step keeps the tables in order
  //

  lemma Parts(c: Config, s: State)
    requires Inv(c, s)
    ensures Sound(c, s) && TablesInv(s) && NamesInv(s)
    ensures LogInv(c, s) && PhaseInv(c, s) && ViewInv(s) && CommitPosInv(c, s) && DurableInv(s)
  {
    hide LogInv, PhaseInv, ViewInv, CommitPosInv, TablesInv, NamesInv, DurableInv;
    AllDurable(c, s);
  }

  /** Everything committed is in a table, was recovered when opening, or is in the log. */
  lemma AllDurable(c: Config, s: State)
    requires PhaseInv(c, s) && ViewInv(s) && TablesInv(s)
    ensures DurableInv(s)
  {
    if Up(s) {
      HeldDurable(c, s);
      InOrder(c, s);
    } else {
      hide Tables, Logged, Recovered;
      NothingUnlogged(Tables(s));
    }
  }

  /** What memory holds apart from the log: the tables with what opening recovered, or a MemTable that is in a file. */
  ghost function Held(s: State): Map {
    if s.phase.Renamed? then View(s.mem) else TablesMap(s.mem.tables) + s.unlogged
  }

  /** What is committed is what memory holds, overlaid with the log. */
  lemma HeldDurable(c: Config, s: State)
    requires PhaseInv(c, s) && ViewInv(s) && Up(s)
    ensures s.durable == Held(s) + Logged(s)
  {
    hide RecordsMap, TablesMap, ToMap, Storable, Contents, FileBytes, Addressable, Wals.Committed, ShowCommits, Logged;
    hide AllCommitted;
    NothingStored();
    var m, a, l := TablesMap(s.mem.tables), ToMap(s.mem.active), Logged(s);
    OverlayAssoc(m, s.unlogged, l);
    OverlayAssoc(m, a, l);
    if s.phase.Committed? { OverlayAssoc(m, a, s.phase.puts); }
    NothingUnlogged(m);
  }

  /** In order, memory holds what the table files hold. */
  lemma InOrder(c: Config, s: State)
    requires PhaseInv(c, s) && TablesInv(s) && Up(s)
    ensures Held(s) == Tables(s) + s.unlogged
  {
    hide RecordsMap, Listing, TablesMap, ToMap, Storable, Contents, FileBytes, Addressable, Wals.Committed, Logged;
    hide AllCommitted;
    if s.phase.Renamed? {
      TablesCons(Table(s.phase.ts, s.disk.ssts[s.phase.ts]), s.phase.base);
      NothingUnlogged(Tables(s));
    }
  }

  lemma NothingUnlogged(m: Map)
    ensures m + map[] == m
  {
  }

  lemma NewestTime(s: State, clock: nat)
    requires NamesInv(s) && Up(s) && PastFound(s, Hlc.Tick(clock, s.counter))
    ensures s.counter < Hlc.Tick(clock, s.counter) && forall n :: n in s.disk.ssts ==> n < Hlc.Tick(clock, s.counter)
  {
  }

  lemma RenamedTables(c: Config, s: State)
    requires PhaseInv(c, s) && TablesInv(s) && s.phase.Flushing? && s.phase.written == |FlushedFile(c, s)|
    ensures s.phase.ts in s.disk.tmps && TablesInv(RenameDone(s))
  {
    hide PhaseInv, TablesInv, Listing, Contents, ToMap, Logged, FlushedFile;
    RenamedContents(c, s);
    FlushingTables(s);
    RecencyKept(s.disk.ssts, s.phase.ts, FlushedFile(c, s));
    AreRenamed(RenameDone(s));
  }

  lemma FlushingTables(s: State)
    requires TablesInv(s) && s.phase.Flushing?
    ensures s.mem.tables == Listing(s.disk.ssts) && s.phase.ts <= s.counter
    ensures forall n :: n in s.disk.ssts ==> n < s.phase.ts
  {
    hide Listing;
  }

  lemma AreRenamed(s: State)
    requires s.phase.Renamed? && s.phase.ts in s.disk.ssts
    requires Listing(s.disk.ssts) == [Table(s.phase.ts, s.disk.ssts[s.phase.ts])] + s.phase.base
    ensures TablesInv(s)
  {
    hide Listing;
  }

  /** Steps that leave the list of tables and their files alone. */
  lemma TablesStay(s: State, t: State)
    requires TablesInv(s) && Up(s) && Up(t) && OutOfFlush(s.phase) && OutOfFlush(t.phase)
    requires t.mem.tables == s.mem.tables && t.disk.ssts == s.disk.ssts
    ensures TablesInv(t)
  {
    hide Listing, Tables, Logged;
  }

  lemma AsideTables(s: State, t: State)
    requires TablesInv(s) && t == s.(readers := t.readers, counter := t.counter) && s.counter <= t.counter
    ensures TablesInv(t)
  {
    hide Listing, TablesMap, RecordsMap, Wals.Committed;
    assert Tables(t) == Tables(s) && Logged(t) == Logged(s);
    hide Tables, Logged;
  }

  lemma FlushTables(c: Config, s: State, a: Action, t: State)
    requires TablesInv(s) && NamesInv(s) && Step(c, s, a) == Some(t) && (a.Decide? || a.TmpWrite?)
    ensures TablesInv(t)
  {
    hide Listing, Tables, Logged, FlushedFile, Footprint, Addressable, Hlc.Tick, PastFound;
    if a.Decide? && t.phase.Flushing? { NewestTime(s, a.clock); }
  }

  lemma SwapTables(s: State)
    requires TablesInv(s) && s.phase.Renamed?
    ensures s.phase.ts in s.disk.ssts && TablesInv(SwapDone(s))
  {
    hide Listing;
  }

  lemma ResetTables(s: State)
    requires TablesInv(s) && s.phase.Swapped?
    ensures TablesInv(ResetDone(s))
  {
    hide Listing, Tables, Logged;
  }

  lemma OpenedTables(c: Config, s: State)
    requires PhaseInv(c, s) && s.phase.Loaded?
    ensures TablesInv(OpenDone(s))
  {
    hide Listing, Tables, Logged, ToMap, FromRecords, Replay;
    LoadedParts(c, s);
  }

  /** What the steps that are left do to the tables: nothing. */
  predicate KeepsTables(a: Action) {
    a.Begin? || a.Put? || a.Commit? || a.WalWrite? || a.Abort? || a.Publish?
  }

  predicate OutOfFlush(p: Phase) { !p.Flushing? && !p.Renamed? && !p.Swapped? }

  lemma CommittedBase(c: Config, s: State)
    requires PhaseInv(c, s) && s.phase.Committed?
    ensures s.phase.base == s.mem.tables
  {
    hide Storable, AllCommitted, Logged, ToMap;
  }

  lemma RecordTables(c: Config, s: State, n: nat, t: State)
    requires Move(c, s, WalWrite(n)) == Some(t)
    ensures Up(s) && Up(t) && OutOfFlush(s.phase) && OutOfFlush(t.phase)
    ensures t.mem.tables == s.mem.tables && t.disk.ssts == s.disk.ssts && t.found == s.found && t.counter == s.counter
  {
    hide PendingBytes, Insert;
  }

  lemma WriteTables(c: Config, s: State, a: Action, t: State)
    requires PhaseInv(c, s) && Step(c, s, a) == Some(t) && KeepsTables(a)
    ensures Up(s) && Up(t) && OutOfFlush(s.phase) && OutOfFlush(t.phase)
    ensures t.mem.tables == s.mem.tables && t.disk.ssts == s.disk.ssts && t.found == s.found && s.counter <= t.counter
  {
    hide PhaseInv, Footprint, Hlc.Tick, Insert, ToMap, Size, PendingBytes, RecordDone, Torn, Timely;
    if a.WalWrite? { RecordTables(c, s, a.n, t); }
    if a.Publish? { CommittedBase(c, s); }
    if a.Commit? { FirstCounter(s, a.millis); }
  }

  /** Names of new table files are those of the counter. */
  lemma StepKeepsNames(c: Config, s: State, a: Action, t: State)
    requires Inv(c, s) && Step(c, s, a) == Some(t)
    ensures NamesInv(t)
  {
    hide Inv, Sound, PhaseInv, TablesInv, NamesInv, DurableInv, LogInv, ViewInv, CommitPosInv, Move;
    Parts(c, s);
    if KeepsTables(a) {
      WriteTables(c, s, a, t);
      NamesStay(s, t);
    } else if a.Rename? {
      RenamedNames(c, s, t);
    } else {
      OtherNames(c, s, a, t);
    }
  }

  lemma NamesStay(s: State, t: State)
    requires NamesInv(s) && Up(s) && t.disk.ssts == s.disk.ssts && t.found == s.found && s.counter <= t.counter
    ensures NamesInv(t)
  {
  }

  lemma RenamedNames(c: Config, s: State, t: State)
    requires NamesInv(s) && TablesInv(s) && Move(c, s, Rename) == Some(t)
    ensures NamesInv(t)
  {
    hide FlushedFile, TablesInv;
    FlushingTables(s);
  }

  lemma OtherNames(c: Config, s: State, a: Action, t: State)
    requires NamesInv(s) && Move(c, s, a) == Some(t) && !KeepsTables(a) && !a.Rename?
    ensures NamesInv(t)
  {
    hide FlushedFile, Footprint, Hlc.Tick, View, Recovered, Addressable, ToMap;
    if a.Decide? { FirstCounter(s, a.clock); }
  }

  lemma FirstCounter(s: State, clock: nat)
    ensures s.counter <= Hlc.Tick(clock, s.counter)
  {
  }

  lemma StepKeepsTables(c: Config, s: State, a: Action, t: State)
    requires Inv(c, s) && Step(c, s, a) == Some(t)
    ensures TablesInv(t)
  {
    hide TablesInv, NamesInv, Sound, PutStarted, Torn, RecordDone, Aborted, Publishing, FlushStarted, TmpWritten,
      RenameDone, SwapDone, ResetDone, OpenDone, FlushedFile, PendingBytes, PastFound, Footprint, Addressable,
      Recovered, PhaseInv, View;
    Parts(c, s);
    match a
    case Decide(_) => FlushTables(c, s, a, t);
    case TmpWrite(_) => FlushTables(c, s, a, t);
    case Rename => RenamedTables(c, s);
    case Swap => SwapTables(s);
    case ResetWal => ResetTables(s);
    case BeginReadonly(_) => AsideTables(s, t);
    case EndReadonly(_) => AsideTables(s, t);
    case RaiseClock(_) => AsideTables(s, t);
    case Crash => BeforeOpening(t);
    case CleanTmp(_) => BeforeOpening(t);
    case Load => BeforeOpening(t);
    case TruncateWal => OpenedTables(c, s);
    case _ =>
      WriteTables(c, s, a, t);
      TablesStay(s, t);
  }

  lemma BeforeOpening(t: State)
    requires t.phase.Down? || t.phase.Loaded?
    ensures TablesInv(t)
  {
  }

  /** Every step of the writer, of any reader, of opening and of crashing keeps the invariant. */
  lemma StepKeepsInv(c: Config, s: State, a: Action, t: State)
    requires Inv(c, s) && Step(c, s, a) == Some(t)
    ensures Inv(c, t)
  {
    hide Sound, TablesInv, NamesInv, Move;
    MoveKeepsSound(c, s, a, t);
    StepKeepsTables(c, s, a, t);
    StepKeepsNames(c, s, a, t);
  }

  lemma InitInv(c: Config)
    ensures Inv(c, Init())
  {
    NothingLogged(c, Init());
    hide LogInv, Logged;
  }
}
