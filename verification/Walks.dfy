/** Paths through the state machine that the methods of the database take, and the files they leave. */
module Walks {
  import opened ByteStrings
  import opened Entries
  import opened SstFormat
  import opened SstReaders
  import opened Wals
  import opened Recovery
  import opened Store
  import opened Runs
  import opened Transactions
  import Hlc

  //
  // Files
  //

  /** The file opens, and its reader finds everything in it. */
  ghost predicate Opens(h: Hashes, file: Bytes) {
    CanOpen(file) && Opened(file).Ok? && Opened(file).value.mmap == file && Readable(h, Opened(file).value)
  }

  ghost predicate FilesOpen(h: Hashes, ssts: map<nat, Bytes>) {
    forall n :: n in ssts ==> Opens(h, ssts[n])
  }

  lemma WrittenOpens(h: Hashes, es: seq<Entry>, ts: nat)
    requires Sorted(es) && Bounded(es) && Addressable(h, es, ts, ts)
    ensures Opens(h, FileBytes(h, es, ts, ts)) && Contents(FileBytes(h, es, ts, ts)) == es
  {
    hide Reads, FileBytes, Contents, ParseIndex;
    OpensWritten(h, es, ts, ts);
    ContentsOfWritten(h, es, ts, ts);
  }

  /** The renamed file is the written one. */
  lemma RenamedFile(c: Config, s: State)
    requires PhaseInv(c, s) && s.phase.Flushing? && s.phase.written == |FlushedFile(c, s)|
    ensures s.phase.ts in s.disk.tmps && s.disk.tmps[s.phase.ts] == FlushedFile(c, s) && Storable(s.phase.fork)
    ensures Addressable(c.h, s.phase.fork, s.phase.ts, s.phase.ts)
  {
    hide PhaseInv, FlushedFile, Logged, AllCommitted, Storable, Addressable, ToMap;
    FlushingParts(c, s);
    var file := FlushedFile(c, s);
    assert file[..|file|] == file;
  }

  /** Table files appear by renaming only. */
  lemma TablesChange(c: Config, s: State, a: Action, t: State)
    requires Move(c, s, a) == Some(t)
    ensures if a.Rename? then s.phase.Flushing? && t == RenameDone(s) else t.disk.ssts == s.disk.ssts
    ensures a.Rename? ==> s.phase.written == |FlushedFile(c, s)|
  {
    hide FlushedFile, PendingBytes, Footprint, Hlc.Tick, View, Recovered, PastFound, Addressable, ToMap, Insert, Size;
    hide RecordDone, Torn;
    if a.WalWrite? { RecordTables(c, s, a.n, t); }
  }

  /** Every move keeps every table file readable. */
  lemma MoveKeepsFiles(c: Config, s: State, a: Action, t: State)
    requires Sound(c, s) && Move(c, s, a) == Some(t) && FilesOpen(c.h, s.disk.ssts)
    ensures FilesOpen(c.h, t.disk.ssts)
  {
    hide Sound, Move, PhaseInv, Opens, FlushedFile, Addressable;
    TablesChange(c, s, a, t);
    if a.Rename? {
      SoundParts(c, s);
      RenamedFile(c, s);
      FlushedOpens(c, s);
    }
  }

  lemma FlushedOpens(c: Config, s: State)
    requires s.phase.Flushing? && Storable(s.phase.fork) && Addressable(c.h, s.phase.fork, s.phase.ts, s.phase.ts)
    ensures Opens(c.h, FlushedFile(c, s))
  {
    hide Opens, Addressable, FileBytes;
    WrittenOpens(c.h, s.phase.fork, s.phase.ts);
  }

  lemma {:induction false} MovesKeepFiles(c: Config, s: State, actions: seq<Action>, t: State)
    requires Sound(c, s) && Moves(c, s, actions) == Some(t) && FilesOpen(c.h, s.disk.ssts)
    ensures Sound(c, t) && FilesOpen(c.h, t.disk.ssts)
    decreases |actions|
  {
    hide Sound, Move, FilesOpen;
    if actions != [] {
      var next := Move(c, s, actions[0]).value;
      MoveKeepsSound(c, s, actions[0], next);
      MoveKeepsFiles(c, s, actions[0], next);
      MovesKeepFiles(c, next, actions[1..], t);
    }
  }

  /** Readers opened on the files of the tables, in the same order. */
  ghost predicate OpenedOn(rs: seq<SSTableReader>, tables: seq<Table>) {
    |rs| == |tables| && forall i :: 0 <= i < |rs| ==> rs[i].mmap == tables[i].file
  }

  lemma {:induction false} ReadersOfTables(rs: seq<SSTableReader>, tables: seq<Table>)
    requires OpenedOn(rs, tables)
    ensures ReadersMap(rs) == TablesMap(tables)
  {
    hide Contents, ToMap;
    if rs != [] { ReadersOfTables(rs[1..], tables[1..]); }
  }

  //
  // Paths through the state machine
  //

  lemma RunOne(c: Config, s: State, a: Action, t: State)
    requires Step(c, s, a) == Some(t)
    ensures Run(c, s, [a]) == Some(t)
  {
    hide Step;
    assert [a][1..] == [];
  }

  lemma MovesOne(c: Config, s: State, a: Action, t: State)
    requires Move(c, s, a) == Some(t)
    ensures Moves(c, s, [a]) == Some(t)
  {
    hide Move;
    assert [a][1..] == [];
  }

  /** All bytes of a record reach the log, one write or many. */
  ghost function Recorded(c: Config, s: State, r: WalRecord, counter: nat): State
    requires s.phase.Writing? && |s.torn| == 0
  {
    RecordDone(c, PutStarted(s, r, counter))
  }

  lemma RecordPath(c: Config, s: State, a: Action, r: WalRecord, counter: nat) returns (actions: seq<Action>)
    requires Sound(c, s) && s.phase.Writing? && s.pending.None? && s.torn == [] && Loggable(r)
    requires Step(c, s, a) == Some(PutStarted(s, r, counter))
    ensures Run(c, s, actions) == Some(Recorded(c, s, r, counter))
    ensures actions == [a, WalWrite(RecordLength(r))]
    ensures Recorded(c, s, r, counter).disk.wal == EncodeLog(c.crc, 0, s.records + [r])
  {
    hide Sound, LogInv, PhaseInv, ViewInv, CommitPosInv, EncodeRecord, EncodeLog, RollAfter, Insert, Run, RecordDone;
    hide Loggable, Torn;
    var s1 := PutStarted(s, r, counter);
    var t := Recorded(c, s, r, counter);
    SoundParts(c, s);
    MoveKeepsSound(c, s, a, s1);
    SoundParts(c, s1);
    LengthOf(c.crc, RollAfter(c.crc, 0, s.records), r);
    DoneLogged(c, s1);
    assert t.records == s.records + [r] by { DoneAppends(c, s1); }
    RunOne(c, s1, WalWrite(RecordLength(r)), t);
    RunCons(c, s, a, s1, [WalWrite(RecordLength(r))], t);
    actions := [a, WalWrite(RecordLength(r))];
    assert [a] + [WalWrite(RecordLength(r))] == actions;
  }

  lemma DoneAppends(c: Config, s: State)
    requires s.phase.Writing? && s.pending.Some? && |s.torn| <= |PendingBytes(c, s)|
    ensures RecordDone(c, s).records == s.records + [s.pending.value]
  {
    hide PendingBytes, Insert;
  }

  /** The log file holds whole records only. */
  ghost predicate Logs(c: Config, s: State) {
    s.pending.None? && s.torn == [] && s.disk.wal == EncodeLog(c.crc, 0, s.records)
  }

  lemma QuietLogs(c: Config, s: State)
    requires Sound(c, s) && s.pending.None?
    ensures Logs(c, s)
  {
    hide EncodeLog, EncodeRecord, RollAfter, AllLoggable, PhaseInv, ViewInv, CommitPosInv;
    assert EncodeLog(c.crc, 0, s.records) + [] == EncodeLog(c.crc, 0, s.records);
  }

  /** The machine between calls: nothing half-written, every table file readable. */
  ghost predicate AtRest(c: Config, s: State) {
    Sound(c, s) && FilesOpen(c.h, s.disk.ssts) && s.pending.None?
  }

  lemma AtRestAfter(c: Config, s: State, actions: seq<Action>, t: State)
    requires AtRest(c, s) && Run(c, s, actions) == Some(t) && t.pending.None?
    ensures AtRest(c, t)
  {
    hide Run, Moves, FilesOpen, Sound;
    RunMoves(c, s, actions, t);
    MovesKeepFiles(c, s, actions, t);
  }

  lemma AtRestMove(c: Config, s: State, a: Action, t: State)
    requires AtRest(c, s) && Move(c, s, a) == Some(t) && t.pending.None?
    ensures AtRest(c, t)
  {
    hide Move, FilesOpen, Sound;
    MoveKeepsSound(c, s, a, t);
    MoveKeepsFiles(c, s, a, t);
  }

  /** An update: its record, then the entry of the fork. */
  lemma InsertPath(c: Config, s: State, k: Bytes, v: Bytes) returns (actions: seq<Action>, t: State)
    requires AtRest(c, s) && s.phase.Writing? && k != [] && |k| < 0x8000 && |v| < 0x1_0000
    ensures Run(c, s, actions) == Some(t) && actions == [Put(k, v), WalWrite(RecordLength(WalRecord(k, v, None)))]
    ensures AtRest(c, t) && t.records == s.records + [WalRecord(k, v, None)]
    ensures t.phase == Writing(Insert(s.phase.fork, k, v), s.phase.base, s.phase.puts[k := v])
    ensures t.disk.tmps == s.disk.tmps && t.disk.ssts == s.disk.ssts
    ensures t.mem == s.mem && t.counter == s.counter && t.durable == s.durable && t.found == s.found
  {
    hide Sound, Run, FilesOpen, EncodeRecord, EncodeLog, Insert;
    var r := WalRecord(k, v, None);
    QuietLogs(c, s);
    actions := RecordPath(c, s, Put(k, v), r, s.counter);
    t := Recorded(c, s, r, s.counter);
    hide PendingBytes;
    AtRestAfter(c, s, actions, t);
  }

  /** The commit record reaches the log: the transaction is durable, and not yet published. */
  lemma LogCommitPath(c: Config, s: State, clock: nat) returns (actions: seq<Action>, t: State)
    requires AtRest(c, s) && s.phase.Writing? && Size(Hlc.Tick(clock, s.counter)) <= 8
    ensures Run(c, s, actions) == Some(t) && actions == [Commit(clock), WalWrite(16)]
    ensures AtRest(c, t) && t.records == s.records + [WalRecord([], [], Some(Hlc.Tick(clock, s.counter)))]
    ensures t.phase == Committed(s.phase.fork, s.phase.base, s.phase.puts) && t.mem == s.mem
    ensures t.disk.tmps == s.disk.tmps && t.disk.ssts == s.disk.ssts && t.found == s.found
    ensures t.counter == Hlc.Tick(clock, s.counter) && t.durable == s.durable + s.phase.puts
  {
    hide Sound, Run, FilesOpen, EncodeRecord, EncodeLog, Insert, Hlc.Tick, Size;
    var ts := Hlc.Tick(clock, s.counter);
    var r := WalRecord([], [], Some(ts));
    QuietLogs(c, s);
    actions := RecordPath(c, s, Commit(clock), r, ts);
    t := Recorded(c, s, r, ts);
    hide PendingBytes;
    AtRestAfter(c, s, actions, t);
  }

  /** The fork becomes what readers see. */
  lemma PublishPath(c: Config, s: State) returns (t: State)
    requires AtRest(c, s) && s.phase.Committed?
    ensures Run(c, s, [Publish]) == Some(t) && AtRest(c, t)
    ensures t.phase == Published(s.phase.fork, s.phase.base) && t.mem == ReadableState(s.phase.fork, s.phase.base)
    ensures t.disk == s.disk && t.records == s.records && t.found == s.found && t.counter == s.counter
    ensures t.durable == s.durable
  {
    hide Sound, Run, FilesOpen;
    t := Publishing(s);
    RunOne(c, s, Publish, t);
    AtRestAfter(c, s, [Publish], t);
  }

  lemma QuietPath(c: Config, s: State, clock: nat)
    requires AtRest(c, s) && s.phase.Published? && Footprint(s.phase.fork) < c.threshold
    ensures Run(c, s, [Decide(clock)]) == Some(s.(phase := Idle)) && AtRest(c, s.(phase := Idle))
  {
    hide Sound, Run, FilesOpen, Footprint;
    RunOne(c, s, Decide(clock), s.(phase := Idle));
    AtRestAfter(c, s, [Decide(clock)], s.(phase := Idle));
  }

  /** The file is written under its temporary name, whatever the clock. */
  lemma TmpPath(c: Config, s: State, clock: nat) returns (actions: seq<Action>, t: State)
    requires AtRest(c, s) && s.phase.Published? && Footprint(s.phase.fork) >= c.threshold
    requires Addressable(c.h, s.phase.fork, Hlc.Tick(clock, s.counter), Hlc.Tick(clock, s.counter))
    ensures
      var ts := Hlc.Tick(clock, s.counter);
      var file := FileBytes(c.h, s.phase.fork, ts, ts);
      && Moves(c, s, actions) == Some(t) && actions == [Decide(clock), TmpWrite(|file|)]
      && (PastFound(s, ts) ==> Run(c, s, actions) == Some(t))
      && AtRest(c, t) && t.phase == Flushing(s.phase.fork, s.phase.base, ts, |file|)
      && t.disk == s.disk.(tmps := s.disk.tmps[ts := file]) && t.counter == ts
      && t.mem == s.mem && t.durable == s.durable && t.records == s.records && t.found == s.found
  {
    hide Sound, Run, Moves, FilesOpen, Footprint, FileBytes, Addressable, Hlc.Tick, PastFound;
    var ts := Hlc.Tick(clock, s.counter);
    var file := FileBytes(c.h, s.phase.fork, ts, ts);
    var s1 := FlushStarted(s, ts);
    t := TmpWritten(c, s1, |file|);
    assert file[..|file|] == file;
    assert s1.disk.tmps[ts := file] == s.disk.tmps[ts := file];
    actions := [Decide(clock)] + [TmpWrite(|file|)];
    AtRestMove(c, s, Decide(clock), s1);
    AtRestMove(c, s1, TmpWrite(|file|), t);
    MovesOne(c, s1, TmpWrite(|file|), t);
    MovesCons(c, s, Decide(clock), s1, [TmpWrite(|file|)], t);
    if PastFound(s, ts) {
      RunOne(c, s1, TmpWrite(|file|), t);
      RunCons(c, s, Decide(clock), s1, [TmpWrite(|file|)], t);
    }
  }

  lemma RenamePath(c: Config, s: State) returns (t: State)
    requires AtRest(c, s) && s.phase.Flushing? && s.phase.written == |FlushedFile(c, s)|
    ensures s.phase.ts in s.disk.tmps
    ensures
      var ts := s.phase.ts;
      && Run(c, s, [Rename]) == Some(t) && AtRest(c, t) && t.phase == Renamed(s.phase.base, ts)
      && t.disk == Disk(s.disk.wal, s.disk.tmps - {ts}, s.disk.ssts[ts := s.disk.tmps[ts]])
      && t.mem == s.mem && t.durable == s.durable && t.records == s.records && t.counter == s.counter
      && t.found == s.found
  {
    hide AtRest, Sound, Run, FlushedFile, LogInv, PhaseInv, ViewInv, CommitPosInv;
    AtRestSound(c, s);
    SoundParts(c, s);
    RenamedFile(c, s);
    t := RenameDone(s);
    RunOne(c, s, Rename, t);
    AtRestAfter(c, s, [Rename], t);
  }

  /** The file is written, `s1`, and renamed. */
  lemma FlushPath(c: Config, s: State, clock: nat) returns (actions: seq<Action>, s1: State, t: State)
    requires AtRest(c, s) && s.phase.Published? && Footprint(s.phase.fork) >= c.threshold
    requires Addressable(c.h, s.phase.fork, Hlc.Tick(clock, s.counter), Hlc.Tick(clock, s.counter))
    ensures
      var ts := Hlc.Tick(clock, s.counter);
      var file := FileBytes(c.h, s.phase.fork, ts, ts);
      && Moves(c, s, actions) == Some(t) && actions == [Decide(clock), TmpWrite(|file|), Rename]
      && (PastFound(s, ts) ==> Run(c, s, actions) == Some(t))
      && AtRest(c, s1) && s1.phase == Flushing(s.phase.fork, s.phase.base, ts, |file|) && s1.records == s.records
      && s1.disk == s.disk.(tmps := s.disk.tmps[ts := file]) && s1.counter == ts && s1.mem == s.mem
      && AtRest(c, t) && t.phase == Renamed(s.phase.base, ts) && t.records == s.records && t.counter == ts
      && t.disk == Disk(s.disk.wal, s1.disk.tmps - {ts}, s.disk.ssts[ts := file])
      && t.mem == s.mem && t.durable == s.durable
  {
    hide AtRest, Run, Moves, FileBytes, Addressable, Hlc.Tick, PastFound, Footprint;
    var start;
    start, s1 := TmpPath(c, s, clock);
    t := RenamePath(c, s1);
    RunMoves(c, s1, [Rename], t);
    MovesConcat(c, s, start, s1, [Rename], t);
    if PastFound(s, Hlc.Tick(clock, s.counter)) { RunConcat(c, s, start, s1, [Rename], t); }
    actions := start + [Rename];
  }

  /** The new table takes the place of the MemTable. */
  lemma SwapPath(c: Config, s: State) returns (t: State)
    requires AtRest(c, s) && s.phase.Renamed?
    ensures s.phase.ts in s.disk.ssts && Run(c, s, [Swap]) == Some(t) && AtRest(c, t) && t.phase.Swapped?
    ensures t.mem == ReadableState([], [Table(s.phase.ts, s.disk.ssts[s.phase.ts])] + s.phase.base)
    ensures t.disk == s.disk && t.records == s.records && t.counter == s.counter && t.durable == s.durable
    ensures t.found == s.found
  {
    hide Sound, Run, FilesOpen;
    assert s.phase.ts in s.disk.ssts by { RenamedExists(c, s); }
    t := SwapDone(s);
    RunOne(c, s, Swap, t);
    AtRestAfter(c, s, [Swap], t);
  }

  /** The log is reset. */
  lemma ResetPath(c: Config, s: State) returns (t: State)
    requires AtRest(c, s) && s.phase.Swapped?
    ensures Run(c, s, [ResetWal]) == Some(t) && AtRest(c, t) && t.phase.Idle?
    ensures t.records == [] && t.disk == s.disk.(wal := []) && t.counter == s.counter && t.mem == s.mem
    ensures t.durable == s.durable && t.found == s.found
  {
    hide Sound, Run, FilesOpen;
    t := ResetDone(s);
    RunOne(c, s, ResetWal, t);
    AtRestAfter(c, s, [ResetWal], t);
  }

  lemma RenamedExists(c: Config, s: State)
    requires Sound(c, s) && s.phase.Renamed?
    ensures s.phase.ts in s.disk.ssts
  {
    hide LogInv, ViewInv, CommitPosInv, Tables, Logged, Listing, AllCommitted, Contents;
  }

  /** The log is cut back to its last commit. */
  lemma DropPath(c: Config, s: State) returns (t: State)
    requires AtRest(c, s) && s.phase.Writing?
    ensures Run(c, s, [Abort]) == Some(t) && AtRest(c, t) && t.phase.Idle?
    ensures t.records == s.records[..Wals.Committed(s.records)] && t.disk.tmps == s.disk.tmps
        && t.disk.ssts == s.disk.ssts
    ensures t.mem == s.mem && t.counter == s.counter && t.durable == s.durable
  {
    hide Sound, Run, FilesOpen, Wals.Committed;
    assert s.lastCommitPos <= |s.disk.wal| by { CommitPosInside(c, s); }
    t := Aborted(s);
    RunOne(c, s, Abort, t);
    AtRestAfter(c, s, [Abort], t);
  }

  lemma CommitPosInside(c: Config, s: State)
    requires Sound(c, s) && Up(s)
    ensures s.lastCommitPos <= |s.disk.wal|
  {
    hide LogInv, ViewInv, PhaseInv, EncodeLog, Wals.Committed;
  }

  lemma BeginPath(c: Config, s: State) returns (t: State)
    requires AtRest(c, s) && s.phase.Idle?
    ensures Run(c, s, [Begin]) == Some(t) && AtRest(c, t) && t == s.(phase := Writing(s.mem.active, s.mem.tables,
        map[]))
  {
    hide Sound, Run, FilesOpen;
    t := s.(phase := Writing(s.mem.active, s.mem.tables, map[]));
    RunOne(c, s, Begin, t);
    AtRestAfter(c, s, [Begin], t);
  }

  /** What opening makes of any files: the log is replayed as far as it goes, and truncated. */
  ghost function OpenedState(c: Config, files: Disk, counter: nat): State {
    var r := Recovered(c.crc, files);
    State(Disk([], map[], files.ssts), Idle, r, map[], 0, counter, [], None, [], View(r), ToMap(r.active), [View(r)],
          files.ssts.Keys)
  }

  /** Opening needs no sound log: it starts a sound run from whatever there is. */
  lemma OpenedSound(c: Config, files: Disk, counter: nat)
    requires FilesOpen(c.h, files.ssts)
    ensures AtRest(c, OpenedState(c, files, counter))
  {
    hide Replay, Listing, TablesMap, FilesOpen, LogInv, ToMap, FromRecords, Storable, Wals.Committed;
    var t, rs := OpenedState(c, files, counter), Replay(c.crc, files.wal);
    ReplaySmall(c.crc, files.wal);
    FromRecordsMap(rs);
    NothingLogged(c, t);
    hide Logged;
    NothingUnlogged(t.unlogged);
    hide PhaseInv, MemInv;
    assert MemInv(t) by { OpenedMem(c, files, counter); }
    IsIdle(c, t);
  }

  lemma OpenedMem(c: Config, files: Disk, counter: nat)
    requires Storable(Recovered(c.crc, files).active) && Logged(OpenedState(c, files, counter)) == map[]
    ensures MemInv(OpenedState(c, files, counter))
  {
    hide Recovered, View, Storable, ToMap, Logged;
    NothingUnlogged(ToMap(Recovered(c.crc, files).active));
  }

  /** The log is replayed, then truncated. */
  lemma LoadPath(c: Config, s: State) returns (t: State)
    requires Sound(c, s) && FilesOpen(c.h, s.disk.ssts) && s.phase.Down? && s.disk.tmps == map[]
    ensures Run(c, s, [Load, TruncateWal]) == Some(t) && AtRest(c, t) && t.phase.Idle?
    ensures t.records == [] && t.disk == Disk([], map[], s.disk.ssts) && t.mem == Recovered(c.crc, s.disk)
    ensures t.durable == s.durable && t.counter == s.counter && t.found == s.disk.ssts.Keys
    ensures t == OpenedState(c, s.disk, s.counter)
  {
    hide Sound, Run, Moves, FilesOpen, Recovered, ToMap;
    var s1 := s.(phase := Loaded(Recovered(c.crc, s.disk)));
    t := OpenDone(s1);
    RunOne(c, s1, TruncateWal, t);
    RunCons(c, s, Load, s1, [TruncateWal], t);
    assert [Load] + [TruncateWal] == [Load, TruncateWal];
    DownDurable(c, s);
    RunMoves(c, s, [Load, TruncateWal], t);
    MovesKeepFiles(c, s, [Load, TruncateWal], t);
  }

  lemma AtRestSound(c: Config, s: State)
    requires AtRest(c, s)
    ensures Sound(c, s) && s.pending.None?
  {
    hide Sound, FilesOpen;
  }

  lemma FileOpens(c: Config, s: State, n: nat)
    requires AtRest(c, s) && n in s.disk.ssts
    ensures Opens(c.h, s.disk.ssts[n])
  {
    hide Sound, Opens;
  }

  /** Before opening, what counts is what the files hold. */
  lemma DownDurable(c: Config, s: State)
    requires Sound(c, s) && s.phase.Down?
    ensures s.durable == View(Recovered(c.crc, s.disk))
  {
    hide LogInv, ViewInv, CommitPosInv, Tables, Logged, View, Recovered;
    RecoveredView(c, s);
  }
}
