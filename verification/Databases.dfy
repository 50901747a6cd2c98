/**
  * The database object and its write transactions (src/db.rs, src/transaction.rs). A ghost field holds the
  * state of the machine in `Store`; each method takes moves of that machine and keeps the objects tied to it.
  */
module Databases {
  import opened ByteStrings
  import opened Entries
  import opened MemTables
  import opened SstFormat
  import opened SstReaders
  import SstWriters
  import opened Wals
  import opened Recovery
  import opened Store
  import opened Runs
  import opened Transactions
  import opened Walks
  import Hlc
  import Mutations
  import PathReaders
  import PathWriters

  //
  // Opening
  //

  predicate DescendingNames(names: seq<nat>) {
    forall i, j :: 0 <= i < j < |names| ==> names[i] > names[j]
  }

  method InsertDescending(names: seq<nat>, n: nat) returns (r: seq<nat>)
    requires DescendingNames(names) && n !in names
    ensures DescendingNames(r) && forall m :: m in r <==> m == n || m in names
  {
    var i := 0;
    while i < |names| && names[i] > n
      invariant 0 <= i <= |names| && forall j :: 0 <= j < i ==> names[j] > n
    {
      i := i + 1;
    }
    r := names[..i] + [n] + names[i..];
    InsertedAt(names, n, i);
  }

  lemma InsertedAt(names: seq<nat>, n: nat, i: nat)
    requires DescendingNames(names) && i <= |names| && (i < |names| ==> names[i] < n)
    requires forall j :: 0 <= j < i ==> names[j] > n
    ensures DescendingNames(names[..i] + [n] + names[i..])
    ensures forall m :: m in names[..i] + [n] + names[i..] <==> m == n || m in names
  {
    var a, b := names[..i], names[i..];
    assert forall j :: 0 <= j < |b| ==> b[j] < n;
    forall m ensures m in a + [n] + b <==> m == n || m in names {
      assert names == a + b;
    }
  }

  /** The names of the table files, in whatever order the directory gives them; sorted and reversed. */
  method ListNewestFirst(ssts: map<nat, Bytes>) returns (names: seq<nat>)
    ensures DescendingNames(names) && forall n :: n in names <==> n in ssts
  {
    names := [];
    var rest := ssts.Keys;
    while rest != {}
      invariant rest <= ssts.Keys && DescendingNames(names)
      invariant forall n :: n in names <==> n in ssts && n !in rest
      decreases |rest|
    {
      var n :| n in rest;
      names := InsertDescending(names, n);
      rest := rest - {n};
    }
  }

  ghost function Named(names: seq<nat>, ssts: map<nat, Bytes>): seq<Table>
    requires forall n :: n in names ==> n in ssts
  {
    seq(|names|, i requires 0 <= i < |names| => Table(names[i], ssts[names[i]]))
  }

  lemma NamedIsListing(names: seq<nat>, ssts: map<nat, Bytes>)
    requires DescendingNames(names) && forall n :: n in names <==> n in ssts
    ensures Named(names, ssts) == Listing(ssts)
  {
    ListingHolds(ssts);
    var tables := Named(names, ssts);
    forall t ensures t in tables <==> t in Listing(ssts) {
      if t in Listing(ssts) {
        var i :| 0 <= i < |names| && names[i] == t.name;
        assert tables[i] == t;
      }
    }
    DescendingUnique(tables, Listing(ssts));
  }

  method OpenTables(h: Hashes, names: seq<nat>, ssts: map<nat, Bytes>) returns (rs: seq<SSTableReader>)
    requires FilesOpen(h, ssts) && forall n :: n in names ==> n in ssts
    ensures OpenedOn(rs, Named(names, ssts)) && AllReadable(h, rs)
  {
    hide Readable, Opened;
    rs := [];
    for i := 0 to |names|
      invariant |rs| == i && AllReadable(h, rs)
      invariant forall j :: 0 <= j < i ==> rs[j].mmap == ssts[names[j]]
    {
      assert Opens(h, ssts[names[i]]);
      var r := SstReaders.Open(ssts[names[i]]);
      rs := rs + [r.value];
    }
  }

  /** Replays the log into a fresh MemTable; commit marks carry no key. */
  method ReplayInto(crc: Checksum, file: Bytes) returns (memtable: MemTable)
    ensures fresh(memtable) && memtable.Valid() && memtable.entries == FromRecords(Replay(crc, file))
  {
    hide Replay, Entries.Insert, ToMap;
    var records := ReplayFile(crc, file);
    memtable := new MemTable();
    for i := 0 to |records|
      invariant fresh(memtable) && memtable.Valid() && memtable.entries == FromRecords(records[..i])
    {
      assert records[..i + 1][..i] == records[..i];
      if records[i].key != [] {
        var previous := memtable.Insert(records[i].key, records[i].value);
      }
    }
    assert records[..|records|] == records;
  }

  method RemoveAll(tmps: map<nat, Bytes>) returns (left: map<nat, Bytes>)
    ensures left == map[]
  {
    left := tmps;
    while left.Keys != {}
      decreases |left.Keys|
    {
      var n :| n in left.Keys;
      var fewer := left - {n};
      assert fewer.Keys == left.Keys - {n};
      left := fewer;
    }
  }

  lemma {:induction false} CleanPath(c: Config, s: State) returns (actions: seq<Action>, t: State)
    requires Sound(c, s) && s.phase.Down?
    ensures Run(c, s, actions) == Some(t) && t == s.(disk := s.disk.(tmps := map[])) && Sound(c, t)
    ensures forall a :: a in actions ==> a.CleanTmp?
    decreases |s.disk.tmps.Keys|
  {
    hide Sound;
    if s.disk.tmps.Keys == {} {
      actions, t := [], s;
      assert s.disk.tmps == map[];
    } else {
      var n :| n in s.disk.tmps;
      var next := s.(disk := s.disk.(tmps := s.disk.tmps - {n}));
      assert next.disk.tmps.Keys == s.disk.tmps.Keys - {n};
      MoveKeepsSound(c, s, CleanTmp(n), next);
      var rest;
      rest, t := CleanPath(c, next);
      RunCons(c, s, CleanTmp(n), next, rest, t);
      actions := [CleanTmp(n)] + rest;
    }
  }

  lemma OpenRun(c: Config, s: State)
    requires Sound(c, s) && s.phase.Down? && FilesOpen(c.h, s.disk.ssts)
    ensures exists actions :: Run(c, s, actions) == Some(OpenedState(c, s.disk, s.counter))
  {
    hide Sound, Run, FilesOpen;
    var cleans, s1 := CleanPath(c, s);
    var t := LoadPath(c, s1);
    RunConcat(c, s, cleans, s1, [Load, TruncateWal], t);
  }

  /** From every sound state that has left these files, some run leads to `t`. */
  ghost predicate StepsTo(c: Config, files: Disk, counter: nat, t: State) {
    forall s :: Sound(c, s) && s.phase.Down? && s.disk == files && s.counter == counter ==>
      exists actions :: Run(c, s, actions) == Some(t)
  }

  lemma OpenRuns(c: Config, files: Disk, counter: nat)
    requires FilesOpen(c.h, files.ssts)
    ensures StepsTo(c, files, counter, OpenedState(c, files, counter))
  {
    hide Sound, Run, FilesOpen, OpenedState;
    forall s | Sound(c, s) && s.phase.Down? && s.disk == files && s.counter == counter
      ensures exists actions :: Run(c, s, actions) == Some(OpenedState(c, files, counter))
    {
      OpenRun(c, s);
    }
  }

  //
  // Objects
  //

  class Db {
    const h: Hashes
    const crc: Checksum
    const memtableSize: nat
    const wal: WriteAheadLog
    var readable: SharedState
    var tmps: map<nat, Bytes>
    var ssts: map<nat, Bytes>
    var counter: nat
    ghost var state: State

    ghost function Conf(): Config { Config(h, crc, memtableSize) }

    /**
      * `Db::open`: any log, and table files that open. From files that the machine has left it takes steps of the
      * machine.
      */
    constructor Open(h: Hashes, crc: Checksum, memtableSize: nat, files: Disk, counter: nat)
      requires FilesOpen(h, files.ssts)
      ensures this.h == h && this.crc == crc && this.memtableSize == memtableSize
      ensures Tied() && state.phase.Idle? && fresh(wal) && fresh(readable) && fresh(readable.active)
      ensures readable.Shows() == View(Recovered(crc, files)) == state.durable
      ensures ssts == files.ssts && tmps == map[] && wal.records == []
      ensures StepsTo(Conf(), files, counter, state)
    {
      hide Sound, Run, StepsTo, FilesOpen, AllReadable, Replay, Contents, ToMap, AtRest, TablesMap, ReadersMap, Listing,
        FromRecords, WriteAheadLog.Valid, MemTable.Valid, OpenedOn, Readable;
      ghost var c := Config(h, crc, memtableSize);
      OpenedSound(c, files, counter);
      OpenRuns(c, files, counter);
      var left := RemoveAll(files.tmps);
      var names := ListNewestFirst(files.ssts);
      NamedIsListing(names, files.ssts);
      var sstables := OpenTables(h, names, files.ssts);
      var memtable := ReplayInto(crc, files.wal);
      this.h, this.crc, this.memtableSize := h, crc, memtableSize;
      this.wal := new WriteAheadLog(crc);
      this.readable := new SharedState(memtable, sstables);
      this.tmps, this.ssts, this.counter := left, files.ssts, counter;
      this.state := OpenedState(c, files, counter);
      new;
      ReadersOfTables(sstables, Listing(files.ssts));
    }

    /** The objects are as the state machine says. */
    ghost predicate Tied()
      reads this, readable, readable.active, wal
    {
      && AtRest(Conf(), state) && Up(state)
      && TiedFiles() && TiedMemory()
    }

    ghost predicate TiedFiles()
      reads this, wal
    {
      && wal.Valid() && wal.crc == crc && wal.records == state.records
      && state.disk.tmps == tmps && state.disk.ssts == ssts && state.counter == counter
    }

    ghost predicate TiedMemory()
      reads this, readable, readable.active
    {
      && readable.Valid(h) && readable.active.entries == state.mem.active
      && OpenedOn(readable.sstables, state.mem.tables)
    }

    /** The log object holds the bytes of the log file, and knows where its last commit ends. */
    lemma SameLog()
      requires Tied()
      ensures wal.file == state.disk.wal && wal.lastCommitPos == state.lastCommitPos
    {
      hide AtRest, Sound, LogInv, PhaseInv, ViewInv, EncodeLog, Wals.Committed;
      AtRestSound(Conf(), state);
      QuietLogs(Conf(), state);
      SoundParts(Conf(), state);
    }

    /** What readers see now is what was committed, unless a commit is about to be published. */
    lemma ShowsDurable()
      requires Tied() && !state.phase.Committed?
      ensures readable.Shows() == state.durable
    {
      hide AtRest, Sound, LogInv, PhaseInv, CommitPosInv, TablesMap, ReadersMap, ToMap;
      AtRestSound(Conf(), state);
      SoundParts(Conf(), state);
      ReadersOfTables(readable.sstables, state.mem.tables);
    }

    /**
      * `flush_memtable`: writes the file under a temporary name, renames it, and opens it. Nothing is asked of the
      * name the clock gives; past those found at opening, the moves are steps.
      */
    method FlushMemtable(memtable: MemTable, clock: nat) returns (reader: SSTableReader, ghost actions: seq<Action>)
      requires Tied() && memtable.Valid() && state.phase.Published? && state.phase.fork == memtable.entries
      requires Footprint(memtable.entries) >= memtableSize
      requires Addressable(h, memtable.entries, Hlc.Tick(clock, counter), Hlc.Tick(clock, counter))
      modifies this`counter, this`tmps, this`ssts, this`state
      ensures Tied() && state.phase == Renamed(old(state.phase.base), counter)
          && counter == Hlc.Tick(clock, old(counter))
      ensures Moves(Conf(), old(state), actions) == Some(state) && state.durable == old(state.durable)
      ensures PastFound(old(state), counter) ==> Run(Conf(), old(state), actions) == Some(state)
      ensures counter in ssts && reader.mmap == ssts[counter] && Readable(h, reader)
      ensures ssts == old(ssts)[counter := FileBytes(h, memtable.entries, counter, counter)]
    {
      hide AtRest, Run, Moves, AllReadable, Readable, FileBytes, Addressable, Hlc.Tick, PastFound, Footprint, Opened,
        Contents, Sorted, SharedState.Valid, OpenedOn, WriteAheadLog.Valid;
      ghost var path, s1, t := FlushPath(Conf(), state, clock);
      var ts := Now(clock);
      var file := SstWriters.WriteTable(h, memtable.Iter(), ts);
      tmps := tmps[ts := file];
      state := s1;
      assert Tied();
      tmps, ssts := tmps - {ts}, ssts[ts := tmps[ts]];
      state := t;
      assert Opens(h, file) by { FileOpens(Conf(), t, ts); }
      var result := SstReaders.Open(ssts[ts]);
      reader := result.value;
      actions := path;
    }

    /** The first half of a commit: the commit record, and the fork as the new shared state. */
    method Publish(fork: MemTable, ghost puts: Map, clock: nat) returns (ghost actions: seq<Action>)
      requires Tied() && fork.Valid() && state.phase == Writing(fork.entries, state.mem.tables, puts)
      requires Size(Hlc.Tick(clock, counter)) <= 8
      modifies this`counter, this`readable, this`state, wal
      ensures Tied() && state.phase == Published(fork.entries, state.mem.tables) && fresh(readable)
          && fresh(readable.active)
      ensures Run(Conf(), old(state), actions) == Some(state) && state.durable == old(state.durable) + puts
      ensures counter == Hlc.Tick(clock, old(counter)) && state.found == old(state.found)
      ensures readable.active.entries == fork.entries && readable.sstables == old(readable.sstables)
    {
      hide AtRest, Run, AllReadable, OpenedOn, Hlc.Tick, Size, WriteAheadLog.Valid, MemTable.Valid, Sorted;
      Ordered(fork);
      ghost var s0 := state;
      ghost var start, s1 := LogCommitPath(Conf(), s0, clock);
      ghost var t := PublishPath(Conf(), s1);
      RunConcat(Conf(), s0, start, s1, [Action.Publish], t);
      var ts := Now(clock);
      wal.WriteCommit(ts);
      state := s1;
      assert Tied();
      var copy := new MemTable.Clone(fork.entries);
      readable := new SharedState(copy, readable.sstables);
      state := t;
      actions := start + [Action.Publish];
    }

    /** A commit that need not flush ends here. */
    ghost method Settle(clock: nat) returns (actions: seq<Action>)
      requires Tied() && state.phase.Published? && Footprint(state.phase.fork) < memtableSize
      modifies this`state
      ensures Tied() && state.phase.Idle? && state.durable == old(state.durable)
      ensures Run(Conf(), old(state), actions) == Some(state)
    {
      hide AtRest, Run, AllReadable, Footprint;
      QuietPath(Conf(), state, clock);
      state := state.(phase := Idle);
      actions := [Decide(clock)];
    }

    /** The flush of a commit: the new table in front of the others, an empty MemTable, and an empty log. */
    method Flush(memtable: MemTable, sstables: seq<SSTableReader>, clock: nat) returns (ghost actions: seq<Action>)
      requires Tied() && memtable.Valid() && state.phase == Published(memtable.entries, state.mem.tables)
      requires sstables == readable.sstables && Footprint(memtable.entries) >= memtableSize
      requires Addressable(h, memtable.entries, Hlc.Tick(clock, counter), Hlc.Tick(clock, counter))
      modifies this, wal
      ensures Tied() && state.phase.Idle? && fresh(readable) && fresh(readable.active)
      ensures counter == Hlc.Tick(clock, old(counter))
      ensures Moves(Conf(), old(state), actions) == Some(state) && state.durable == old(state.durable)
      ensures PastFound(old(state), counter) ==> Run(Conf(), old(state), actions) == Some(state)
      ensures readable.active.entries == [] && wal.records == [] && readable.sstables != []
          && readable.sstables[1..] == sstables
    {
      hide AtRest, Run, Moves, Readable, FileBytes, Addressable, Hlc.Tick, PastFound, Footprint, Opened, Contents;
      ghost var s0 := state;
      var reader, start := FlushMemtable(memtable, clock);
      ghost var s1 := state;
      ghost var end := Swap(reader, sstables);
      RunMoves(Conf(), s1, end, state);
      MovesConcat(Conf(), s0, start, s1, end, state);
      if PastFound(s0, counter) { RunConcat(Conf(), s0, start, s1, end, state); }
      actions := start + end;
    }

    method Swap(reader: SSTableReader, sstables: seq<SSTableReader>) returns (ghost actions: seq<Action>)
      requires Tied() && state.phase.Renamed? && OpenedOn(sstables, state.phase.base) && AllReadable(h, sstables)
      requires state.phase.ts in ssts && reader.mmap == ssts[state.phase.ts] && Readable(h, reader)
      modifies this`readable, this`state, wal
      ensures Tied() && state.phase.Idle? && fresh(readable) && fresh(readable.active)
      ensures Run(Conf(), old(state), actions) == Some(state) && state.durable == old(state.durable)
      ensures readable.active.entries == [] && wal.records == [] && readable.sstables == [reader] + sstables
    {
      hide AtRest, Run, Readable, WriteAheadLog.Valid, MemTable.Valid;
      ghost var s0 := state;
      ghost var s1 := SwapPath(Conf(), s0);
      ghost var t := ResetPath(Conf(), s1);
      RunConcat(Conf(), s0, [Action.Swap], s1, [ResetWal], t);
      var empty := new MemTable();
      readable := new SharedState(empty, [reader] + sstables);
      state := s1;
      assert Tied();
      wal.Reset();
      state := t;
      actions := [Action.Swap] + [ResetWal];
    }

    /** `Timestamp::now`, when no other thread interferes. */
    method Now(clock: nat) returns (ts: nat)
      modifies this`counter
      ensures ts == counter == Hlc.Tick(clock, old(counter))
    {
      var latest := counter;
      var masked := clock - clock % 256;
      var max := (if masked > latest then masked else latest) + 1;
      counter := max;
      ts := max;
    }
  }

  lemma Ordered(m: MemTable)
    requires m.Valid()
    ensures Sorted(m.entries)
  {
    hide Sorted, Footprint;
  }

  /** What the log can take as an update. */
  predicate Insertable(e: Entry) {
    e.key != [] && |e.key| < 0x8000 && |e.value| < 0x1_0000
  }

  predicate AllInsertable(es: seq<Entry>) {
    forall i :: 0 <= i < |es| ==> Insertable(es[i])
  }

  /** Later entries replace earlier ones. */
  function PutAll(m: Map, es: seq<Entry>): Map {
    if es == [] then m
    else
      var last := es[|es| - 1];
      PutAll(m, es[..|es| - 1])[last.key := last.value]
  }

  class ReadWriteTransaction {
    const db: Db
    const fork: MemTable
    const snapshot: SharedState
    var finished: bool
    /** What this transaction has written. */
    ghost var puts: Map

    ghost predicate Valid()
      reads this, db, db.readable, db.readable.active, db.wal, fork
    {
      && db.Tied() && fork.Valid() && snapshot == db.readable && fork != snapshot.active
      && (!finished ==> db.state.phase == Writing(fork.entries, db.state.mem.tables, puts))
    }

    constructor (db: Db)
      requires db.Tied() && db.state.phase.Idle?
      modifies db`state
      ensures this.db == db && fresh(fork) && Valid() && !finished && puts == map[]
      ensures snapshot == db.readable == old(db.readable)
      ensures Run(db.Conf(), old(db.state), [Begin]) == Some(db.state) && db.state.durable == old(db.state.durable)
    {
      hide AtRest, Run, AllReadable, OpenedOn, WriteAheadLog.Valid, Sorted;
      ghost var t := BeginPath(db.Conf(), db.state);
      var copy := new MemTable.Clone(db.readable.active.entries);
      this.db, this.fork, this.snapshot, this.finished, this.puts := db, copy, db.readable, false, map[];
      new;
      db.state := t;
    }

    /** The fork over the tables of the snapshot is the snapshot with the writes of this transaction. */
    lemma OwnWrites()
      requires Valid() && !finished
      ensures ReadersMap(snapshot.sstables) + ToMap(fork.entries) == snapshot.Shows() + puts
    {
      hide AtRest, Sound, LogInv, ViewInv, CommitPosInv, ReadersMap, ToMap, AllReadable, Storable, Logged, RecordsMap;
      AtRestSound(db.Conf(), db.state);
      SoundParts(db.Conf(), db.state);
      OverlayAssoc(ReadersMap(snapshot.sstables), ToMap(snapshot.active.entries), puts);
    }

    /** What was committed when the transaction began, and its own uncommitted writes. */
    method Get(key: Bytes) returns (v: Option<Bytes>)
      requires Valid() && !finished
      ensures v == At(snapshot.Shows() + puts, key)
    {
      hide AtRest, AllReadable;
      OwnWrites();
      v := GetThrough(db.h, fork, snapshot.sstables, key);
    }

    method Scan(prefix: Bytes) returns (merged: seq<Entry>)
      requires Valid() && !finished
      ensures Sorted(merged)
      ensures forall k, v :: Entry(k, v) in merged <==> prefix <= k && At(snapshot.Shows() + puts, k) == Some(v)
    {
      hide AtRest, AllReadable;
      OwnWrites();
      merged := MergeScan(db.h, prefix, fork, snapshot.sstables);
    }

    method Insert(key: Bytes, value: Bytes)
      requires Valid() && !finished && key != [] && |key| < 0x8000 && |value| < 0x1_0000
      modifies this`puts, db`state, db.wal, fork
      ensures Valid() && !finished && puts == old(puts)[key := value]
      ensures ToMap(fork.entries) == ToMap(old(fork.entries))[key := value]
      ensures
        Run(db.Conf(), old(db.state), [Put(key, value), WalWrite(RecordLength(WalRecord(key, value,
            None)))]) == Some(db.state)
      ensures db.state.durable == old(db.state.durable)
    {
      hide AtRest, Run, Entries.Insert, RecordLength, WriteAheadLog.Valid, MemTable.Valid, OpenedOn, AllReadable;
      ghost var actions, t := InsertPath(db.Conf(), db.state, key, value);
      db.wal.WriteRecord(key, value, None);
      var previous := fork.Insert(key, value);
      puts := puts[key := value];
      db.state := t;
    }

    /** `execute`: inserts what the mutation emits, in order; what came before a path that is too long stays. */
    method Execute(mutation: Mutations.Mutation) returns (r: Result<(), PathReaders.PathError>)
      requires Valid() && !finished && Mutations.Complete(mutation)
      requires AllInsertable(Mutations.Run(mutation, PathWriters.Buffer([], 0)).emitted)
      modifies this`puts, db`state, db.wal, fork
      ensures Valid() && !finished && db.state.durable == old(db.state.durable)
      ensures
        var run := Mutations.Run(mutation, PathWriters.Buffer([], 0));
        r == run.result && puts == PutAll(old(puts), run.emitted)
    {
      hide Mutations.Run, Mutations.Complete, AtRest, Run, Entries.Insert, RecordLength, ToMap;
      hide ReadWriteTransaction.Valid;
      var emitted;
      r, emitted := Mutations.ForEach(mutation);
      assert emitted[..0] == [];
      for i := 0 to |emitted|
        invariant Valid() && !finished && db.state.durable == old(db.state.durable)
        invariant puts == PutAll(old(puts), emitted[..i])
      {
        assert Insertable(emitted[i]);
        assert emitted[..i + 1][..i] == emitted[..i];
        Insert(emitted[i].key, emitted[i].value);
      }
      assert emitted[..|emitted|] == emitted;
    }

    /**
      * Commits: the commit record, the new shared state, and a flush when the MemTable has grown to the
      * threshold. Readers, who keep the shared state they hold, are not touched: no object they reach is in the
      * frame. The second clock reading is the one that names the file; the name may be any, and past those found
      * at opening all moves are steps.
      */
    method Commit(clock: nat, flushClock: nat) returns (flushed: bool, ghost actions: seq<Action>)
      requires Valid() && !finished && Size(Hlc.Tick(clock, db.counter)) <= 8
      requires Footprint(fork.entries) >= db.memtableSize ==>
                 var ts := Hlc.Tick(flushClock, Hlc.Tick(clock, db.counter));
                 Addressable(db.h, fork.entries, ts, ts)
      modifies this`finished, db, db.wal
      ensures finished && db.Tied() && db.state.phase.Idle? && fresh(db.readable)
      ensures Moves(db.Conf(), old(db.state), actions) == Some(db.state)
      ensures !flushed || PastFound(old(db.state), db.counter) ==>
        Run(db.Conf(), old(db.state), actions) == Some(db.state)
      ensures flushed ==> db.counter == Hlc.Tick(flushClock, Hlc.Tick(clock, old(db.counter)))
      ensures db.state.durable == old(db.state.durable) + old(puts)
      ensures db.readable.Shows() == old(snapshot.Shows()) + old(puts)
      ensures flushed <==> Footprint(fork.entries) >= db.memtableSize
      ensures flushed ==>
        && db.readable.active.entries == [] && db.wal.records == []
        && db.readable.sstables != [] && db.readable.sstables[1..] == snapshot.sstables
      ensures !flushed ==> db.readable.active.entries == fork.entries && db.readable.sstables == snapshot.sstables
    {
      hide AtRest, Run, Moves, AllReadable, FileBytes, Addressable, Hlc.Tick, Footprint, Size;
      ghost var s0 := db.state;
      db.ShowsDurable();
      finished := true;
      ghost var start := db.Publish(fork, puts, clock);
      ghost var s1 := db.state;
      flushed := fork.EstimatedSize() >= db.memtableSize;
      if flushed {
        ghost var rest := db.Flush(fork, snapshot.sstables, flushClock);
        actions := start + rest;
        RunMoves(db.Conf(), s0, start, s1);
        MovesConcat(db.Conf(), s0, start, s1, rest, db.state);
        if PastFound(s0, db.counter) { RunConcat(db.Conf(), s0, start, s1, rest, db.state); }
      } else {
        ghost var rest := db.Settle(flushClock);
        actions := start + rest;
        RunConcat(db.Conf(), s0, start, s1, rest, db.state);
        RunMoves(db.Conf(), s0, actions, db.state);
      }
      db.ShowsDurable();
    }

    /** `abort`, and `drop` of a transaction that was not finished: the records of this transaction are cut off. */
    method Abort()
      requires Valid() && !finished
      modifies this`finished, db`state, db.wal
      ensures finished && db.Tied() && db.state.phase.Idle?
      ensures Run(db.Conf(), old(db.state), [Action.Abort]) == Some(db.state)
          && db.state.durable == old(db.state.durable)
      ensures db.wal.records == old(db.wal.records)[..Wals.Committed(old(db.wal.records))]
    {
      hide AtRest, Run, Wals.Committed, WriteAheadLog.Valid, MemTable.Valid, OpenedOn, AllReadable;
      ghost var t := DropPath(db.Conf(), db.state);
      finished := true;
      db.wal.TruncateToLastCommit();
      db.state := t;
    }

    method Drop()
      requires Valid()
      modifies this`finished, db`state, db.wal
      ensures finished && db.Tied() && db.state.durable == old(db.state.durable)
      ensures old(finished) ==> db.state == old(db.state) && db.wal.records == old(db.wal.records)
      ensures !old(finished) ==> db.state.phase.Idle?
    {
      if !finished { Abort(); }
    }
  }
}
