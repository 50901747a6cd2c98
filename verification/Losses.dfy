/**
  * Runs in which a committed write is lost: to a second crash after opening has truncated the log, and to a
  * clock that is behind. The counter of the clock starts at 0 in a new process (src/hlc.rs:27), so that a flush
  * can take a name that is not past those of older tables; nothing in the code prevents it.
  */
module Losses {
  import opened ByteStrings
  import opened Entries
  import opened SstFormat
  import opened SstReaders
  import opened Wals
  import opened Recovery
  import opened Store
  import opened Runs
  import opened Walks
  import Hlc

  /** One write, committed and published. */
  lemma CommitOne(c: Config, s: State, k: Bytes, v: Bytes, clock: nat) returns (actions: seq<Action>, t: State)
    requires AtRest(c, s) && s.phase.Idle? && s.mem.active == [] && k != [] && |k| < 0x8000 && |v| < 0x1_0000
    requires Size(Hlc.Tick(clock, s.counter)) <= 8
    ensures Run(c, s, actions) == Some(t) && AtRest(c, t) && t.phase == Published([Entry(k, v)], s.mem.tables)
    ensures t.disk.ssts == s.disk.ssts && t.disk.tmps == s.disk.tmps && t.found == s.found
    ensures t.counter == Hlc.Tick(clock, s.counter) && t.durable == s.durable + map[k := v]
  {
    hide Run, AtRest, Hlc.Tick, Size, RecordLength;
    var s1 := BeginPath(c, s);
    var a2, s2 := InsertPath(c, s1, k, v);
    var a3, s3 := LogCommitPath(c, s2, clock);
    t := PublishPath(c, s3);
    RunConcat(c, s, [Begin], s1, a2, s2);
    RunConcat(c, s, [Begin] + a2, s2, a3, s3);
    RunConcat(c, s, [Begin] + a2 + a3, s3, [Publish], t);
    actions := [Begin] + a2 + a3 + [Publish];
    var m: Map := map[];
    assert m[k := v] == map[k := v];
  }

  /** Opening an empty directory. */
  lemma OpenedEmpty(c: Config) returns (t: State)
    ensures Run(c, Init(), [Load, TruncateWal]) == Some(t) && AtRest(c, t) && t.phase.Idle? && t.mem.active == []
    ensures t.disk == Disk([], map[], map[]) && t.found == {} && t.counter == 0 && t.durable == map[]
  {
    hide Run, AtRest, Sound, Recovered;
    InitInv(c);
    t := LoadPath(c, Init());
    EmptyLog(c, Init().disk);
  }

  lemma EmptyLog(c: Config, d: Disk)
    requires d.wal == []
    ensures Recovered(c.crc, d) == ReadableState([], Listing(d.ssts))
    ensures View(Recovered(c.crc, d)) == TablesMap(Listing(d.ssts))
  {
    hide Listing;
    ReadNothing(c.crc, 0);
    var m := TablesMap(Listing(d.ssts));
    assert m + map[] == m;
  }

  //
  // Two crashes
  //

  /** A run that loses a committed write: commit it, then crash and open twice. */
  lemma LostUpdate(c: Config, k: Bytes, v: Bytes) returns (actions: seq<Action>, s: State)
    requires k != [] && |k| < 0x8000 && |v| < 0x1_0000
    ensures Run(c, Init(), actions) == Some(s) && s.durable == map[k := v]
    ensures Run(c, s, REOPEN_AND_CRASH).Some?
    ensures View(Recovered(c.crc, Run(c, s, REOPEN_AND_CRASH).value.disk)) == map[]
  {
    hide Run, AtRest, Sound, View, Recovered, Size, Hlc.Tick;
    FirstTick();
    var s0 := OpenedEmpty(c);
    var a1, s1 := CommitOne(c, s0, k, v, 0);
    RunConcat(c, Init(), [Load, TruncateWal], s0, a1, s1);
    actions, s := [Load, TruncateWal] + a1, s1;
    AtRestSound(c, s);
    OnlyLogged(c, s);
    var m: Map := map[];
    assert m + map[k := v] == map[k := v];
  }

  lemma FirstTick()
    ensures Hlc.Tick(0, 0) == 1 && Size(1) <= 8
  {
    assert Size(1) == 1;
  }

  lemma OnlyLogged(c: Config, s: State)
    requires Sound(c, s) && s.disk.tmps == map[] && s.disk.ssts == map[]
    ensures Run(c, s, REOPEN_AND_CRASH).Some?
    ensures View(Recovered(c.crc, Run(c, s, REOPEN_AND_CRASH).value.disk)) == map[]
  {
    assert Tables(s) == map[];
    hide Run, Sound, LogInv, PhaseInv, ViewInv, CommitPosInv, View, Recovered, Tables, Logged;
    SoundParts(c, s);
    SecondCrash(c, s);
  }

  //
  // A clock that is behind
  //

  /** The moves of a flush, from the publication of its commit to the reset of the log. */
  function FlushActions(clock: nat, file: Bytes): seq<Action> {
    [Decide(clock)] + ([TmpWrite(|file|)] + ([Rename] + ([Swap] + ([ResetWal] + []))))
  }

  predicate MayFlush(c: Config, s: State, clock: nat) {
    && s.phase.Published? && Footprint(s.phase.fork) >= c.threshold
    && Addressable(c.h, s.phase.fork, Hlc.Tick(clock, s.counter), Hlc.Tick(clock, s.counter))
  }

  function FlushedAt(c: Config, s: State, clock: nat): Bytes
    requires s.phase.Published?
  {
    FileBytes(c.h, s.phase.fork, Hlc.Tick(clock, s.counter), Hlc.Tick(clock, s.counter))
  }

  /** What a flush leaves, whatever the clock. */
  lemma FlushMoves(c: Config, s: State, clock: nat) returns (t: State)
    requires MayFlush(c, s, clock)
    ensures Moves(c, s, FlushActions(clock, FlushedAt(c, s, clock))) == Some(t)
    ensures
      var ts, file := Hlc.Tick(clock, s.counter), FlushedAt(c, s, clock);
      && t.disk.wal == [] && t.disk.ssts == s.disk.ssts[ts := file] && t.durable == s.durable
      && t.mem == ReadableState([], [Table(ts, file)] + s.phase.base)
  {
    hide Moves, FileBytes, Addressable, Footprint, Hlc.Tick;
    var ts, file := Hlc.Tick(clock, s.counter), FlushedAt(c, s, clock);
    var s1 := FlushStarted(s, ts);
    var s2 := TmpWritten(c, s1, |file|);
    assert file[..|file|] == file;
    var s3 := RenameDone(s2);
    var s4 := SwapDone(s3);
    t := ResetDone(s4);
    assert Moves(c, t, []) == Some(t) by { NoMoves(c, t); }
    MovesCons(c, s4, ResetWal, t, [], t);
    MovesCons(c, s3, Swap, s4, [ResetWal] + [], t);
    MovesCons(c, s2, Rename, s3, [Swap] + ([ResetWal] + []), t);
    MovesCons(c, s1, TmpWrite(|file|), s2, [Rename] + ([Swap] + ([ResetWal] + [])), t);
    MovesCons(c, s, Decide(clock), s1, [TmpWrite(|file|)] + ([Rename] + ([Swap] + ([ResetWal] + []))), t);
  }

  lemma NoMoves(c: Config, t: State)
    ensures Moves(c, t, []) == Some(t)
  {
  }

  lemma PublishedBase(c: Config, s: State)
    requires PhaseInv(c, s) && TablesInv(s) && s.phase.Published?
    ensures s.phase.base == s.mem.tables == Listing(s.disk.ssts)
    ensures s.phase.fork == s.mem.active && MemInv(s)
  {
    hide Listing, MemInv, AllCommitted;
  }

  /**
    * After a flush in any reachable state, opening rebuilds the list in memory if and only if the new name is
    * past those of all table files. For the names taken since opening it always is, so that it is enough to be
    * past those found then.
    */
  lemma FlushOrder(c: Config, s: State, clock: nat)
    requires Inv(c, s) && MayFlush(c, s, clock)
    ensures
      var t := Moves(c, s, FlushActions(clock, FlushedAt(c, s, clock)));
      && t.Some?
      && (Recovered(c.crc, t.value.disk).tables == t.value.mem.tables
          <==> forall n :: n in s.disk.ssts ==> n < Hlc.Tick(clock, s.counter))
    ensures PastFound(s, Hlc.Tick(clock, s.counter)) ==> forall n :: n in s.disk.ssts ==> n < Hlc.Tick(clock, s.counter)
  {
    hide Inv, Sound, PhaseInv, LogInv, ViewInv, CommitPosInv, TablesInv, NamesInv, DurableInv, MemInv;
    hide Moves, FlushActions, FlushedAt, MayFlush, Listing, Hlc.Tick, PastFound;
    var t := FlushMoves(c, s, clock);
    assert s.phase.Published? by { hide Addressable, Footprint; MayFlushPhase(c, s, clock); }
    Parts(c, s);
    PublishedBase(c, s);
    EmptyLog(c, t.disk);
    RecencyKept(s.disk.ssts, Hlc.Tick(clock, s.counter), FlushedAt(c, s, clock));
    if PastFound(s, Hlc.Tick(clock, s.counter)) {
      NewestTime(s, clock);
    }
  }

  lemma MayFlushPhase(c: Config, s: State, clock: nat)
    requires MayFlush(c, s, clock)
    ensures s.phase.Published? && Up(s)
  {
  }

  //
  // What a flush under any name loses
  //

  /** The table files with a smaller name, and with a greater one. */
  function Below(ssts: map<nat, Bytes>, ts: nat): map<nat, Bytes> { map n | n in ssts && n < ts :: ssts[n] }

  function Above(ssts: map<nat, Bytes>, ts: nat): map<nat, Bytes> { map n | n in ssts && n > ts :: ssts[n] }

  /** What the file of that name holds. */
  function Taken(ssts: map<nat, Bytes>, ts: nat): Map {
    if ts in ssts then TableMap(Table(ts, ssts[ts])) else map[]
  }

  /** Where the newest name goes when the others are split. */
  lemma SplitNewest(ssts: map<nat, Bytes>, ts: nat, x: nat)
    requires IsNewest(ssts.Keys, x)
    ensures x > ts ==> IsNewest(Above(ssts, ts).Keys, x) && Above(ssts, ts)[x] == ssts[x]
    ensures x > ts ==> Below(ssts - {x}, ts) == Below(ssts, ts) && Above(ssts - {x}, ts) == Above(ssts, ts) - {x}
    ensures x < ts ==> IsNewest(Below(ssts, ts).Keys, x) && Below(ssts, ts)[x] == ssts[x]
    ensures x < ts ==> Below(ssts - {x}, ts) == Below(ssts, ts) - {x}
    ensures x == ts ==> Below(ssts - {x}, ts) == Below(ssts, ts)
    ensures x <= ts ==> Above(ssts - {x}, ts) == Above(ssts, ts) == map[]
  {
    assert x in ssts.Keys;
  }

  lemma TakenNewest(ssts: map<nat, Bytes>, ts: nat, x: nat)
    requires IsNewest(ssts.Keys, x)
    ensures x > ts ==> Taken(ssts - {x}, ts) == Taken(ssts, ts)
    ensures x < ts ==> Taken(ssts - {x}, ts) == Taken(ssts, ts) == map[]
    ensures x == ts ==> Taken(ssts - {x}, ts) == map[] && Taken(ssts, ts) == TableMap(Table(x, ssts[x]))
  {
    hide TableMap;
    assert x in ssts.Keys;
  }

  /** The tables, split at a name. */
  lemma {:induction false} SplitTables(ssts: map<nat, Bytes>, ts: nat)
    ensures TablesMap(Listing(ssts))
            == TablesMap(Listing(Below(ssts, ts))) + Taken(ssts, ts) + TablesMap(Listing(Above(ssts, ts)))
    decreases |ssts.Keys|
  {
    hide TableMap, TablesMap, Listing, Below, Above, Taken, IsNewest;
    NoTables();
    if ssts.Keys == {} {
      SplitEmpty(ssts, ts);
    } else {
      var x := Newest(ssts.Keys);
      var rest := ssts - {x};
      assert rest.Keys == ssts.Keys - {x};
      assert x in ssts.Keys by { IsIn(ssts.Keys, x); }
      TablesOfNewest(ssts, x);
      SplitTables(rest, ts);
      SplitNewest(ssts, ts, x);
      TakenNewest(ssts, ts, x);
      var m := TableMap(Table(x, ssts[x]));
      NothingUnlogged(TablesMap(Listing(Below(rest, ts))));
      NothingUnlogged(TablesMap(Listing(Below(rest, ts))) + m);
      if x > ts {
        TablesOfNewest(Above(ssts, ts), x);
        OverlayAssoc(TablesMap(Listing(Below(rest, ts))) + Taken(rest, ts), TablesMap(Listing(Above(rest, ts))), m);
      } else if x < ts {
        TablesOfNewest(Below(ssts, ts), x);
      }
    }
  }

  lemma IsIn(names: set<nat>, x: nat)
    requires IsNewest(names, x)
    ensures x in names
  {
  }

  lemma NoTables()
    ensures TablesMap(Listing(map[])) == map[]
  {
  }

  lemma SplitEmpty(ssts: map<nat, Bytes>, ts: nat)
    requires ssts.Keys == {}
    ensures ssts == Below(ssts, ts) == Above(ssts, ts) == map[] && Taken(ssts, ts) == map[]
  {
    assert ssts == map[];
  }

  lemma TablesOfNewest(ssts: map<nat, Bytes>, x: nat)
    requires IsNewest(ssts.Keys, x)
    ensures TablesMap(Listing(ssts)) == TablesMap(Listing(ssts - {x})) + TableMap(Table(x, ssts[x]))
  {
    hide TableMap;
    assert x in ssts.Keys;
    assert Newest(ssts.Keys) == x;
    assert (ssts - {x}).Keys == ssts.Keys - {x};
    TablesCons(Table(x, ssts[x]), Listing(ssts - {x}));
  }

  /**
    * A flush of these writes under this name loses nothing: no table under a greater name hides one of them behind
    * another value, and what the file it replaces held, and nothing newer holds, is held below it too.
    */
  ghost predicate LosesNothing(ssts: map<nat, Bytes>, ts: nat, writes: Map) {
    var below, above := TablesMap(Listing(Below(ssts, ts))), TablesMap(Listing(Above(ssts, ts)));
    && (forall k :: k in writes && k in above ==> above[k] == writes[k])
    && forall k :: k in Taken(ssts, ts) && k !in above && k !in writes ==>
         k in below && below[k] == Taken(ssts, ts)[k]
  }

  /** A name past all others loses nothing. */
  lemma TimelyLosesNothing(ssts: map<nat, Bytes>, ts: nat, writes: Map)
    requires forall n :: n in ssts ==> n < ts
    ensures LosesNothing(ssts, ts, writes)
  {
    hide TablesMap, Listing;
    assert Above(ssts, ts) == map[];
    NoTables();
  }

  lemma OverlayIff(below: Map, taken: Map, above: Map, writes: Map)
    ensures below + writes + above == below + taken + above + writes
            <==> (forall k :: k in writes && k in above ==> above[k] == writes[k])
                 && forall k :: k in taken && k !in above && k !in writes ==> k in below && below[k] == taken[k]
  {
    var got, all := below + writes + above, below + taken + above + writes;
    if got == all {
      forall k | k in writes && k in above ensures above[k] == writes[k] {
        assert got[k] == above[k] && all[k] == writes[k];
      }
      forall k | k in taken && k !in above && k !in writes ensures k in below && below[k] == taken[k] {
        assert k in all && all[k] == taken[k];
        assert k in got;
      }
    }
    if (forall k :: k in writes && k in above ==> above[k] == writes[k])
       && forall k :: k in taken && k !in above && k !in writes ==> k in below && below[k] == taken[k] {
      assert got.Keys == all.Keys;
      assert forall k :: k in all ==> got[k] == all[k];
    }
  }

  /** The tables once a file is written under a name, free or taken. */
  lemma TablesUnder(ssts: map<nat, Bytes>, ts: nat, file: Bytes)
    ensures TablesMap(Listing(ssts[ts := file]))
            == TablesMap(Listing(Below(ssts, ts))) + TableMap(Table(ts, file)) + TablesMap(Listing(Above(ssts, ts)))
  {
    hide TableMap, TablesMap, Listing;
    SplitTables(ssts[ts := file], ts);
    assert Below(ssts[ts := file], ts) == Below(ssts, ts);
    assert Above(ssts[ts := file], ts) == Above(ssts, ts);
  }

  /**
    * After a flush in any reachable state, whatever the clock, opening shows everything committed if and only if the
    * flush loses nothing.
    */
  lemma FlushShows(c: Config, s: State, clock: nat)
    requires Inv(c, s) && MayFlush(c, s, clock)
    ensures
      var t := Moves(c, s, FlushActions(clock, FlushedAt(c, s, clock)));
      && t.Some? && t.value.durable == s.durable
      && (View(Recovered(c.crc, t.value.disk)) == s.durable
          <==> LosesNothing(s.disk.ssts, Hlc.Tick(clock, s.counter), ToMap(s.phase.fork)))
    ensures PastFound(s, Hlc.Tick(clock, s.counter)) ==>
      LosesNothing(s.disk.ssts, Hlc.Tick(clock, s.counter), ToMap(s.phase.fork))
  {
    hide Inv, Sound, PhaseInv, LogInv, ViewInv, CommitPosInv, TablesInv, NamesInv, DurableInv, MemInv;
    hide Moves, FlushActions, FlushedAt, MayFlush, Listing, TablesMap, TableMap, ToMap, Hlc.Tick, View, Recovered;
    var t := FlushMoves(c, s, clock);
    assert s.phase.Published? by { hide Addressable, Footprint; MayFlushPhase(c, s, clock); }
    var ssts, ts, file := s.disk.ssts, Hlc.Tick(clock, s.counter), FlushedAt(c, s, clock);
    EmptyLog(c, t.disk);
    TablesUnder(ssts, ts, file);
    SplitTables(ssts, ts);
    FlushedMap(c, s, clock);
    hide Taken, Below, Above, PastFound;
    if PastFound(s, ts) {
      Parts(c, s);
      NewestTime(s, clock);
      TimelyLosesNothing(ssts, ts, ToMap(s.phase.fork));
    }
    OverlayIff(TablesMap(Listing(Below(ssts, ts))), Taken(ssts, ts), TablesMap(Listing(Above(ssts, ts))),
               ToMap(s.phase.fork));
  }

  /** What is committed is the tables with the MemTable that is flushed, and that is what the file holds. */
  lemma FlushedMap(c: Config, s: State, clock: nat)
    requires Inv(c, s) && MayFlush(c, s, clock)
    ensures s.phase.Published? && s.durable == TablesMap(Listing(s.disk.ssts)) + ToMap(s.phase.fork)
    ensures TableMap(Table(Hlc.Tick(clock, s.counter), FlushedAt(c, s, clock))) == ToMap(s.phase.fork)
  {
    hide Inv, Sound, LogInv, CommitPosInv, TablesInv, NamesInv, DurableInv, PhaseInv, Listing, TablesMap, ToMap, Logged;
    hide Contents, FileBytes, Footprint, Hlc.Tick, ShowCommits, Addressable, Storable;
    Parts(c, s);
    PublishedBase(c, s);
    var ts := Hlc.Tick(clock, s.counter);
    StorableParts(s.mem.active);
    ContentsOfWritten(c.h, s.phase.fork, ts, ts);
  }

  lemma StorableParts(es: seq<Entry>)
    requires Storable(es)
    ensures Sorted(es) && Bounded(es)
  {
  }

  /** The newest table that holds a key decides. */
  lemma {:induction false} NewestHolds(ssts: map<nat, Bytes>, k: Bytes, n: nat)
    requires n in ssts && k in TableMap(Table(n, ssts[n]))
    requires forall m :: m in ssts && m > n ==> k !in TableMap(Table(m, ssts[m]))
    ensures k in TablesMap(Listing(ssts)) && TablesMap(Listing(ssts))[k] == TableMap(Table(n, ssts[n]))[k]
    decreases |ssts.Keys|
  {
    hide TableMap;
    var x := Newest(ssts.Keys);
    var rest := ssts - {x};
    assert rest.Keys == ssts.Keys - {x};
    assert ([Table(x, ssts[x])] + Listing(rest))[1..] == Listing(rest);
    if x != n { NewestHolds(rest, k, n); }
  }

  /** A table flushed under a smaller name is hidden, for every key that a table with a greater one holds. */
  lemma HiddenByOlder(c: Config, s: State, clock: nat, n: nat, k: Bytes)
    requires MayFlush(c, s, clock) && n in s.disk.ssts && k in TableMap(Table(n, s.disk.ssts[n]))
    requires n > Hlc.Tick(clock, s.counter)
    ensures
      var t := Moves(c, s, FlushActions(clock, FlushedAt(c, s, clock)));
      && t.Some? && k in Tables(s) && k in View(Recovered(c.crc, t.value.disk))
      && View(Recovered(c.crc, t.value.disk))[k] == Tables(s)[k]
  {
    hide Moves, FlushActions, FlushedAt, MayFlush, Listing, TablesMap, TableMap, Hlc.Tick, View, Recovered;
    var t := FlushMoves(c, s, clock);
    EmptyLog(c, t.disk);
    var ssts := s.disk.ssts;
    var holders := set m | m in ssts && k in TableMap(Table(m, ssts[m]));
    assert n in holders;
    var x := Newest(holders);
    assert forall m :: m in holders <==> m in ssts && k in TableMap(Table(m, ssts[m]));
    NewestHolds(ssts, k, x);
    NewestHolds(t.disk.ssts, k, x);
  }

  /** Open an empty directory, commit, flush, and crash. */
  lemma FirstTable(c: Config, k: Bytes, v: Bytes, clock: nat) returns (actions: seq<Action>, t: State)
    requires k != [] && |k| < 0x8000 && |v| < 0x1_0000 && c.threshold <= |k| + |v| && Size(Hlc.Tick(clock, 0)) <= 8
    requires
      var ts := Hlc.Tick(clock, Hlc.Tick(clock, 0));
      Addressable(c.h, [Entry(k, v)], ts, ts)
    ensures Run(c, Init(), actions) == Some(t) && AtRest(c, t) && t.phase.Idle?
    ensures
      var ts := Hlc.Tick(clock, Hlc.Tick(clock, 0));
      t.disk == Disk([], map[], map[ts := FileBytes(c.h, [Entry(k, v)], ts, ts)])
  {
    hide Run, AtRest, Sound, Hlc.Tick, Size, FileBytes, Addressable, Recovered;
    var s0 := OpenedEmpty(c);
    var a1, s1 := CommitOne(c, s0, k, v, clock);
    assert Footprint([Entry(k, v)]) == |k| + |v| by { FootprintOne(k, v); }
    hide Footprint;
    var a2, tmp, s2 := FlushPath(c, s1, clock);
    var swapped := SwapPath(c, s2);
    var s3 := ResetPath(c, swapped);
    var a3 := [Swap] + [ResetWal];
    RunConcat(c, s2, [Swap], swapped, [ResetWal], s3);
    RunConcat(c, Init(), [Load, TruncateWal], s0, a1, s1);
    RunConcat(c, Init(), [Load, TruncateWal] + a1, s1, a2, s2);
    RunConcat(c, Init(), [Load, TruncateWal] + a1 + a2, s2, a3, s3);
    actions, t := [Load, TruncateWal] + a1 + a2 + a3, s3;
    assert t.disk.tmps == map[];
  }

  lemma OneEntry(k: Bytes, v: Bytes)
    ensures ToMap([Entry(k, v)]) == map[k := v]
  {
    assert [Entry(k, v)][1..] == [];
  }

  lemma OneTable(ts: nat, file: Bytes)
    ensures Listing(map[ts := file]) == [Table(ts, file)]
    ensures TablesMap(Listing(map[ts := file])) == TableMap(Table(ts, file))
  {
    hide TableMap;
    var ssts := map[ts := file];
    assert ssts.Keys == {ts};
    assert Newest(ssts.Keys) == ts;
    assert (ssts - {ts}).Keys == {};
    assert [Table(ts, file)][1..] == [];
    var m := TableMap(Table(ts, file));
    assert map[] + m == m;
  }

  lemma TableOfOne(c: Config, k: Bytes, v: Bytes, ts: nat)
    requires |k| < 0x1_0000 && |v| < 0x1_0000 && Addressable(c.h, [Entry(k, v)], ts, ts)
    ensures TableMap(Table(ts, FileBytes(c.h, [Entry(k, v)], ts, ts))) == map[k := v]
  {
    hide FileBytes, Contents, ToMap, Addressable;
    ContentsOfWritten(c.h, [Entry(k, v)], ts, ts);
    OneEntry(k, v);
  }

  /** A crash of a store without a log, and the next opening: the tables, and a counter that starts again. */
  lemma Reopened(c: Config, s: State) returns (t: State)
    requires AtRest(c, s) && s.disk.wal == [] && s.disk.tmps == map[]
    ensures Run(c, s, [Crash] + [Load, TruncateWal]) == Some(t) && AtRest(c, t) && t.phase.Idle? && t.counter == 0
    ensures t.mem == ReadableState([], Listing(s.disk.ssts)) && t.disk == s.disk
    ensures t.durable == TablesMap(Listing(s.disk.ssts))
  {
    hide Run, Sound, FilesOpen, Listing, TablesMap, View, Recovered;
    var s1 := Crashed(c, s);
    KeepsCrash(c, s);
    t := LoadPath(c, s1);
    RunOne(c, s, Crash, s1);
    RunConcat(c, s, [Crash], s1, [Load, TruncateWal], t);
    EmptyLog(c, s.disk);
  }

  /** Up to the second flush: an older table, and a counter that has started again, at any clock. */
  lemma LateCommit(c: Config, k: Bytes, v: Bytes, l: Bytes, w: Bytes, clock: nat, late: nat)
    returns (actions: seq<Action>, s: State)
    requires k != [] && |k| < 0x8000 && |v| < 0x1_0000 && l != [] && |l| < 0x8000 && |w| < 0x1_0000
    requires c.threshold <= |k| + |v| && Size(Hlc.Tick(clock, 0)) <= 8 && Size(Hlc.Tick(late, 0)) <= 8
    requires var ts := Hlc.Tick(clock, Hlc.Tick(clock, 0)); Addressable(c.h, [Entry(k, v)], ts, ts)
    ensures Run(c, Init(), actions) == Some(s) && s.phase.Published? && s.phase.fork == [Entry(l, w)]
    ensures s.counter == Hlc.Tick(late, 0) && s.durable == map[k := v] + map[l := w]
    ensures
      var ts := Hlc.Tick(clock, Hlc.Tick(clock, 0));
      && s.disk.ssts == map[ts := FileBytes(c.h, [Entry(k, v)], ts, ts)]
      && Tables(s) == TableMap(Table(ts, s.disk.ssts[ts])) == map[k := v]
  {
    hide Run, AtRest, Size, FileBytes, Addressable, TableMap, Listing, TablesMap, Hlc.Tick, Init;
    var ts := Hlc.Tick(clock, Hlc.Tick(clock, 0));
    var a1, s1 := FirstTable(c, k, v, clock);
    var s2 := Reopened(c, s1);
    TableOfOne(c, k, v, ts);
    OneTable(ts, FileBytes(c.h, [Entry(k, v)], ts, ts));
    var a3, s3 := CommitOne(c, s2, l, w, late);
    RunConcat(c, Init(), a1, s1, [Crash] + [Load, TruncateWal], s2);
    RunConcat(c, Init(), a1 + ([Crash] + [Load, TruncateWal]), s2, a3, s3);
    actions, s := a1 + ([Crash] + [Load, TruncateWal]) + a3, s3;
  }

  lemma LateFlush(c: Config, s: State, ts: nat, k: Bytes, v: Bytes) returns (t: State)
    requires MayFlush(c, s, 0) && s.disk.ssts.Keys == {ts} && ts > Hlc.Tick(0, s.counter)
    requires Tables(s) == TableMap(Table(ts, s.disk.ssts[ts])) == map[k := v]
    ensures Moves(c, s, FlushActions(0, FlushedAt(c, s, 0))) == Some(t) && t.durable == s.durable
    ensures k in View(Recovered(c.crc, t.disk)) && View(Recovered(c.crc, t.disk))[k] == v
  {
    hide Moves, FlushActions, FlushedAt, MayFlush, Tables, TableMap, Hlc.Tick, View, Recovered;
    t := FlushMoves(c, s, 0);
    HiddenByOlder(c, s, 0, ts, k);
  }

  /**
    * A run that commits, flushes and publishes a write, after which opening shows the value it replaced: after a
    * crash the clock has gone back, and the new table takes the smaller name 2.
    */
  lemma ClockBehind(c: Config, k: Bytes, v: Bytes, w: Bytes, clock: nat)
    returns (actions: seq<Action>, s: State, t: State)
    requires k != [] && |k| < 0x8000 && |v| < 0x1_0000 && |w| < 0x1_0000
    requires c.threshold <= |k| + |v| && c.threshold <= |k| + |w| && clock >= 256 && Size(Hlc.Tick(clock, 0)) <= 8
    requires var ts := Hlc.Tick(clock, Hlc.Tick(clock, 0)); Addressable(c.h, [Entry(k, v)], ts, ts)
    requires Addressable(c.h, [Entry(k, w)], 2, 2)
    ensures Run(c, Init(), actions) == Some(s) && s.phase.Published?
    ensures Moves(c, s, FlushActions(0, FlushedAt(c, s, 0))) == Some(t) && t.durable == map[k := w]
    ensures k in View(Recovered(c.crc, t.disk)) && View(Recovered(c.crc, t.disk))[k] == v
  {
    hide *;
    FirstTick();
    Times(clock);
    actions, s := LateCommit(c, k, v, k, w, clock, 0);
    Overwritten(k, v, w);
    LateMayFlush(c, s, k, w);
    OnlyName(s.disk.ssts, Hlc.Tick(clock, Hlc.Tick(clock, 0)),
             FileBytes(c.h, [Entry(k, v)], Hlc.Tick(clock, Hlc.Tick(clock, 0)), Hlc.Tick(clock, Hlc.Tick(clock, 0))));
    t := LateFlush(c, s, Hlc.Tick(clock, Hlc.Tick(clock, 0)), k, v);
  }

  lemma OnlyName(ssts: map<nat, Bytes>, ts: nat, file: Bytes)
    requires ssts == map[ts := file]
    ensures ssts.Keys == {ts}
  {
  }

  lemma LateMayFlush(c: Config, s: State, k: Bytes, w: Bytes)
    requires s.phase.Published? && s.phase.fork == [Entry(k, w)] && s.counter == 1
    requires c.threshold <= |k| + |w| && Addressable(c.h, [Entry(k, w)], 2, 2)
    ensures MayFlush(c, s, 0) && Hlc.Tick(0, s.counter) == 2
  {
    hide Addressable, Footprint;
    FootprintOne(k, w);
  }

  /**
    * A run at one reading of the clock, so that no clock has gone back: after a crash the counter starts again and
    * the new table takes the name of the old one, whose write is gone.
    */
  lemma RestartInWindow(c: Config, k: Bytes, v: Bytes, l: Bytes, w: Bytes, clock: nat)
    returns (actions: seq<Action>, s: State, t: State)
    requires k != [] && |k| < 0x8000 && |v| < 0x1_0000 && l != [] && |l| < 0x8000 && |w| < 0x1_0000 && k != l
    requires c.threshold <= |k| + |v| && c.threshold <= |l| + |w| && Size(Hlc.Tick(clock, 0)) <= 8
    requires
      var ts := Hlc.Tick(clock, Hlc.Tick(clock, 0));
      Addressable(c.h, [Entry(k, v)], ts, ts) && Addressable(c.h, [Entry(l, w)], ts, ts)
    ensures Run(c, Init(), actions) == Some(s) && s.phase.Published?
    ensures Moves(c, s, FlushActions(clock, FlushedAt(c, s, clock))) == Some(t)
    ensures t.durable == map[k := v, l := w] && View(Recovered(c.crc, t.disk)) == map[l := w]
  {
    FootprintOne(l, w);
    hide Run, Size, FileBytes, Addressable, Recovered, View, Footprint, Moves, FlushActions, TableMap, Tables;
    hide Hlc.Tick, Init, Listing, TablesMap;
    var ts := Hlc.Tick(clock, Hlc.Tick(clock, 0));
    actions, s := LateCommit(c, k, v, l, w, clock, clock);
    assert map[k := v] + map[l := w] == map[k := v, l := w];
    assert MayFlush(c, s, clock);
    t := FlushMoves(c, s, clock);
    var file := FileBytes(c.h, [Entry(l, w)], ts, ts);
    assert t.disk.ssts == map[ts := file];
    EmptyLog(c, t.disk);
    TableOfOne(c, l, w, ts);
    OneTable(ts, file);
  }

  lemma Overwritten(k: Bytes, v: Bytes, w: Bytes)
    ensures map[k := v] + map[k := w] == map[k := w]
  {
  }

  lemma Times(clock: nat)
    requires clock >= 256
    ensures Hlc.Tick(0, 1) == 2 && Hlc.Tick(clock, Hlc.Tick(clock, 0)) > 2
  {
  }
}
