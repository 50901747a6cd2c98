/** What holds over whole runs of the store: crash consistency, snapshot isolation, order of the tables. */
module Runs {
  import opened ByteStrings
  import opened Entries
  import opened SstFormat
  import opened SstReaders
  import opened Wals
  import opened Recovery
  import opened Store
  import Hlc

  /**
    * The state after the moves, if each applies in turn. The clock may give a table file any name, also one that is
    * not past those of older files.
    */
  ghost function Moves(c: Config, s: State, actions: seq<Action>): Option<State>
    decreases |actions|
  {
    if actions == [] then Some(s)
    else
      match Move(c, s, actions[0])
      case None => None
      case Some(t) => Moves(c, t, actions[1..])
  }

  /** The same by steps: flushes are timely. */
  ghost function Run(c: Config, s: State, actions: seq<Action>): Option<State>
    decreases |actions|
  {
    if actions == [] then Some(s)
    else
      match Step(c, s, actions[0])
      case None => None
      case Some(t) => Run(c, t, actions[1..])
  }

  lemma {:induction false} RunMoves(c: Config, s: State, actions: seq<Action>, t: State)
    requires Run(c, s, actions) == Some(t)
    ensures Moves(c, s, actions) == Some(t)
    decreases |actions|
  {
    hide Move, Timely;
    if actions != [] { RunMoves(c, Step(c, s, actions[0]).value, actions[1..], t); }
  }

  lemma {:induction false} MovesKeepSound(c: Config, s: State, actions: seq<Action>, t: State)
    requires Sound(c, s) && Moves(c, s, actions) == Some(t)
    ensures Sound(c, t)
    decreases |actions|
  {
    hide Sound, Move;
    if actions != [] {
      var next := Move(c, s, actions[0]).value;
      MoveKeepsSound(c, s, actions[0], next);
      MovesKeepSound(c, next, actions[1..], t);
    }
  }

  lemma {:induction false} RunKeepsInv(c: Config, s: State, actions: seq<Action>, t: State)
    requires Inv(c, s) && Run(c, s, actions) == Some(t)
    ensures Inv(c, t)
    decreases |actions|
  {
    hide Inv, Step;
    if actions != [] {
      var next := Step(c, s, actions[0]).value;
      StepKeepsInv(c, s, actions[0], next);
      RunKeepsInv(c, next, actions[1..], t);
    }
  }

  /** The invariant holds in every reachable state. */
  lemma ReachableInv(c: Config, actions: seq<Action>, s: State)
    requires Run(c, Init(), actions) == Some(s)
    ensures Inv(c, s)
  {
    hide Inv, Step, Run, Init;
    InitInv(c);
    RunKeepsInv(c, Init(), actions, s);
  }

  //
  // Crash consistency
  //

  /** Nothing that only memory holds would be missed: it is in the log or in a table too. */
  predicate Covered(unlogged: Map, tables: Map, logged: Map) {
    forall k :: k in unlogged ==> k in logged || (k in tables && tables[k] == unlogged[k])
  }

  lemma CoveredIff(unlogged: Map, tables: Map, logged: Map)
    ensures tables + logged == tables + unlogged + logged <==> Covered(unlogged, tables, logged)
  {
    var less, all := tables + logged, tables + unlogged + logged;
    if Covered(unlogged, tables, logged) {
      assert less.Keys == all.Keys;
      assert forall k :: k in all ==> less[k] == all[k];
    }
    if less == all {
      forall k | k in unlogged && k !in logged ensures k in tables && tables[k] == unlogged[k] {
        assert k in all && all[k] == unlogged[k];
        assert k in less;
      }
    }
  }

  /** What is in one of two maps and in the other not, or another value, is decided by the third. */
  ghost predicate AgreeBut(a: Map, b: Map, l: Map) {
    forall k :: (k in a || k in b) && k !in l ==> k in a && k in b && a[k] == b[k]
  }

  lemma AgreeIff(a: Map, b: Map, l: Map)
    ensures a + l == b + l <==> AgreeBut(a, b, l)
  {
    if AgreeBut(a, b, l) {
      assert (a + l).Keys == (b + l).Keys;
    }
    if a + l == b + l {
      forall k | (k in a || k in b) && k !in l ensures k in a && k in b && a[k] == b[k] {
        assert k in a + l <==> k in a;
        assert k in b + l <==> k in b;
      }
    }
  }

  /**
    * A crash after any moves, whatever the clock: opening shows the tables of the directory, overlaid with the log.
    * That is what was committed if and only if the directory holds what memory holds apart from the log. The crash
    * restores the invariant, so that all that follows from it holds of the steps that come next.
    */
  lemma CrashAfterMoves(c: Config, actions: seq<Action>, s: State)
    requires Moves(c, Init(), actions) == Some(s)
    ensures Inv(c, Crashed(c, s)) && View(Recovered(c.crc, s.disk)) == Tables(s) + Logged(s)
    ensures Up(s) ==> (View(Recovered(c.crc, s.disk)) == s.durable <==> AgreeBut(Tables(s), Held(s), Logged(s)))
  {
    hide Moves, Init, Inv, LogInv, PhaseInv, ViewInv, CommitPosInv, View, Recovered, Tables, Logged, AgreeBut, Held;
    hide Crashed;
    ReachableSound(c, actions, s);
    SoundParts(c, s);
    CrashRestores(c, s);
    RecoveredView(c, s);
    if Up(s) {
      HeldDurable(c, s);
      AgreeIff(Tables(s), Held(s), Logged(s));
    }
  }

  lemma ReachableSound(c: Config, actions: seq<Action>, s: State)
    requires Moves(c, Init(), actions) == Some(s)
    ensures Sound(c, s)
  {
    hide Sound, Moves, Init, TablesInv, NamesInv;
    InitInv(c);
    MovesKeepSound(c, Init(), actions, s);
  }

  /**
    * A crash in any reachable state, then reopening, shows exactly what was committed, if and only if what
    * was recovered at the last opening and not flushed since is also in the log or in a table.
    */
  lemma CrashConsistency(c: Config, actions: seq<Action>, s: State)
    requires Run(c, Init(), actions) == Some(s)
    ensures View(Recovered(c.crc, s.disk)) == s.durable <==> Covered(s.unlogged, Tables(s), Logged(s))
  {
    hide Run, Inv, Init, LogInv, PhaseInv, ViewInv, CommitPosInv, NamesInv, View, Recovered, Tables, Logged, Covered;
    ReachableInv(c, actions, s);
    Parts(c, s);
    RecoveredView(c, s);
    CoveredIff(s.unlogged, Tables(s), Logged(s));
  }

  lemma OpenedUnlogged(c: Config, s: State)
    requires Sound(c, s) && s.phase.Loaded?
    ensures OpenDone(s).unlogged == Logged(s)
  {
    SoundParts(c, s);
    RecoveredView(c, s);
    hide LogInv, ViewInv, CommitPosInv, Logged, Recovered, ToMap, Storable, Sound;
  }

  /** `unlogged` is what opening replayed, until a flush or a crash. */
  lemma UnloggedChanges(c: Config, s: State, a: Action, t: State)
    requires Sound(c, s) && Move(c, s, a) == Some(t)
    ensures t.unlogged ==
      match a
      case TruncateWal => Logged(s)
      case Rename => map[]
      case Crash => map[]
      case _ => s.unlogged
  {
    hide Sound, PendingBytes, FlushedFile, View, Footprint, Hlc.Tick, Logged, Recovered, Addressable, Size, ToMap;
    hide Insert, RecordDone, Torn, OpenDone;
    if a.TruncateWal? { OpenedUnlogged(c, s); }
    if a.WalWrite? { RecordUnlogged(c, s, a.n, t); }
  }

  lemma RecordUnlogged(c: Config, s: State, n: nat, t: State)
    requires Move(c, s, WalWrite(n)) == Some(t)
    ensures t.unlogged == s.unlogged
  {
    hide PendingBytes, Insert;
  }

  /**
    * What is durable changes only with the last byte of a commit record, by the writes of that transaction,
    * or at a crash.
    */
  lemma DurableChanges(c: Config, s: State, a: Action, t: State)
    requires Move(c, s, a) == Some(t)
    ensures t.durable ==
      if a.Crash? then View(Recovered(c.crc, s.disk))
      else if !s.phase.Committed? && t.phase.Committed? then s.durable + s.phase.puts
      else s.durable
    ensures !s.phase.Committed? && t.phase.Committed? ==>
      && t.phase.puts == s.phase.puts && a.WalWrite?
      && s.phase.Writing? && s.pending.Some? && s.pending.value.timestamp.Some?
      && |s.torn| + a.n == |PendingBytes(c, s)|
  {
    hide PendingBytes, FlushedFile, View, Recovered, Footprint, Hlc.Tick, PastFound, Addressable, Size, ToMap, Insert;
    if a.WalWrite? {
      WriteDurable(c, s, a.n, t);
    } else {
      hide RecordDone, Torn;
    }
  }

  lemma WriteDurable(c: Config, s: State, n: nat, t: State)
    requires Move(c, s, WalWrite(n)) == Some(t)
    ensures s.phase.Writing? && s.pending.Some?
    ensures t.durable == if t.phase.Committed? then s.durable + s.phase.puts else s.durable
    ensures t.phase.Committed? ==> t.phase.puts == s.phase.puts
    ensures t.phase.Committed? ==> s.pending.value.timestamp.Some? && |s.torn| + n == |PendingBytes(c, s)|
  {
    hide PendingBytes, Insert;
  }

  /** The last value given to each key. */
  function PutsOf(actions: seq<Action>): Map {
    if actions == [] then map[]
    else
      var before, a := PutsOf(actions[..|actions| - 1]), actions[|actions| - 1];
      if a.Put? then before[a.key := a.value] else before
  }

  /** What the transaction has written, with a record that is under way. */
  ghost predicate PutsSoFar(s: State, puts: Map)
    requires s.phase.Writing?
  {
    if s.pending.Some? && s.pending.value.timestamp.None?
      then s.phase.puts[s.pending.value.key := s.pending.value.value] == puts
      else s.phase.puts == puts
  }

  /** What the transaction that is under way has written. */
  ghost predicate Putting(s: State, puts: Map) {
    && (s.phase.Writing? ==> PutsSoFar(s, puts))
    && (s.phase.Committed? ==> s.phase.puts == puts)
  }

  lemma PuttingRecord(c: Config, s: State, n: nat, t: State, puts: Map)
    requires Move(c, s, WalWrite(n)) == Some(t) && Putting(s, puts)
    ensures Putting(t, puts)
  {
    hide PendingBytes, Insert;
  }

  lemma PuttingStep(c: Config, s: State, a: Action, t: State, puts: Map)
    requires Move(c, s, a) == Some(t) && !a.Begin? && Putting(s, puts)
    ensures Putting(t, if a.Put? then puts[a.key := a.value] else puts)
  {
    hide PendingBytes, FlushedFile, View, Recovered, Footprint, Hlc.Tick, PastFound, Insert, Addressable, Size, ToMap;
    if a.WalWrite? {
      PuttingRecord(c, s, a.n, t, puts);
    } else {
      hide RecordDone, Torn;
    }
  }

  /** Where a single transaction stands: `before` was durable when it began. */
  ghost predicate Transacting(s: State, before: Map, puts: Map, aborted: bool) {
    && Up(s)
    && s.durable == (if s.phase.Writing? || aborted then before else before + puts)
    && (aborted ==> s.phase.Idle?)
    && Putting(s, puts)
  }

  /** Actions of one transaction after its begin, among those of readers. */
  predicate OfOneTransaction(actions: seq<Action>) {
    Begin !in actions && Crash !in actions
  }

  lemma TransactionStep(c: Config, s: State, a: Action, t: State, before: Map, puts: Map, aborted: bool)
    requires Move(c, s, a) == Some(t) && !a.Begin? && !a.Crash?
    requires Transacting(s, before, puts, aborted)
    ensures Transacting(t, before, if a.Put? then puts[a.key := a.value] else puts, aborted || a.Abort?)
  {
    hide Move, PendingBytes, PutsSoFar, Recovered, View;
    DurableChanges(c, s, a, t);
    PuttingStep(c, s, a, t, puts);
    PhaseSteps(c, s, a, t);
  }

  /** What opening would show. */
  ghost function Shown(s: State): Map { Tables(s) + Logged(s) }

  lemma ShownSame(s: State, t: State)
    requires t.disk.ssts == s.disk.ssts && SameCommits(s, t)
    ensures Shown(t) == Shown(s)
  {
    hide TablesMap, Listing, RecordsMap, Wals.Committed;
  }

  /** The last byte of a commit record adds the writes of its transaction to what opening would show. */
  lemma ShownRecord(c: Config, s: State, n: nat, t: State)
    requires Sound(c, s) && Move(c, s, WalWrite(n)) == Some(t)
    ensures s.phase.Writing?
    ensures Shown(t) == if t.phase.Committed? then Shown(s) + s.phase.puts else Shown(s)
  {
    hide Sound, LogInv, PhaseInv, ViewInv, CommitPosInv, PendingBytes, Insert, Logged, Tables, RecordDone, Torn, Shown;
    SoundParts(c, s);
    if |s.torn| + n < |PendingBytes(c, s)| {
      TornShows(c, s, |s.torn| + n);
    } else {
      PendingLoggable(c, s);
      if s.pending.value.timestamp.Some? { CommitShows(c, s); } else { PutShows(c, s); }
    }
  }

  lemma TornShows(c: Config, s: State, m: nat)
    requires s.pending.Some? && |s.torn| <= m <= |PendingBytes(c, s)|
    ensures Shown(Torn(c, s, m)) == Shown(s) && Torn(c, s, m).phase == s.phase
  {
    hide Shown, PendingBytes;
    ShownFrame(s, Torn(c, s, m));
  }

  lemma CommitShows(c: Config, s: State)
    requires LogInv(c, s) && PhaseInv(c, s) && s.phase.Writing? && s.pending.Some?
    requires s.pending.value.timestamp.Some? && |s.torn| <= |PendingBytes(c, s)|
    ensures RecordDone(c, s).phase.Committed? && Shown(RecordDone(c, s)) == Shown(s) + s.phase.puts
  {
    hide LogInv, PhaseInv, PendingBytes, Insert, Logged, Tables, AllCommitted, ToMap;
    CommitDoneMaps(c, s);
    SameTables(s, RecordDone(c, s));
    OverlayAssoc(Tables(s), Logged(s), s.phase.puts);
  }

  lemma PutShows(c: Config, s: State)
    requires s.phase.Writing? && s.pending.Some?
    requires s.pending.value.timestamp.None? && |s.torn| <= |PendingBytes(c, s)|
    ensures RecordDone(c, s).phase.Writing? && Shown(RecordDone(c, s)) == Shown(s)
  {
    hide PendingBytes, Insert, Logged, Tables;
    PutDoneSame(c, s);
    SameTables(s, RecordDone(c, s));
  }

  lemma ShownAborted(c: Config, s: State, t: State)
    requires Sound(c, s) && Move(c, s, Abort) == Some(t)
    ensures Shown(t) == Shown(s)
  {
    hide Sound, LogInv, PhaseInv, ViewInv, CommitPosInv, Shown, Wals.Committed;
    SoundParts(c, s);
    AbortLogged(c, s);
    ShownSame(s, t);
  }

  /** The other steps that leave the log and the tables alone. */
  predicate Aside(a: Action) {
    !a.WalWrite? && !a.Abort? && !a.Rename? && !a.ResetWal? && !a.TruncateWal?
  }

  lemma ShownAside(c: Config, s: State, a: Action, t: State)
    requires Move(c, s, a) == Some(t) && Aside(a)
    ensures Shown(t) == Shown(s)
  {
    hide Shown, FlushedFile, View, Recovered, Footprint, Hlc.Tick, PastFound, Insert, Addressable, Size, ToMap,
      RecordDone, Torn, Wals.Committed, PendingBytes;
    if a.Crash? {
      assert t.records == s.records && t.disk == s.disk;
      ShownFrame(s, t);
    } else {
      ShownFrame(s, t);
    }
  }

  lemma ShownFrame(s: State, t: State)
    requires t.records == s.records && t.disk.ssts == s.disk.ssts
    ensures Shown(t) == Shown(s)
  {
    hide TablesMap, Listing, RecordsMap, Wals.Committed;
  }

  /** What opening would show in a transaction: `shown` when it began; after the rename, all that is durable. */
  ghost predicate Showing(s: State, shown: Map, puts: Map, aborted: bool, renamed: bool) {
    if renamed then s.unlogged == map[] && !s.phase.Writing? && !aborted
    else
      && !s.phase.Renamed? && !s.phase.Swapped?
      && Shown(s) == (if s.phase.Writing? || aborted then shown else shown + puts)
  }

  /** Which phases the steps lead to. */
  lemma PhaseSteps(c: Config, s: State, a: Action, t: State)
    requires Move(c, s, a) == Some(t) && Up(s) && !a.Begin? && !a.Crash?
    ensures a.Rename? <==> !s.phase.Renamed? && t.phase.Renamed?
    ensures a.Rename? ==> t.unlogged == map[] && !s.phase.Writing? && !s.phase.Idle?
    ensures !a.Rename? ==> t.unlogged == s.unlogged
    ensures a.Swap? ==> s.phase.Renamed?
    ensures a.ResetWal? ==> s.phase.Swapped?
    ensures t.phase.Swapped? ==> s.phase.Renamed? || s.phase.Swapped?
    ensures t.phase.Writing? ==> s.phase.Writing?
    ensures s.phase.Writing? && !t.phase.Writing? ==> a.Abort? || (a.WalWrite? && t.phase.Committed?)
    ensures a.Abort? ==> s.phase.Writing? && t.phase.Idle?
    ensures s.phase.Idle? ==> t.phase.Idle?
    ensures Up(t)
    ensures a.WalWrite? || a.Put? ==> s.phase.Writing?
    ensures !a.TruncateWal?
  {
    hide FlushedFile, View, Recovered, Footprint, Hlc.Tick, PastFound, Insert, Addressable, Size, ToMap, PendingBytes;
    if !a.WalWrite? { hide RecordDone, Torn; }
  }

  lemma ShowingStep(c: Config, s: State, a: Action, t: State, before: Map, shown: Map, puts: Map, aborted: bool,
                    renamed: bool)
    requires Sound(c, s) && Move(c, s, a) == Some(t) && !a.Begin? && !a.Crash?
    requires Transacting(s, before, puts, aborted) && Showing(s, shown, puts, aborted, renamed)
    ensures
      Showing(t, shown, if a.Put? then puts[a.key := a.value] else puts, aborted || a.Abort?, renamed || a.Rename?)
  {
    hide Move, Sound, Shown, PutsSoFar;
    PhaseSteps(c, s, a, t);
    if a.WalWrite? {
      ShownRecord(c, s, a.n, t);
      PuttingStep(c, s, a, t, puts);
      DurableChanges(c, s, a, t);
    } else if a.Abort? {
      ShownAborted(c, s, t);
    } else if Aside(a) {
      ShownAside(c, s, a, t);
    }
  }

  lemma {:induction false} TransactionRun(c: Config, s: State, done: seq<Action>, todo: seq<Action>, t: State,
                                          before: Map, shown: Map)
    requires Sound(c, s) && Moves(c, s, todo) == Some(t) && OfOneTransaction(todo)
    requires Transacting(s, before, PutsOf(done), Abort in done)
    requires Showing(s, shown, PutsOf(done), Abort in done, Rename in done)
    ensures Transacting(t, before, PutsOf(done + todo), Abort in done + todo)
    ensures Showing(t, shown, PutsOf(done + todo), Abort in done + todo, Rename in done + todo)
    decreases |todo|
  {
    hide Transacting, Showing, Move, Sound;
    if todo == [] {
      assert done + todo == done;
    } else {
      var a := todo[0];
      var next := Move(c, s, a).value;
      TransactionStep(c, s, a, next, before, PutsOf(done), Abort in done);
      ShowingStep(c, s, a, next, before, shown, PutsOf(done), Abort in done, Rename in done);
      MoveKeepsSound(c, s, a, next);
      assert (done + [a])[..|done|] == done;
      TransactionRun(c, next, done + [a], todo[1..], t, before, shown);
      assert (done + [a]) + todo[1..] == done + todo;
    }
  }

  /**
    * A crash anywhere in a transaction, among any moves of readers. Until the last byte of its commit record is
    * written, or after it is aborted, opening shows what it would have shown when the transaction began; from
    * then on that map with all its writes. Once a timely flush has renamed its file, opening shows everything
    * durable: also what an earlier opening recovered, which until then is in memory only.
    */
  lemma CrashBeforeOrAfter(c: Config, s: State, actions: seq<Action>, t: State)
    requires Sound(c, s) && s.phase.Idle? && OfOneTransaction(actions) && Moves(c, s, [Begin] + actions) == Some(t)
    ensures
      var before, after := View(Recovered(c.crc, s.disk)), View(Recovered(c.crc, t.disk));
      if t.phase.Writing? || Abort in actions then after == before
      else if Rename !in actions then after == before + PutsOf(actions)
      else Inv(c, s) && Run(c, s, [Begin] + actions) == Some(t) ==> after == s.durable + PutsOf(actions)
    ensures Inv(c, s) && s.unlogged == map[] ==> View(Recovered(c.crc, s.disk)) == s.durable
  {
    hide Move, Sound, TablesInv, NamesInv, Inv, View, Recovered, PutsOf, Shown, Run, Moves;
    TransactionRuns(c, s, actions, t);
    MovesKeepSound(c, s, [Begin] + actions, t);
    SoundShown(c, s);
    SoundShown(c, t);
    if Inv(c, s) {
      RecoveredShown(c, s);
      if Run(c, s, [Begin] + actions) == Some(t) {
        RunKeepsInv(c, s, [Begin] + actions, t);
        RecoveredShown(c, t);
      }
    }
  }

  lemma SoundShown(c: Config, s: State)
    requires Sound(c, s)
    ensures View(Recovered(c.crc, s.disk)) == Shown(s)
  {
    hide View, Recovered, Logged, Tables, LogInv, PhaseInv, ViewInv, CommitPosInv;
    RecoveredView(c, s);
  }

  lemma RecoveredShown(c: Config, s: State)
    requires Inv(c, s)
    ensures s.unlogged == map[] ==> Shown(s) == s.durable
  {
    hide Inv, View, Recovered, Logged, Tables, LogInv, PhaseInv, ViewInv, CommitPosInv, NamesInv;
    Parts(c, s);
    assert Tables(s) + map[] == Tables(s);
  }

  lemma TransactionRuns(c: Config, s: State, actions: seq<Action>, t: State)
    requires Sound(c, s) && s.phase.Idle? && OfOneTransaction(actions)
    requires Moves(c, s, [Begin] + actions) == Some(t)
    ensures Transacting(t, s.durable, PutsOf(actions), Abort in actions)
    ensures Showing(t, Shown(s), PutsOf(actions), Abort in actions, Rename in actions)
  {
    hide Sound, Move, Transacting, Showing, Shown, PutsOf;
    BeginTransacting(c, s);
    var begun := Move(c, s, Begin).value;
    MoveKeepsSound(c, s, Begin, begun);
    assert ([Begin] + actions)[1..] == actions;
    TransactionRun(c, begun, [], actions, t, s.durable, Shown(s));
    assert [] + actions == actions;
  }

  lemma BeginTransacting(c: Config, s: State)
    requires Sound(c, s) && s.phase.Idle?
    ensures Move(c, s, Begin).Some?
    ensures Transacting(Move(c, s, Begin).value, s.durable, PutsOf([]), Abort in [])
    ensures Showing(Move(c, s, Begin).value, Shown(s), PutsOf([]), Abort in [], Rename in [])
  {
    hide Sound, LogInv, ViewInv, CommitPosInv, MemInv, AllCommitted, Shown, Footprint;
    SoundParts(c, s);
    ShownFrame(s, s.(phase := Writing(s.mem.active, s.mem.tables, map[])));
  }

  /** Opening, with the unfinished files already removed, and crashing once more. */
  const REOPEN_AND_CRASH := [Crash, Load, TruncateWal, Crash]

  /**
    * Opening truncates the log it has replayed. After a second crash, what was in the log only is gone.
    */
  lemma SecondCrash(c: Config, s: State)
    requires LogInv(c, s) && s.disk.tmps == map[]
    ensures Run(c, s, REOPEN_AND_CRASH).Some?
    ensures View(Recovered(c.crc, s.disk)) == Tables(s) + Logged(s)
    ensures
      var t := Run(c, s, REOPEN_AND_CRASH).value;
      && View(Recovered(c.crc, t.disk)) == Tables(s)
      && (View(Recovered(c.crc, t.disk)) == View(Recovered(c.crc, s.disk))
          <==> forall k :: k in Logged(s) ==> k in Tables(s) && Tables(s)[k] == Logged(s)[k])
  {
    RecoveredView(c, s);
    ReopenRun(c, s);
    var t := Run(c, s, REOPEN_AND_CRASH).value;
    hide Run, View, Recovered, LogInv, Logged;
    NothingLogged(c, t);
    RecoveredView(c, t);
    SameTables(s, t);
    hide *;
    SubsumedIff(Tables(s), Logged(s));
  }

  lemma SubsumedIff(m: Map, l: Map)
    ensures m + map[] == m
    ensures m == m + l <==> forall k :: k in l ==> k in m && m[k] == l[k]
  {
    if m == m + l {
      forall k | k in l ensures k in m && m[k] == l[k] { assert k in m + l; }
    }
  }

  /** The tables are as they were, the log is empty. */
  predicate ReopenedFiles(t: State, s: State) {
    && t.disk.ssts == s.disk.ssts && t.disk.wal == [] && t.records == [] && t.pending == None && t.torn == []
  }

  lemma CrashSteps(c: Config, s: State)
    ensures Step(c, s, Crash) == Some(Crashed(c, s))
  {
    hide Crashed;
  }

  lemma OpenSteps(c: Config, s: State)
    requires s.phase.Down? && s.disk.tmps == map[]
    ensures
      var s1 := s.(phase := Loaded(Recovered(c.crc, s.disk)));
      Step(c, s, Load) == Some(s1) && Step(c, s1, TruncateWal) == Some(OpenDone(s1))
  {
    hide OpenDone, Recovered;
  }

  lemma ReopenRun(c: Config, s: State)
    requires s.disk.tmps == map[]
    ensures
      var s1 := Crashed(c, s);
      && Run(c, s, REOPEN_AND_CRASH) == Some(Crashed(c, OpenDone(s1.(phase := Loaded(Recovered(c.crc, s1.disk))))))
      && ReopenedFiles(Run(c, s, REOPEN_AND_CRASH).value, s)
  {
    CrashSteps(c, s);
    hide Run, Step, Recovered, View, ToMap;
    var s1 := Crashed(c, s);
    var s2 := s1.(phase := Loaded(Recovered(c.crc, s1.disk)));
    var s3 := OpenDone(s2);
    var t := Crashed(c, s3);
    CrashSteps(c, s3);
    OpenSteps(c, s1);
    NoRun(c, t);
    RunCons(c, s3, Crash, t, [], t);
    RunCons(c, s2, TruncateWal, s3, [Crash] + [], t);
    RunCons(c, s1, Load, s2, [TruncateWal] + ([Crash] + []), t);
    RunCons(c, s, Crash, s1, [Load] + ([TruncateWal] + ([Crash] + [])), t);
    assert REOPEN_AND_CRASH == [Crash] + ([Load] + ([TruncateWal] + ([Crash] + [])));
  }

  lemma NoRun(c: Config, t: State)
    ensures Run(c, t, []) == Some(t)
  {
  }

  lemma RunCons(c: Config, s: State, a: Action, t: State, rest: seq<Action>, u: State)
    requires Step(c, s, a) == Some(t) && Run(c, t, rest) == Some(u)
    ensures Run(c, s, [a] + rest) == Some(u)
  {
    hide Step;
    assert ([a] + rest)[1..] == rest;
  }

  lemma MovesCons(c: Config, s: State, a: Action, t: State, rest: seq<Action>, u: State)
    requires Move(c, s, a) == Some(t) && Moves(c, t, rest) == Some(u)
    ensures Moves(c, s, [a] + rest) == Some(u)
  {
    hide Move;
    assert ([a] + rest)[1..] == rest;
  }

  lemma {:induction false} MovesConcat(c: Config, s: State, a: seq<Action>, t: State, b: seq<Action>, u: State)
    requires Moves(c, s, a) == Some(t) && Moves(c, t, b) == Some(u)
    ensures Moves(c, s, a + b) == Some(u)
    decreases |a|
  {
    hide Move;
    if a == [] {
      assert a + b == b;
    } else {
      MovesConcat(c, Move(c, s, a[0]).value, a[1..], t, b, u);
      assert (a + b)[1..] == a[1..] + b;
    }
  }

  lemma {:induction false} RunConcat(c: Config, s: State, a: seq<Action>, t: State, b: seq<Action>, u: State)
    requires Run(c, s, a) == Some(t) && Run(c, t, b) == Some(u)
    ensures Run(c, s, a + b) == Some(u)
    decreases |a|
  {
    hide Step;
    if a == [] {
      assert a + b == b;
    } else {
      RunConcat(c, Step(c, s, a[0]).value, a[1..], t, b, u);
      assert (a + b)[1..] == a[1..] + b;
    }
  }

  //
  // Snapshot isolation
  //

  /** Commits are only added, and readers that stay keep the state they captured. */
  ghost predicate Isolated(s: State, t: State, ended: set<nat>) {
    && Up(s) && Up(t) && s.history <= t.history
    && forall r :: r in s.readers && r !in ended ==> r in t.readers && t.readers[r] == s.readers[r]
  }

  lemma IsolatedStep(c: Config, s: State, a: Action, t: State)
    requires Move(c, s, a) == Some(t) && Up(s) && !a.Crash?
    ensures Isolated(s, t, if a.EndReadonly? then {a.leaver} else {})
    ensures a.Publish? ==> t.history == s.history + [s.durable]
    ensures !a.Publish? ==> t.history == s.history
  {
    hide PendingBytes, FlushedFile, View, Recovered, Footprint, Hlc.Tick, PastFound, Insert, ToMap, Addressable, Size;
    if a.WalWrite? {
      WriteIsolated(c, s, a.n, t);
    } else {
      hide RecordDone, Torn;
    }
  }

  lemma WriteIsolated(c: Config, s: State, n: nat, t: State)
    requires Move(c, s, WalWrite(n)) == Some(t) && Up(s)
    ensures Up(t) && t.readers == s.readers && t.history == s.history
  {
    hide PendingBytes, Insert;
  }

  /** The readers that end in the actions. */
  function Ended(actions: seq<Action>): set<nat> {
    set a | a in actions && a.EndReadonly? :: a.leaver
  }

  lemma {:induction false} IsolatedRun(c: Config, s: State, actions: seq<Action>, t: State)
    requires Moves(c, s, actions) == Some(t) && Up(s) && Crash !in actions
    ensures Isolated(s, t, Ended(actions))
    decreases |actions|
  {
    hide Move;
    if actions != [] {
      var a, rest := actions[0], actions[1..];
      var next := Move(c, s, a).value;
      IsolatedStep(c, s, a, next);
      IsolatedRun(c, next, rest, t);
      assert Ended(rest) <= Ended(actions);
      assert a.EndReadonly? ==> a.leaver in Ended(actions) by { assert a in actions; }
    }
  }

  /**
    * Snapshot isolation: over any moves without a crash, whatever the writer, other readers and the clock do, a reader
    * shows the map after the commits it began with.
    */
  lemma SnapshotIsolation(c: Config, s: State, actions: seq<Action>, t: State, r: nat)
    requires Sound(c, s) && Moves(c, s, actions) == Some(t) && Up(s) && Crash !in actions
    requires r in s.readers && r !in Ended(actions)
    ensures r in t.readers && t.readers[r] == s.readers[r]
    ensures
      var n := s.readers[r].commits;
      n < |s.history| <= |t.history| && View(t.readers[r].state) == s.history[n] == t.history[n]
  {
    IsolatedRun(c, s, actions, t);
    hide Sound, Moves, LogInv, PhaseInv, CommitPosInv, View, Ended;
    SoundParts(c, s);
  }

  lemma FreshReader(c: Config, s: State, r: nat, t: State)
    requires Sound(c, s) && Move(c, s, BeginReadonly(r)) == Some(t)
    ensures Up(t) && r in t.readers && s.history == t.history != []
    ensures View(t.readers[r].state) == t.history[|t.history| - 1]
    ensures !s.phase.Committed? ==> View(t.readers[r].state) == s.durable
    ensures s.phase.Committed? ==> s.durable == View(t.readers[r].state) + s.phase.puts
  {
    hide Sound, LogInv, PhaseInv, CommitPosInv, View;
    SoundParts(c, s);
  }

  /**
    * A reader shows, as long as it lives, what was published last when it began. This is what was durable then,
    * but for a transaction that was committed and not yet published: no write of an open transaction is ever in it.
    */
  lemma ReaderSees(c: Config, s: State, r: nat, actions: seq<Action>, t: State)
    requires Sound(c, s) && Moves(c, s, [BeginReadonly(r)] + actions) == Some(t)
    requires Crash !in actions && r !in Ended(actions)
    ensures r in t.readers && s.history != []
    ensures
      var seen := View(t.readers[r].state);
      && seen == s.history[|s.history| - 1]
      && (if s.phase.Committed? then s.durable == seen + s.phase.puts else s.durable == seen)
  {
    hide Sound, Moves, View, Move;
    var a := BeginReadonly(r);
    assert ([a] + actions)[0] == a && ([a] + actions)[1..] == actions;
    var begun := MovesFirst(c, s, [a] + actions, t);
    FreshReader(c, s, r, begun);
    MoveKeepsSound(c, s, a, begun);
    SnapshotIsolation(c, begun, actions, t, r);
  }

  lemma MovesFirst(c: Config, s: State, actions: seq<Action>, t: State) returns (next: State)
    requires Moves(c, s, actions) == Some(t) && actions != []
    ensures Move(c, s, actions[0]) == Some(next) && Moves(c, next, actions[1..]) == Some(t)
  {
    hide Move;
    next := Move(c, s, actions[0]).value;
  }

  //
  // Serial order
  //

  /** The maps that the commits among the actions publish when transactions are taken one after the other. */
  function Serial(actions: seq<Action>, last: Map, puts: Map): seq<Map> {
    if actions == [] then []
    else
      var a, rest := actions[0], actions[1..];
      match a
      case Begin => Serial(rest, last, map[])
      case Put(k, v) => Serial(rest, last, puts[k := v])
      case Publish => [last + puts] + Serial(rest, last + puts, puts)
      case _ => Serial(rest, last, puts)
  }

  lemma HistoryGrows(c: Config, s: State, t: State)
    requires Sound(c, s) && Move(c, s, Publish) == Some(t)
    ensures s.phase.Committed? && |s.history| > 0
    ensures t.history == s.history + [s.history[|s.history| - 1] + s.phase.puts]
  {
    hide Sound, LogInv, PhaseInv, CommitPosInv, View;
    SoundParts(c, s);
  }

  /**
    * Serializability: over any moves without a crash, the maps published are those of the transactions that
    * published, one after the other, each with the last value it put at every key; aborted ones leave none.
    */
  lemma {:induction false} SerialHistory(c: Config, s: State, actions: seq<Action>, t: State, puts: Map)
    requires Sound(c, s) && Up(s) && s.history != [] && Putting(s, puts)
    requires Moves(c, s, actions) == Some(t) && Crash !in actions
    ensures t.history == s.history + Serial(actions, s.history[|s.history| - 1], puts)
    decreases |actions|
  {
    hide Move, Sound, Putting;
    if actions != [] {
      var a, rest := actions[0], actions[1..];
      var next := Move(c, s, a).value;
      IsolatedStep(c, s, a, next);
      if a.Publish? { PublishedPuts(c, s, next, puts); }
      if a.Begin? { BeginPutting(c, s, next); } else { PuttingStep(c, s, a, next, puts); }
      MoveKeepsSound(c, s, a, next);
      SerialHistory(c, next, rest, t, if a.Begin? then map[] else if a.Put? then puts[a.key := a.value] else puts);
    }
  }

  lemma BeginPutting(c: Config, s: State, t: State)
    requires Sound(c, s) && Move(c, s, Begin) == Some(t)
    ensures Putting(t, map[])
  {
    hide Sound, LogInv, ViewInv, CommitPosInv, MemInv, AllCommitted, Footprint;
    SoundParts(c, s);
  }

  lemma PublishedPuts(c: Config, s: State, t: State, puts: Map)
    requires Sound(c, s) && Move(c, s, Publish) == Some(t) && Putting(s, puts)
    ensures |s.history| > 0 && t.history == s.history + [s.history[|s.history| - 1] + puts]
  {
    hide Move, Sound;
    HistoryGrows(c, s, t);
  }

  /** The two states a flushing commit publishes show the same map. */
  lemma FlushPublishesTheSame(c: Config, s: State, t: State)
    requires Sound(c, s) && Move(c, s, Swap) == Some(t)
    ensures View(t.mem) == View(s.mem) == t.durable == s.durable
  {
    hide Sound, LogInv, PhaseInv, CommitPosInv, View, Move;
    MoveKeepsSound(c, s, Swap, t);
    SoundParts(c, s);
    SoundParts(c, t);
    assert t.history == s.history && t.phase.Swapped? && t.durable == s.durable
      && s.phase.Renamed? by { SwapKeeps(c, s, t); }
  }

  lemma SwapKeeps(c: Config, s: State, t: State)
    requires Move(c, s, Swap) == Some(t)
    ensures t.history == s.history && t.phase.Swapped? && t.durable == s.durable && s.phase.Renamed?
  {
  }

  //
  // Order of the tables
  //

  /**
    * The list in memory is in strictly descending order of flush times, and opening rebuilds it, except
    * between the rename and the second publish, when the new file is in front of it.
    */
  lemma RecencySurvivesRestart(c: Config, actions: seq<Action>, s: State)
    requires Run(c, Init(), actions) == Some(s) && Up(s)
    ensures Descending(s.mem.tables)
    ensures
      var listed := Recovered(c.crc, s.disk).tables;
      if s.phase.Renamed? then listed != [] && listed[0].name == s.phase.ts && listed[1..] == s.mem.tables
      else listed == s.mem.tables
  {
    hide Run, Init, Inv, LogInv, DurableInv, CommitPosInv, NamesInv, ViewInv;
    ReachableInv(c, actions, s);
    Parts(c, s);
    ListingHolds(s.disk.ssts);
    hide Listing, ToMap, Storable, RecordsMap, Tables, Logged, Wals.Committed, AllCommitted, Contents, FileBytes,
      Addressable;
    var l := Listing(s.disk.ssts);
    if s.phase.Renamed? {
      assert l[1..] == s.phase.base;
    }
  }
}
