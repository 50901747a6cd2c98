/** The maps that tables, logs and snapshots stand for, and what opening a directory recovers. */
module Recovery {
  import opened ByteStrings
  import opened Entries
  import opened SstReaders
  import opened Wals
  import SstFormat

  type Map = map<Bytes, Bytes>

  /** An opened SSTable: the time in its file name, and its bytes. */
  datatype Table = Table(name: nat, file: Bytes)

  /** Shared state of readers (src/db.rs:15-20): the active MemTable and the tables, newest first. */
  datatype ReadableState = ReadableState(active: seq<Entry>, tables: seq<Table>)

  function TableMap(t: Table): Map { ToMap(Contents(t.file)) }

  /** Newer tables hide older ones. */
  function TablesMap(tables: seq<Table>): Map {
    if tables == [] then map[] else TablesMap(tables[1..]) + TableMap(tables[0])
  }

  lemma UpdateOverlay(a: Map, b: Map, k: Bytes, v: Bytes)
    ensures (a + b)[k := v] == a + b[k := v]
  {
  }

  function View(rs: ReadableState): Map {
    TablesMap(rs.tables) + ToMap(rs.active)
  }

  //
  // The directory
  //

  predicate IsNewest(names: set<nat>, n: nat) {
    n in names && forall m :: m in names ==> m <= n
  }

  ghost function Newest(names: set<nat>): (n: nat)
    requires names != {}
    ensures IsNewest(names, n)
  {
    NewestExists(names);
    var n :| IsNewest(names, n);
    n
  }

  lemma {:induction false} NewestExists(names: set<nat>)
    requires names != {}
    ensures exists n :: IsNewest(names, n)
  {
    var x :| x in names;
    var rest := names - {x};
    var n := x;
    if rest != {} {
      NewestExists(rest);
      var y :| IsNewest(rest, y);
      n := if x < y then y else x;
    }
    forall m | m in names ensures m <= n {
      assert m == x || m in rest;
    }
    assert IsNewest(names, n);
  }

  /** The `.sst` files of a directory, newest name first: what sorting the names and reversing gives. */
  ghost function Listing(ssts: map<nat, Bytes>): seq<Table>
    decreases |ssts.Keys|
  {
    if ssts.Keys == {} then []
    else
      var n := Newest(ssts.Keys);
      assert (ssts - {n}).Keys == ssts.Keys - {n};
      [Table(n, ssts[n])] + Listing(ssts - {n})
  }

  /** Strictly descending names. */
  predicate Descending(tables: seq<Table>) {
    forall i, j :: 0 <= i < j < |tables| ==> tables[i].name > tables[j].name
  }

  lemma {:induction false} ListingHolds(ssts: map<nat, Bytes>)
    ensures Descending(Listing(ssts))
    ensures forall t :: t in Listing(ssts) <==> t.name in ssts && ssts[t.name] == t.file
    decreases |ssts.Keys|
  {
    if ssts.Keys != {} {
      var n := Newest(ssts.Keys);
      var rest := ssts - {n};
      assert rest.Keys == ssts.Keys - {n};
      ListingHolds(rest);
      var l := Listing(rest);
      assert Listing(ssts) == [Table(n, ssts[n])] + l;
      assert forall i :: 0 <= i < |l| ==> l[i] in l;
    }
  }

  lemma {:induction false} DescendingUnique(a: seq<Table>, b: seq<Table>)
    requires Descending(a) && Descending(b) && forall t :: t in a <==> t in b
    ensures a == b
  {
    assert a != [] ==> a[0] in a;
    assert b != [] ==> b[0] in b;
    if a != [] && b != [] {
      var i :| 0 <= i < |a| && a[i] == b[0];
      var j :| 0 <= j < |b| && b[j] == a[0];
      assert a[0] == b[0];
      forall t ensures t in a[1..] <==> t in b[1..] {
        assert t in a <==> t == a[0] || t in a[1..];
        assert t in b <==> t == b[0] || t in b[1..];
      }
      DescendingUnique(a[1..], b[1..]);
      assert a == [a[0]] + a[1..] && b == [b[0]] + b[1..];
    }
  }

  /**
    * Putting a new table in front of the listing of the other files is again the listing of all of them,
    * exactly when its name is past theirs. A name that is taken is no exception: the rename replaces that file.
    */
  lemma RecencyKept(ssts: map<nat, Bytes>, name: nat, file: Bytes)
    ensures [Table(name, file)] + Listing(ssts) == Listing(ssts[name := file]) <==> forall n :: n in ssts ==> n < name
  {
    hide Listing, Descending;
    ListingHolds(ssts);
    ListingHolds(ssts[name := file]);
    if forall n :: n in ssts ==> n < name { NewestFirst(ssts, name, file); }
    if [Table(name, file)] + Listing(ssts) == Listing(ssts[name := file]) { FirstIsNewest(ssts, name, file); }
  }

  lemma NewestFirst(ssts: map<nat, Bytes>, name: nat, file: Bytes)
    requires forall n :: n in ssts ==> n < name
    ensures [Table(name, file)] + Listing(ssts) == Listing(ssts[name := file])
  {
    hide Listing;
    var l, now := Listing(ssts), ssts[name := file];
    ListingHolds(ssts);
    ListingHolds(now);
    assert forall i :: 0 <= i < |l| ==> l[i] in l;
    forall t ensures t in [Table(name, file)] + l <==> t in Listing(now) {
      assert t in [Table(name, file)] + l <==> t == Table(name, file) || t in l;
    }
    DescendingUnique([Table(name, file)] + l, Listing(now));
  }

  lemma FirstIsNewest(ssts: map<nat, Bytes>, name: nat, file: Bytes)
    requires Descending([Table(name, file)] + Listing(ssts))
    ensures forall n :: n in ssts ==> n < name
  {
    hide Listing;
    var l := Listing(ssts);
    ListingHolds(ssts);
    forall n | n in ssts ensures n < name {
      assert Table(n, ssts[n]) in l;
      var i :| 0 <= i < |l| && l[i] == Table(n, ssts[n]);
      var all := [Table(name, file)] + l;
      assert all[0].name == name && all[i + 1] == l[i];
    }
  }

  //
  // Records
  //

  /** The entries `open` puts into a fresh MemTable; records without a key are commit marks. */
  function FromRecords(rs: seq<WalRecord>): seq<Entry> {
    if rs == [] then []
    else
      var r := rs[|rs| - 1];
      var before := FromRecords(rs[..|rs| - 1]);
      if r.key == [] then before else Insert(before, r.key, r.value)
  }

  function RecordsMap(rs: seq<WalRecord>): Map {
    if rs == [] then map[]
    else
      var r := rs[|rs| - 1];
      var before := RecordsMap(rs[..|rs| - 1]);
      if r.key == [] then before else before[r.key := r.value]
  }

  lemma RecordsMapSnoc(rs: seq<WalRecord>, r: WalRecord)
    ensures RecordsMap(rs + [r]) == if r.key == [] then RecordsMap(rs) else RecordsMap(rs)[r.key := r.value]
  {
    assert (rs + [r])[..|rs|] == rs;
  }

  /** Whatever the log holds, opening shows nothing under the empty key. */
  lemma {:induction false} NoEmptyKey(rs: seq<WalRecord>)
    ensures [] !in RecordsMap(rs)
  {
    if rs != [] { NoEmptyKey(rs[..|rs| - 1]); }
  }

  /** Entries that can be logged and flushed. */
  predicate Storable(es: seq<Entry>) {
    Sorted(es) && SstFormat.Bounded(es)
  }

  lemma {:induction false} InsertStorable(es: seq<Entry>, k: Bytes, v: Bytes)
    requires Storable(es) && |k| < 0x8000 && |v| < 0x1_0000
    ensures Storable(Insert(es, k, v)) && ToMap(Insert(es, k, v)) == ToMap(es)[k := v]
  {
    InsertSorted(es, k, v);
    InsertMap(es, k, v);
    InsertMembers(es, k, v);
    var r := Insert(es, k, v);
    forall i | 0 <= i < |r| ensures |r[i].key| < 0x1_0000 && |r[i].value| < 0x1_0000 {
      assert r[i] in r;
    }
  }

  lemma {:induction false} FromRecordsMap(rs: seq<WalRecord>)
    requires Small(rs)
    ensures Storable(FromRecords(rs)) && ToMap(FromRecords(rs)) == RecordsMap(rs)
  {
    if rs != [] {
      FromRecordsMap(rs[..|rs| - 1]);
      var r := rs[|rs| - 1];
      if r.key != [] { InsertStorable(FromRecords(rs[..|rs| - 1]), r.key, r.value); }
    }
  }

  //
  // Reopening
  //

  /** Files of a database: the log, unfinished and finished tables, the last two by the time in their names. */
  datatype Disk = Disk(wal: Bytes, tmps: map<nat, Bytes>, ssts: map<nat, Bytes>)

  /** The state `Db::open` builds from the files (src/db.rs:60-95). */
  ghost function Recovered(crc: Checksum, d: Disk): ReadableState {
    ReadableState(FromRecords(Replay(crc, d.wal)), Listing(d.ssts))
  }
}
