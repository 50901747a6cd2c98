/** Reading through a MemTable and the SSTables under it, newest first (src/transaction.rs). */
module Transactions {
  import opened ByteStrings
  import opened Entries
  import opened MemTables
  import opened Recovery
  import opened SstFormat
  import opened SstReaders

  /** The reader was opened on a file that holds what it was written for. */
  ghost predicate Readable(h: Hashes, r: SSTableReader) {
    Reads(h, r, Contents(r.mmap))
  }

  ghost predicate AllReadable(h: Hashes, rs: seq<SSTableReader>) {
    forall i :: 0 <= i < |rs| ==> Readable(h, rs[i])
  }

  function ReaderMap(r: SSTableReader): Map { ToMap(Contents(r.mmap)) }

  /** Newest first: earlier readers hide later ones. */
  function ReadersMap(rs: seq<SSTableReader>): Map {
    if rs == [] then map[] else ReadersMap(rs[1..]) + ReaderMap(rs[0])
  }

  function At(m: Map, key: Bytes): Option<Bytes> {
    if key in m then Some(m[key]) else None
  }

  function WithKeyPrefix(m: Map, prefix: Bytes): Map {
    map k | k in m && prefix <= k :: m[k]
  }

  lemma OverlayPrefix(a: Map, b: Map, prefix: Bytes)
    ensures WithKeyPrefix(a + b, prefix) == WithKeyPrefix(a, prefix) + WithKeyPrefix(b, prefix)
  {
  }

  lemma UpdatePrefix(m: Map, k: Bytes, v: Bytes, prefix: Bytes)
    ensures WithKeyPrefix(m[k := v], prefix)
            == if prefix <= k then WithKeyPrefix(m, prefix)[k := v] else WithKeyPrefix(m, prefix)
  {
  }

  /** Filtering the entries filters the map. */
  lemma {:induction false} WithPrefixMap(es: seq<Entry>, prefix: Bytes)
    ensures ToMap(WithPrefix(es, prefix)) == WithKeyPrefix(ToMap(es), prefix)
  {
    if es == [] {
      NothingMerged(prefix);
    } else {
      WithPrefixMap(es[1..], prefix);
      UpdatePrefix(ToMap(es[1..]), es[0].key, es[0].value, prefix);
      var rest := WithPrefix(es[1..], prefix);
      assert [] + rest == rest && ([es[0]] + rest)[1..] == rest;
    }
  }

  /** One table of the search. */
  method GetFromTable(h: Hashes, r: SSTableReader, key: Bytes) returns (v: Option<Bytes>)
    requires Readable(h, r)
    ensures v == At(ReaderMap(r), key)
  {
    hide Reads, Contents;
    LookupIsToMap(Contents(r.mmap), key);
    v := SstReaders.Get(h, r, key, Contents(r.mmap));
  }

  /** The tables, newest first: the first hit is the newest value. */
  method GetFromTables(h: Hashes, sstables: seq<SSTableReader>, key: Bytes) returns (v: Option<Bytes>)
    requires AllReadable(h, sstables)
    ensures v == At(ReadersMap(sstables), key)
  {
    hide Readable, ReaderMap;
    for i := 0 to |sstables|
      invariant At(ReadersMap(sstables), key) == At(ReadersMap(sstables[i..]), key)
    {
      v := GetFromTable(h, sstables[i], key);
      assert sstables[i..][1..] == sstables[i + 1..];
      if v.Some? { return; }
    }
    v := None;
  }

  /** `get` of both transactions: the MemTable, then the tables. */
  method GetThrough(h: Hashes, active: MemTable, sstables: seq<SSTableReader>, key: Bytes) returns (v: Option<Bytes>)
    requires active.Valid() && AllReadable(h, sstables)
    ensures v == At(ReadersMap(sstables) + ToMap(active.entries), key)
  {
    hide AllReadable, ReadersMap, ToMap;
    v := active.Get(key);
    if v.Some? { return; }
    v := GetFromTables(h, sstables, key);
  }

  /** Inserts in turn, as into a `BTreeMap`. */
  method InsertAll(merged: seq<Entry>, es: seq<Entry>) returns (r: seq<Entry>)
    requires Sorted(merged) && Sorted(es)
    ensures Sorted(r) && ToMap(r) == ToMap(merged) + ToMap(es)
  {
    hide Sorted, Insert;
    r := merged;
    assert es[..0] == [];
    ghost var m := ToMap(merged);
    assert ToMap(merged) + ToMap(es[..0]) == m;
    for i := 0 to |es|
      invariant Sorted(r) && ToMap(r) == m + ToMap(es[..i])
    {
      InsertSorted(r, es[i].key, es[i].value);
      InsertMap(r, es[i].key, es[i].value);
      ToMapSnoc(es, i);
      UpdateOverlay(m, ToMap(es[..i]), es[i].key, es[i].value);
      r := Insert(r, es[i].key, es[i].value);
    }
    assert es[..|es|] == es;
  }

  /** In sorted entries the order of insertion does not matter to the map. */
  lemma {:induction false} ToMapSnoc(es: seq<Entry>, i: nat)
    requires Sorted(es) && i < |es|
    ensures ToMap(es[..i + 1]) == ToMap(es[..i])[es[i].key := es[i].value]
  {
    if i == 0 {
      assert es[..1][1..] == [] && es[..0] == [];
    } else {
      SortedTail(es);
      var tail := es[1..];
      ToMapSnoc(tail, i - 1);
      assert es[..i + 1][1..] == tail[..i] && es[..i][1..] == tail[..i - 1] && tail[i - 1] == es[i];
      LessIrreflexive(es[0].key);
      assert Less(es[0].key, es[i].key);
    }
  }

  /** `merge_scan`, up to the MemTable: tables from oldest to newest, so that newer entries overwrite older ones. */
  method MergeTables(h: Hashes, sstables: seq<SSTableReader>, prefix: Bytes) returns (merged: seq<Entry>)
    requires AllReadable(h, sstables)
    ensures Sorted(merged) && ToMap(merged) == WithKeyPrefix(ReadersMap(sstables), prefix)
  {
    hide Readable, Reads, Contents, WithKeyPrefix, ToMap, Sorted, WithPrefix;
    merged := [];
    NothingMerged(prefix);
    assert sstables[|sstables|..] == [];
    for i := |sstables| downto 0
      invariant Sorted(merged) && ToMap(merged) == WithKeyPrefix(ReadersMap(sstables[i..]), prefix)
    {
      ghost var es := Contents(sstables[i].mmap);
      ContentsSorted(h, sstables[i]);
      var found := SstReaders.ScanPrefix(sstables[i], prefix, h, es);
      WithPrefixSorted(es, prefix);
      WithPrefixMap(es, prefix);
      assert sstables[i..][1..] == sstables[i + 1..];
      OverlayPrefix(ReadersMap(sstables[i + 1..]), ReaderMap(sstables[i]), prefix);
      merged := InsertAll(merged, found);
    }
    assert sstables[0..] == sstables;
  }

  lemma NothingMerged(prefix: Bytes)
    ensures Sorted([]) && ToMap([]) == WithKeyPrefix(map[], prefix)
  {
  }

  lemma ContentsSorted(h: Hashes, r: SSTableReader)
    requires Readable(h, r)
    ensures Reads(h, r, Contents(r.mmap)) && Sorted(Contents(r.mmap))
  {
    hide Contents, Sorted, Blocks, NoEmptyBlock, Flatten;
  }

  /** `merge_scan`: strictly sorted, and exactly the pairs a `get` of each key with the prefix would find. */
  method MergeScan(h: Hashes, prefix: Bytes, memtable: MemTable, sstables: seq<SSTableReader>)
    returns (merged: seq<Entry>)
    requires memtable.Valid() && AllReadable(h, sstables)
    ensures Sorted(merged)
    ensures forall k, v ::
      Entry(k, v) in merged <==> prefix <= k && At(ReadersMap(sstables) + ToMap(memtable.entries), k) == Some(v)
  {
    hide AllReadable, ReadersMap, ToMap, WithPrefix;
    merged := MergeTables(h, sstables, prefix);
    var recent := memtable.Scan(prefix);
    ScanIsWithPrefix(memtable.entries, prefix, recent);
    WithPrefixMap(memtable.entries, prefix);
    OverlayPrefix(ReadersMap(sstables), ToMap(memtable.entries), prefix);
    merged := InsertAll(merged, recent);
    ToMapMembers(merged);
  }

  /** The entries found by a scan are the filter of all entries. */
  lemma ScanIsWithPrefix(es: seq<Entry>, prefix: Bytes, found: seq<Entry>)
    requires Sorted(es) && Sorted(found)
    requires forall k, v :: Entry(k, v) in found <==> prefix <= k && k in ToMap(es) && ToMap(es)[k] == v
    ensures found == WithPrefix(es, prefix)
  {
    WithPrefixSorted(es, prefix);
    WithPrefixMembers(es, prefix);
    ToMapMembers(es);
    hide WithPrefix, ToMap;
    forall e: Entry ensures e in found <==> e in WithPrefix(es, prefix) {
      assert e == Entry(e.key, e.value);
    }
    Extensional(found, WithPrefix(es, prefix));
  }

  /** Shared state of readers (src/db.rs:15-20); replaced as a whole, never changed. */
  class SharedState {
    const active: MemTable
    const sstables: seq<SSTableReader>

    ghost predicate Valid(h: Hashes)
      reads active
    {
      active.Valid() && AllReadable(h, sstables)
    }

    ghost function Shows(): Map
      reads active
    {
      ReadersMap(sstables) + ToMap(active.entries)
    }

    constructor (active: MemTable, sstables: seq<SSTableReader>)
      ensures this.active == active && this.sstables == sstables
    {
      this.active, this.sstables := active, sstables;
    }
  }

  class ReadOnlyTransaction {
    const h: Hashes
    const snapshot: SharedState

    constructor (h: Hashes, snapshot: SharedState)
      ensures this.h == h && this.snapshot == snapshot
    {
      this.h, this.snapshot := h, snapshot;
    }

    method Get(key: Bytes) returns (v: Option<Bytes>)
      requires snapshot.Valid(h)
      ensures v == At(snapshot.Shows(), key)
    {
      v := GetThrough(h, snapshot.active, snapshot.sstables, key);
    }

    /** Sorted, and exactly the pairs with the prefix that `Get` would find. */
    method Scan(prefix: Bytes) returns (merged: seq<Entry>)
      requires snapshot.Valid(h)
      ensures Sorted(merged)
      ensures forall k, v :: Entry(k, v) in merged <==> prefix <= k && At(snapshot.Shows(), k) == Some(v)
    {
      merged := MergeScan(h, prefix, snapshot.active, snapshot.sstables);
    }
  }
}
