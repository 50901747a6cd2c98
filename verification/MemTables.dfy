/** The in-memory buffer of recent writes (src/sst/memtable.rs). */
module MemTables {
  import opened ByteStrings
  import opened Entries

  class MemTable {
    var entries: seq<Entry>
    var size: nat

    /** Keys are in order, and the size kept by hand is the exact footprint. */
    ghost predicate Valid()
      reads this
    {
      Sorted(entries) && size == Footprint(entries)
    }

    constructor ()
      ensures Valid() && entries == []
    {
      entries, size := [], 0;
    }

    /** `clone`: the fork a transaction writes to. */
    constructor Clone(entries: seq<Entry>)
      requires Sorted(entries)
      ensures Valid() && this.entries == entries
    {
      this.entries, this.size := entries, Footprint(entries);
    }

    method Insert(key: Bytes, value: Bytes) returns (previous: Option<Bytes>)
      requires Valid()
      modifies this
      ensures Valid()
      ensures entries == Entries.Insert(old(entries), key, value)
      ensures ToMap(entries) == ToMap(old(entries))[key := value]
      ensures previous == Lookup(old(entries), key)
    {
      InsertSorted(entries, key, value);
      InsertMap(entries, key, value);
      InsertFootprint(entries, key, value);
      var added := |key| + |value|;
      previous := Lookup(entries, key);
      entries := Entries.Insert(entries, key, value);
      if previous.Some? {
        size := size - |previous.value|;
        size := size + (added - |key|);
      } else {
        size := size + added;
      }
    }

    method Get(key: Bytes) returns (r: Option<Bytes>)
      requires Valid()
      ensures r == if key in ToMap(entries) then Some(ToMap(entries)[key]) else None
    {
      LookupIsToMap(entries, key);
      r := Lookup(entries, key);
    }

    /** All entries whose key starts with `prefix`, in order; found as a range. */
    method Scan(prefix: Bytes) returns (r: seq<Entry>)
      requires Valid()
      ensures Sorted(r)
      ensures forall k, v :: Entry(k, v) in r <==> prefix <= k && k in ToMap(entries) && ToMap(entries)[k] == v
    {
      var end := PrefixSuccessor(prefix);
      r := Range(entries, prefix, end);
      RangeIsWithPrefix(entries, prefix);
      WithPrefixSorted(entries, prefix);
      WithPrefixMembers(entries, prefix);
      ToMapMembers(entries);
    }

    function Iter(): seq<Entry>
      reads this
    {
      entries
    }

    function EstimatedSize(): nat
      reads this
    {
      size
    }
  }
}
