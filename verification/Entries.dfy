/**
  * Key-value entries in strictly ascending key order: how this model holds a `BTreeMap<Vec<u8>, Vec<u8>>`,
  * and what an SSTable is made from.
  */
module Entries {
  import opened ByteStrings

  datatype Entry = Entry(key: Bytes, value: Bytes)

  predicate Sorted(es: seq<Entry>) {
    forall i, j :: 0 <= i < j < |es| ==> Less(es[i].key, es[j].key)
  }

  function Lookup(es: seq<Entry>, k: Bytes): Option<Bytes> {
    if es == [] then None else if es[0].key == k then Some(es[0].value) else Lookup(es[1..], k)
  }

  /** `BTreeMap::insert`. */
  function Insert(es: seq<Entry>, k: Bytes, v: Bytes): seq<Entry> {
    if es == [] then [Entry(k, v)]
    else if es[0].key == k then [Entry(k, v)] + es[1..]
    else if Less(k, es[0].key) then [Entry(k, v)] + es
    else [es[0]] + Insert(es[1..], k, v)
  }

  /** The map the entries stand for. */
  function ToMap(es: seq<Entry>): map<Bytes, Bytes> {
    if es == [] then map[] else ToMap(es[1..])[es[0].key := es[0].value]
  }

  /** Total length of keys and values. */
  function Footprint(es: seq<Entry>): nat {
    if es == [] then 0 else |es[0].key| + |es[0].value| + Footprint(es[1..])
  }

  function WithPrefix(es: seq<Entry>, p: Bytes): seq<Entry> {
    if es == [] then [] else (if p <= es[0].key then [es[0]] else []) + WithPrefix(es[1..], p)
  }

  /** `BTreeMap::range`. */
  function Range(es: seq<Entry>, lo: Bytes, hi: Option<Bytes>): seq<Entry> {
    if es == [] then [] else (if InRange(es[0].key, lo, hi) then [es[0]] else []) + Range(es[1..], lo, hi)
  }

  function Keys(es: seq<Entry>): (ks: seq<Bytes>)
    ensures |ks| == |es| && forall i :: 0 <= i < |es| ==> ks[i] == es[i].key
  {
    seq(|es|, i requires 0 <= i < |es| => es[i].key)
  }

  lemma SortedTail(es: seq<Entry>)
    requires Sorted(es) && es != []
    ensures Sorted(es[1..])
    ensures forall e :: e in es[1..] ==> Less(es[0].key, e.key)
  {
  }

  lemma {:induction false} LookupIsToMap(es: seq<Entry>, k: Bytes)
    ensures Lookup(es, k) == if k in ToMap(es) then Some(ToMap(es)[k]) else None
  {
    if es != [] { LookupIsToMap(es[1..], k); }
  }

  lemma {:induction false} LookupSome(es: seq<Entry>, k: Bytes)
    ensures Lookup(es, k).Some? ==> Entry(k, Lookup(es, k).value) in es
    ensures Lookup(es, k).None? ==> forall e :: e in es ==> e.key != k
  {
    if es != [] { LookupSome(es[1..], k); }
  }

  /** In sorted entries a key has one value. */
  lemma {:induction false} LookupIff(es: seq<Entry>, k: Bytes, v: Bytes)
    requires Sorted(es)
    ensures Lookup(es, k) == Some(v) <==> Entry(k, v) in es
  {
    LookupSome(es, k);
    if Lookup(es, k).Some? && Entry(k, v) in es {
      var i :| 0 <= i < |es| && es[i] == Entry(k, v);
      var j :| 0 <= j < |es| && es[j] == Entry(k, Lookup(es, k).value);
      LessIrreflexive(k);
      assert i == j;
    }
  }

  lemma {:induction false} InsertMembers(es: seq<Entry>, k: Bytes, v: Bytes)
    ensures forall e :: e in Insert(es, k, v) ==> e == Entry(k, v) || e in es
  {
    if es != [] && es[0].key != k && !Less(k, es[0].key) { InsertMembers(es[1..], k, v); }
  }

  lemma SortedCons(e: Entry, es: seq<Entry>)
    requires Sorted(es) && forall x :: x in es ==> Less(e.key, x.key)
    ensures Sorted([e] + es)
  {
  }

  lemma {:induction false} InsertSorted(es: seq<Entry>, k: Bytes, v: Bytes)
    requires Sorted(es)
    ensures Sorted(Insert(es, k, v))
  {
    if es != [] {
      SortedTail(es);
      if es[0].key == k {
        SortedCons(Entry(k, v), es[1..]);
      } else if Less(k, es[0].key) {
        forall x | x in es ensures Less(k, x.key) {
          if x != es[0] { LessTransitive(k, es[0].key, x.key); }
        }
        SortedCons(Entry(k, v), es);
      } else {
        LessTotal(k, es[0].key);
        InsertSorted(es[1..], k, v);
        InsertMembers(es[1..], k, v);
        SortedCons(es[0], Insert(es[1..], k, v));
      }
    }
  }

  lemma {:induction false} InsertMap(es: seq<Entry>, k: Bytes, v: Bytes)
    requires Sorted(es)
    ensures ToMap(Insert(es, k, v)) == ToMap(es)[k := v]
  {
    if es != [] {
      SortedTail(es);
      if es[0].key == k {
        assert ([Entry(k, v)] + es[1..])[1..] == es[1..];
      } else if Less(k, es[0].key) {
        assert ([Entry(k, v)] + es)[1..] == es;
      } else {
        InsertMap(es[1..], k, v);
        assert ([es[0]] + Insert(es[1..], k, v))[1..] == Insert(es[1..], k, v);
      }
    }
  }

  lemma {:induction false} InsertFootprint(es: seq<Entry>, k: Bytes, v: Bytes)
    requires Sorted(es)
    ensures Footprint(Insert(es, k, v)) ==
            match Lookup(es, k)
            case None => Footprint(es) + |k| + |v|
            case Some(u) => Footprint(es) - |u| + |v|
    ensures Lookup(es, k).Some? ==> |Lookup(es, k).value| <= Footprint(es)
  {
    if es != [] {
      SortedTail(es);
      if es[0].key == k {
        assert ([Entry(k, v)] + es[1..])[1..] == es[1..];
      } else if Less(k, es[0].key) {
        assert ([Entry(k, v)] + es)[1..] == es;
        AbsentBelow(es, k);
      } else {
        InsertFootprint(es[1..], k, v);
        assert ([es[0]] + Insert(es[1..], k, v))[1..] == Insert(es[1..], k, v);
      }
    }
  }

  lemma AbsentBelow(es: seq<Entry>, k: Bytes)
    requires Sorted(es) && es != [] && Less(k, es[0].key)
    ensures Lookup(es, k) == None
  {
    LookupSome(es, k);
    LessIrreflexive(k);
    forall e | e in es ensures e.key != k {
      var i :| 0 <= i < |es| && es[i] == e;
      if i > 0 { LessTransitive(k, es[0].key, es[i].key); }
    }
  }

  lemma {:induction false} WithPrefixMembers(es: seq<Entry>, p: Bytes)
    ensures forall e :: e in WithPrefix(es, p) <==> e in es && p <= e.key
  {
    if es != [] { WithPrefixMembers(es[1..], p); }
  }

  lemma {:induction false} WithPrefixSorted(es: seq<Entry>, p: Bytes)
    requires Sorted(es)
    ensures Sorted(WithPrefix(es, p))
  {
    if es != [] {
      SortedTail(es);
      WithPrefixSorted(es[1..], p);
      WithPrefixMembers(es[1..], p);
      if p <= es[0].key { SortedCons(es[0], WithPrefix(es[1..], p)); }
    }
  }

  lemma {:induction false} WithPrefixConcat(xs: seq<Entry>, ys: seq<Entry>, p: Bytes)
    ensures WithPrefix(xs + ys, p) == WithPrefix(xs, p) + WithPrefix(ys, p)
  {
    if xs == [] {
      assert xs + ys == ys;
    } else {
      assert (xs + ys)[1..] == xs[1..] + ys;
      WithPrefixConcat(xs[1..], ys, p);
    }
  }

  /** A range scan from a prefix to its successor is the filter of all entries by that prefix. */
  lemma {:induction false} RangeIsWithPrefix(es: seq<Entry>, p: Bytes)
    ensures Range(es, p, Successor(p)) == WithPrefix(es, p)
  {
    if es != [] {
      RangeIsWithPrefix(es[1..], p);
      PrefixRange(p, es[0].key);
    }
  }

  lemma {:induction false} ToMapMembers(es: seq<Entry>)
    requires Sorted(es)
    ensures forall k :: k in ToMap(es) <==> Lookup(es, k).Some?
    ensures forall e :: e in es <==> e.key in ToMap(es) && ToMap(es)[e.key] == e.value
  {
    forall k ensures k in ToMap(es) <==> Lookup(es, k).Some? { LookupIsToMap(es, k); }
    forall e: Entry ensures e in es <==> e.key in ToMap(es) && ToMap(es)[e.key] == e.value {
      LookupIsToMap(es, e.key);
      LookupIff(es, e.key, e.value);
    }
  }

  /** Sorted entries are determined by the map they stand for. */
  lemma {:induction false} Extensional(xs: seq<Entry>, ys: seq<Entry>)
    requires Sorted(xs) && Sorted(ys) && forall e :: e in xs <==> e in ys
    ensures xs == ys
  {
    assert ys != [] ==> ys[0] in ys;
    assert xs != [] ==> xs[0] in xs;
    if xs != [] && ys != [] {
      HeadIsLeast(xs, ys);
      HeadIsLeast(ys, xs);
      if xs[0] != ys[0] { LessAsymmetric(xs[0].key, ys[0].key); }
      SortedTail(xs);
      SortedTail(ys);
      LessIrreflexive(xs[0].key);
      forall e ensures e in xs[1..] <==> e in ys[1..] {
        assert e in xs <==> e == xs[0] || e in xs[1..];
        assert e in ys <==> e == ys[0] || e in ys[1..];
      }
      Extensional(xs[1..], ys[1..]);
      assert xs == [xs[0]] + xs[1..] && ys == [ys[0]] + ys[1..];
    }
  }

  lemma HeadIsLeast(xs: seq<Entry>, ys: seq<Entry>)
    requires Sorted(xs) && xs != [] && ys != [] && ys[0] in xs
    ensures xs[0] == ys[0] || Less(xs[0].key, ys[0].key)
  {
    var i :| 0 <= i < |xs| && xs[i] == ys[0];
    if i > 0 { assert Less(xs[0].key, xs[i].key); }
  }

  lemma {:induction false} FootprintConcat(a: seq<Entry>, b: seq<Entry>)
    ensures Footprint(a + b) == Footprint(a) + Footprint(b)
  {
    if a == [] {
      assert a + b == b;
    } else {
      assert (a + b)[1..] == a[1..] + b;
      FootprintConcat(a[1..], b);
    }
  }

  /** The footprint counts the bytes of all keys and values. */
  lemma FootprintOne(k: Bytes, v: Bytes)
    ensures Footprint([Entry(k, v)]) == |k| + |v|
  {
    assert [Entry(k, v)][1..] == [];
  }
}
