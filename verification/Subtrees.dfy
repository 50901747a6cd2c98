/** A prefix scan of the store, seen as a scan of a subtree of documents. */
module Subtrees {
  import opened ByteStrings
  import opened Entries
  import opened Paths
  import opened Recovery
  import opened Transactions

  /**
    * Scanning with the prefix of a subtree finds the values at the paths through its root and nothing else,
    * in the structural order of the paths.
    */
  lemma SubtreeScan(m: Map, root: seq<Step>, found: seq<Entry>)
    requires ValidSteps(root) && Sorted(found)
    requires forall k, v :: Entry(k, v) in found <==> SubtreePrefix(root) <= k && At(m, k) == Some(v)
    ensures forall p, v :: Valid(p) ==>
      (Entry(Encode(p), v) in found <==> root <= p.steps && At(m, Encode(p)) == Some(v))
    ensures forall i, j, p, q ::
      0 <= i < j < |found| && Valid(p) && Valid(q) && found[i].key == Encode(p) && found[j].key == Encode(q)
      ==> PathLess(p, q)
  {
    hide Valid, Encode, SubtreePrefix, PathLess;
    forall p, v | Valid(p)
      ensures Entry(Encode(p), v) in found <==> root <= p.steps && At(m, Encode(p)) == Some(v)
    {
      SubtreeIsPrefix(root, p);
    }
    forall i, j, p, q |
      0 <= i < j < |found| && Valid(p) && Valid(q) && found[i].key == Encode(p) && found[j].key == Encode(q)
      ensures PathLess(p, q)
    {
      OrderIsomorphism(p, q);
    }
  }
}
