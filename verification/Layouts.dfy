/** Known bytes: a few keys and a table, written out. */
module Layouts {
  import opened ByteStrings
  import opened Entries
  import opened SstFormat
  import Paths
  import FractionalIndices
  import VarInts
  import PathWriters
  import Mutations

  //
  // Numbers
  //

  lemma {:induction false} SmallBytes(x: nat, n: nat)
    requires x < 256 && n > 0
    ensures LE(x, n) == [x] + seq(n - 1, _ => 0)
    ensures BE(x, n) == seq(n - 1, _ => 0) + [x]
  {
    if n == 1 {
      assert LE(x / 256, 0) == [];
    } else if x == 0 {
      SmallBytes(0, n - 1);
      assert [0] + seq(n - 2, _ => 0) == seq(n - 1, _ => 0) == seq(n - 2, _ => 0) + [0];
    } else {
      SmallBytes(0, n - 1);
      assert [0] + seq(n - 2, _ => 0) == seq(n - 1, _ => 0) == seq(n - 2, _ => 0) + [0];
    }
  }

  lemma SmallNumber(x: nat)
    requires 0 < x < 256
    ensures VarInts.Encode(x) == [1, x]
  {
    SmallBytes(x, 1);
    assert Size(x) == 1;
  }

  //
  // Keys
  //

  /** The name "a", and the index (1, 2): a delimiter of 0 before each, numbers behind their length. */
  const STEPS: seq<Paths.Step> := [Paths.Name([97]), Paths.Position([FractionalIndices.Segment(1, 2)])]

  lemma StepBytes()
    ensures Paths.EncodeSteps(STEPS) == [0, 97, 0, 1, 1, 1, 2]
  {
    SmallNumber(1);
    SmallNumber(2);
    var index := [FractionalIndices.Segment(1, 2)];
    assert index[1..] == [];
    assert FractionalIndices.EncodeSegment(index[0]) == [1, 1, 1, 2];
    assert FractionalIndices.Encode(index) == [1, 1, 1, 2];
    assert STEPS[1..] == [Paths.Position(index)] && STEPS[1..][1..] == [];
    assert Paths.EncodeSteps(STEPS[1..]) == [0, 1, 1, 1, 2];
  }

  /** 30 ends a last-write-wins register, 29 a counter, before four bytes of its peer, 31 chunked content. */
  lemma KeyBytes()
    ensures Paths.Encode(Paths.Path(STEPS, Paths.Lww)) == [0, 97, 0, 1, 1, 1, 2, 0, 30]
    ensures Paths.Encode(Paths.Path(STEPS, Paths.Counter(5))) == [0, 97, 0, 1, 1, 1, 2, 0, 29, 0, 0, 0, 5]
    ensures Paths.Encode(Paths.Path(STEPS, Paths.Chunked(5))) == [0, 97, 0, 1, 1, 1, 2, 0, 31, 1, 5]
  {
    StepBytes();
    SmallNumber(5);
    SmallBytes(5, 4);
    assert BE(5, 4) == [0, 0, 0, 5];
  }

  /** A tree of two leaves below "a": an assignment at "b", then a deletion at "c", which is an empty value. */
  lemma MutationEntries(v: Bytes)
    ensures
      var b := Mutations.Apply(Mutations.Segment.Field([98]), Mutations.Assign(v));
      var c := Mutations.Apply(Mutations.Segment.Field([99]), Mutations.Delete);
      var o := Mutations.Run(Mutations.Nested(Mutations.Segment.Field([97]), [b, c]), PathWriters.Buffer([], 0));
      o.result == Ok(()) && o.emitted == [Entry([0, 97, 0, 98, 0, 30], v), Entry([0, 97, 0, 99, 0, 30], [])]
  {
    var b := Mutations.Apply(Mutations.Segment.Field([98]), Mutations.Assign(v));
    var c := Mutations.Apply(Mutations.Segment.Field([99]), Mutations.Delete);
    var a := PathWriters.Buffer([0, 97], 2);
    assert [] + [0] + [97] == [0, 97];
    assert Mutations.Written(PathWriters.Buffer([], 0), Mutations.Segment.Field([97])) == Ok(a);
    assert Mutations.LwwTail() == [0, 30];
    LeafEntry(a, 98, Mutations.Assign(v));
    var a2 := PathWriters.Buffer([0, 97], 4);
    LeafEntry(a2, 99, Mutations.Delete);
    assert [0, 97, 0, 98][..2] == [0, 97];
    assert [b, c][1..] == [c] && [c][1..] == [];
    OneChild(c, a2);
  }

  lemma LeafEntry(a: PathWriters.Buffer, name: Byte, op: Mutations.Op)
    requires a.bytes == [0, 97] && a.written <= 4 && name >= 32
    ensures
      var o := Mutations.Run(Mutations.Apply(Mutations.Segment.Field([name]), op), a);
      && o.result == Ok(()) && o.buffer == PathWriters.Buffer([0, 97, 0, name], a.written + 2)
      && o.emitted == [Entry([0, 97, 0, name, 0, 30], if op.Assign? then op.value else [])]
  {
    assert Mutations.LwwTail() == [0, 30];
    assert [0, 97] + [0] + [name] == [0, 97, 0, name];
    assert [0, 97, 0, name] + [0, 30] == [0, 97, 0, name, 0, 30];
  }

  lemma OneChild(m: Mutations.Mutation, b: PathWriters.Buffer)
    requires Mutations.Complete(m) && Mutations.Run(m, b).result.Ok?
    ensures Mutations.RunAll([m], b).result == Ok(()) && Mutations.RunAll([m], b).emitted == Mutations.Run(m, b).emitted
  {
    hide Mutations.Run, Mutations.Complete;
    assert [m][1..] == [];
  }

  //
  // Tables
  //

  /** The block of the one entry: what is shared, what is not, length of the value; key; value; checksum. */
  function OneBlock(h: Hashes): Bytes {
    [0, 0, 1, 0, 1, 0, 1, 2] + LE(h.crc(0, [0, 0, 1, 0, 1, 0, 1, 2]), 4)
  }

  /** Its place in the index: length, first key, the two timestamps, and the offset. */
  function OneIndex(minTs: nat, maxTs: nat): Bytes {
    [1, 0, 1] + BE(minTs, 8) + BE(maxTs, 8) + [0, 0, 0, 0, 0, 0, 0, 0]
  }

  /** The table of the key 1 and the value 2. */
  lemma TableBytes(h: Hashes, minTs: nat, maxTs: nat)
    ensures
      var block, index, bloom := OneBlock(h), OneIndex(minTs, maxTs), BloomOf(h, [[1]]);
      var sum := h.crc(h.crc(h.crc(h.crc(0, block), index), [7, 0, 0, 0]), bloom);
      && |bloom| == 2
      && FileBytes(h, [Entry([1], [2])], minTs, maxTs)
         == block + index + [7, 0, 0, 0] + bloom
            + ([12, 0, 0, 0, 0, 0, 0, 0] + [39, 0, 0, 0, 0, 0, 0, 0] + BE(minTs, 8) + BE(maxTs, 8)
               + [1, 0, 0, 0, 0, 0, 0, 0] + [1, 0, 0, 0] + LE(sum, 4))
  {
    var es := [Entry([1], [2])];
    Constants();
    OneBlockIs(h);
    OneIndexIs(h, minTs, maxTs);
    OneKey(es);
    hide LE, BE, Blocks, BlocksBytes, IndexBytes, IndexOf, BloomOf, Keys, BlockPieces, RunningCrc;
    var block, index, count, bloom := OneBlock(h), OneIndex(minTs, maxTs), LE(7, 4), BloomOf(h, [[1]]);
    OneCrc(h, block, index, count, bloom);
    BlocksHoldAll(es);
    assert IndexOffset(h, es) == 12 && BloomOffset(h, es, minTs, maxTs) == 39;
  }

  lemma Constants()
    ensures LE(7, 4) == [7, 0, 0, 0] && LE(1, 4) == [1, 0, 0, 0]
    ensures LE(12, 8) == [12, 0, 0, 0, 0, 0, 0, 0] && LE(39, 8) == [39, 0, 0, 0, 0, 0, 0, 0]
    ensures LE(1, 8) == [1, 0, 0, 0, 0, 0, 0, 0] && LE(0, 8) == [0, 0, 0, 0, 0, 0, 0, 0]
    ensures LE(0, 2) == [0, 0] && LE(1, 2) == [1, 0]
  {
    SmallBytes(7, 4);
    SmallBytes(1, 4);
    SmallBytes(12, 8);
    SmallBytes(39, 8);
    SmallBytes(1, 8);
    SmallBytes(0, 8);
    SmallBytes(0, 2);
    SmallBytes(1, 2);
    hide LE;
  }

  lemma OneKey(es: seq<Entry>)
    requires es == [Entry([1], [2])]
    ensures Keys(es) == [[1]] && |BloomOf(Hashes((a, b) => 0, (a, b) => 0), [[1]])| == 2
  {
  }

  lemma OneEntry()
    ensures EncodeEntry(0, Entry([1], [2])) == [0, 0, 1, 0, 1, 0, 1, 2]
  {
    Constants();
    hide LE;
    assert [1][0..] == [1];
    assert [0, 0] + [1, 0] + [1, 0] + [1] + [2] == [0, 0, 1, 0, 1, 0, 1, 2];
  }

  lemma OneData()
    ensures BlockData([Entry([1], [2])]) == [0, 0, 1, 0, 1, 0, 1, 2]
  {
    var e := Entry([1], [2]);
    var es := [e];
    OneEntry();
    assert Shared([], 0, e.key) == 0;
    assert EncodeFrom([], e.key, 1) == [];
    hide Shared, EncodeEntry;
    assert es[1..] == [];
    assert EncodeFrom(es, [], 0) == EncodeEntry(0, e) + [];
  }

  lemma OneBlockIs(h: Hashes)
    ensures
      var es := [Entry([1], [2])];
      Blocks(es) == [es] && BlockBytes(h, es) == OneBlock(h) && BlocksBytes(h, [es]) == OneBlock(h)
    ensures BlockPieces(h, [[Entry([1], [2])]]) == [OneBlock(h)]
  {
    var es := [Entry([1], [2])];
    OneData();
    NoData();
    hide LE, BlockData;
    var blocks: seq<seq<Entry>> := [es];
    assert es[..0] == [] && blocks[..0] == [];
    assert SplitOf([]) == Split([], []);
    assert SplitOf(es) == Split([], es);
    assert BlocksBytes(h, []) == [];
  }

  lemma IndexJoined(a: Bytes, b: Bytes)
    ensures [1, 0] + [1] + a + b + [0, 0, 0, 0, 0, 0, 0, 0] + [] == [1, 0, 1] + a + b + [0, 0, 0, 0, 0, 0, 0, 0]
  {
  }

  lemma OneIndexIs(h: Hashes, minTs: nat, maxTs: nat)
    ensures
      var blocks := [[Entry([1], [2])]];
      NoEmptyBlock(blocks) && IndexBytes(IndexOf(h, blocks), minTs, maxTs) == OneIndex(minTs, maxTs)
  {
    var blocks := [[Entry([1], [2])]];
    var x := IndexEntry([1], 0);
    OneOffset(h, blocks);
    Constants();
    hide LE, BE, IndexOf, NoEmptyBlock;
    IndexJoined(BE(minTs, 8), BE(maxTs, 8));
    assert [x][1..] == [];
    assert IndexBytes([], minTs, maxTs) == [];
    assert EncodeIndexEntry(x, minTs, maxTs)
           == [1, 0] + [1] + BE(minTs, 8) + BE(maxTs, 8) + [0, 0, 0, 0, 0, 0, 0, 0];
    hide EncodeIndexEntry;
    assert IndexBytes([x], minTs, maxTs) == EncodeIndexEntry(x, minTs, maxTs) + [];
  }

  lemma OneOffset(h: Hashes, blocks: seq<seq<Entry>>)
    requires blocks == [[Entry([1], [2])]]
    ensures NoEmptyBlock(blocks) && IndexOf(h, blocks) == [IndexEntry([1], 0)]
  {
    hide BlockBytes;
    assert blocks[..0] == [];
    assert BlocksBytes(h, []) == [];
  }

  lemma OneCrc(h: Hashes, a: Bytes, b: Bytes, c: Bytes, d: Bytes)
    ensures RunningCrc(h, [a] + [b] + [c] + [d]) == h.crc(h.crc(h.crc(h.crc(0, a), b), c), d)
  {
    var all := [a] + [b] + [c] + [d];
    assert all[..3] == [a, b, c] && [a, b, c][..2] == [a, b] && [a, b][..1] == [a] && [a][..0] == [];
    assert RunningCrc(h, [a]) == h.crc(0, a);
    assert RunningCrc(h, [a, b]) == h.crc(h.crc(0, a), b);
    assert RunningCrc(h, [a, b, c]) == h.crc(h.crc(h.crc(0, a), b), c);
  }
}
