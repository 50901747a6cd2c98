/** Building an SSTable from sorted entries (src/sst/write.rs). */
module SstWriters {
  import opened ByteStrings
  import opened Entries
  import opened SstFormat

  class SSTableWriter {
    const h: Hashes
    const minTs: nat
    const maxTs: nat
    var writer: Bytes
    var blockBuf: Bytes
    var prevKey: Bytes
    var entriesInBlock: nat
    var bytesWritten: nat
    var index: seq<IndexEntry>
    var allKeys: seq<Bytes>
    var fileCrc: nat

    /** The entries added so far, and how they are split. */
    ghost var added: seq<Entry>
    ghost var split: Split

    /** The buffers hold the blocks of `split`. */
    ghost predicate Holds()
      reads this
    {
      && NoEmptyBlock(split.done)
      && writer == BlocksBytes(h, split.done) && bytesWritten == |writer|
      && fileCrc == RunningCrc(h, BlockPieces(h, split.done))
      && blockBuf == BlockData(split.current) && entriesInBlock == |split.current|
      && prevKey == LastKey(split.current, [])
      && index == IndexOf(h, Closed(split))
    }

    ghost predicate Valid()
      reads this
    {
      Holds() && split == SplitOf(added) && allKeys == Keys(added)
    }

    constructor (h: Hashes, minTs: nat, maxTs: nat)
      ensures Valid() && added == []
      ensures this.h == h && this.minTs == minTs && this.maxTs == maxTs
    {
      this.h, this.minTs, this.maxTs := h, minTs, maxTs;
      writer, blockBuf, prevKey, entriesInBlock, bytesWritten := [], [], [], 0, 0;
      index, allKeys, fileCrc := [], [], 0;
      added, split := [], Split([], []);
    }

    method Emit(data: Bytes)
      modifies this`writer, this`fileCrc, this`bytesWritten
      ensures writer == old(writer) + data && bytesWritten == old(bytesWritten) + |data|
      ensures fileCrc == h.crc(old(fileCrc), data)
    {
      writer := writer + data;
      fileCrc := h.crc(fileCrc, data);
      bytesWritten := bytesWritten + |data|;
    }

    method FinishBlock()
      requires Holds()
      modifies this`writer, this`fileCrc, this`bytesWritten, this`blockBuf, this`prevKey, this`entriesInBlock,
          this`split
      ensures Holds() && split.current == [] && split.done == Closed(old(split))
    {
      hide BlockData, BlocksBytes, BlockPieces, RunningCrc, IndexOf, LE, LastKey;
      DataEmpty(split.current);
      if blockBuf == [] {
        return;
      }
      ClosingBlock(h, split);
      var blockCrc := h.crc(0, blockBuf);
      blockBuf := blockBuf + LE(blockCrc, 4);
      Emit(blockBuf);
      blockBuf := [];
      prevKey := [];
      entriesInBlock := 0;
      split := Split(split.done + [split.current], []);
    }

    /** Entries are to be added in sorted key order; the bytes are laid out the same way in any order. */
    method Add(key: Bytes, value: Bytes)
      requires Valid()
      modifies this
      ensures Valid() && added == old(added) + [Entry(key, value)]
    {
      hide BlockData, SplitOf, Keys, BlocksBytes, BlockPieces, RunningCrc, IndexOf, LastKey;
      SplitAdd(added, Entry(key, value));
      DataEmpty(split.current);
      if blockBuf != [] && |blockBuf| >= BLOCK_SIZE {
        FinishBlock();
      }
      Append(key, value);
      allKeys := allKeys + [key];
      added := added + [Entry(key, value)];
    }

    /** The rest of `add`, once the block to add to is chosen. */
    method Append(key: Bytes, value: Bytes)
      requires Holds()
      modifies this`blockBuf, this`prevKey, this`entriesInBlock, this`index, this`split
      ensures Holds() && split == Split(old(split.done), old(split.current) + [Entry(key, value)])
    {
      hide BlockData, BlocksBytes, BlockPieces, RunningCrc, IndexOf, LE, LastKey, CommonPrefix, NoEmptyBlock, Closed;
      GrowingBlock(h, split, Entry(key, value));
      if entriesInBlock == 0 {
        index := index + [IndexEntry(key, bytesWritten)];
        prevKey := [];
      }
      var shared: nat := 0;
      if entriesInBlock % PREFIX_RESET_INTERVAL == 0 {
        prevKey := [];
      } else {
        shared := CommonPrefix(prevKey, key) % 0x1_0000;
      }
      blockBuf := blockBuf + LE(shared, 2) + LE(|key| - shared, 2) + LE(|value|, 2);
      blockBuf := blockBuf + key[shared..];
      blockBuf := blockBuf + value;
      prevKey := key;
      entriesInBlock := entriesInBlock + 1;
      split := Split(split.done, split.current + [Entry(key, value)]);
    }

    /** Flushes the last block and writes block index, filter and footer; the writer is consumed. */
    method Finish() returns (out: Bytes)
      requires Valid()
      modifies this
      ensures out == FileBytes(h, old(added), minTs, maxTs)
    {
      hide BlockData, BlocksBytes, BlockPieces, RunningCrc, IndexOf, IndexBytes, BloomOf, LE, LastKey, SplitOf, Keys,
        Footer;
      ghost var es := added;
      BlocksHoldAll(es);
      FinishBlock();
      var indexOffset := bytesWritten;
      ghost var pieces := BlockPieces(h, Blocks(es));

      var indexBuf := EncodeIndex();
      Emit(indexBuf);
      CrcSnoc(h, pieces, indexBuf);
      pieces := pieces + [indexBuf];
      var bloomOffset := bytesWritten;

      var numKeys := |allKeys|;
      var bloom := BuildBloom();
      Emit(LE(BLOOM_HASH_COUNT, 4));
      CrcSnoc(h, pieces, LE(BLOOM_HASH_COUNT, 4));
      pieces := pieces + [LE(BLOOM_HASH_COUNT, 4)];
      Emit(bloom);
      CrcSnoc(h, pieces, bloom);

      var footer := Footer(indexOffset, bloomOffset, minTs, maxTs, numKeys, fileCrc);
      writer := writer + footer;
      out := writer;
    }

    method EncodeIndex() returns (buf: Bytes)
      ensures buf == IndexBytes(index, minTs, maxTs)
    {
      hide EncodeIndexEntry;
      buf := [];
      for i := 0 to |index|
        invariant buf + IndexBytes(index[i..], minTs, maxTs) == IndexBytes(index, minTs, maxTs)
      {
        assert index[i..][1..] == index[i + 1..];
        var one, rest := EncodeIndexEntry(index[i], minTs, maxTs), IndexBytes(index[i + 1..], minTs, maxTs);
        assert buf + (one + rest) == (buf + one) + rest;
        buf := buf + one;
      }
      assert buf + [] == buf;
    }

    method SetKeyBits(bloom: Bytes, key: Bytes) returns (r: Bytes)
      requires bloom != []
      ensures r == WithKey(h, bloom, key, BLOOM_HASH_COUNT)
    {
      r := bloom;
      for i := 0 to BLOOM_HASH_COUNT
        invariant |r| == |bloom| && r == WithKey(h, bloom, key, i)
      {
        var bitPos := h.bloom(key, i) % (|r| * 8);
        r := WithBit(r, bitPos);
      }
    }

    method BuildBloom() returns (bloom: Bytes)
      ensures bloom == BloomOf(h, allKeys)
    {
      var filterBits := if |allKeys| == 0 then 8 else |allKeys| * 10;
      var filterBytes := (filterBits + 7) / 8;
      bloom := seq(filterBytes, _ => 0);
      for k := 0 to |allKeys|
        invariant |bloom| == filterBytes && bloom != []
        invariant WithKeys(h, bloom, allKeys[k..]) == BloomOf(h, allKeys)
      {
        bloom := SetKeyBits(bloom, allKeys[k]);
        assert allKeys[k..][0] == allKeys[k] && allKeys[k..][1..] == allKeys[k + 1..];
      }
    }
  }

  lemma DataEmpty(es: seq<Entry>)
    ensures BlockData(es) == [] <==> es == []
  {
  }

  lemma SplitAdd(es: seq<Entry>, e: Entry)
    ensures SplitOf(es + [e]) == AddTo(SplitOf(es), e)
    ensures Keys(es + [e]) == Keys(es) + [e.key]
  {
    assert (es + [e])[..|es|] == es;
  }

  lemma PiecesSnoc(h: Hashes, blocks: seq<seq<Entry>>, b: seq<Entry>)
    ensures RunningCrc(h, BlockPieces(h, blocks + [b]))
            == h.crc(RunningCrc(h, BlockPieces(h, blocks)), BlockBytes(h, b))
  {
    assert (blocks + [b])[..|blocks|] == blocks;
    CrcSnoc(h, BlockPieces(h, blocks), BlockBytes(h, b));
  }

  lemma CrcSnoc(h: Hashes, pieces: seq<Bytes>, p: Bytes)
    ensures RunningCrc(h, pieces + [p]) == h.crc(RunningCrc(h, pieces), p)
  {
    assert (pieces + [p])[..|pieces|] == pieces;
  }

  /** A new block is indexed at the bytes before it. */
  lemma IndexSnoc(h: Hashes, blocks: seq<seq<Entry>>, b: seq<Entry>)
    requires b != [] && NoEmptyBlock(blocks)
    ensures IndexOf(h, blocks + [b]) == IndexOf(h, blocks) + [IndexEntry(b[0].key, |BlocksBytes(h, blocks)|)]
  {
    var all := blocks + [b];
    assert all[..|blocks|] == blocks;
    forall i | 0 <= i < |blocks| ensures all[..i] == blocks[..i] {}
  }

  /** Growing the last block leaves the index alone. */
  lemma IndexGrows(h: Hashes, blocks: seq<seq<Entry>>, b: seq<Entry>, e: Entry)
    requires b != [] && NoEmptyBlock(blocks)
    ensures IndexOf(h, blocks + [b + [e]]) == IndexOf(h, blocks + [b])
  {
    IndexSnoc(h, blocks, b);
    IndexSnoc(h, blocks, b + [e]);
  }

  /** What closing the current block does to each buffer. */
  lemma ClosingBlock(h: Hashes, s: Split)
    requires s.current != []
    ensures
      var data := BlockData(s.current) + LE(h.crc(0, BlockData(s.current)), 4);
      var done := s.done + [s.current];
      && BlocksBytes(h, done) == BlocksBytes(h, s.done) + data
      && RunningCrc(h, BlockPieces(h, done)) == h.crc(RunningCrc(h, BlockPieces(h, s.done)), data)
      && BlockData([]) == [] && LastKey([], []) == []
  {
    hide BlockData, BlocksBytes, BlockPieces, RunningCrc;
    BlocksBytesSnoc(h, s.done, s.current);
    PiecesSnoc(h, s.done, s.current);
    NoData();
  }

  /** What one more entry does to each buffer. */
  lemma GrowingBlock(h: Hashes, s: Split, e: Entry)
    requires NoEmptyBlock(s.done)
    ensures
      var count: nat := |s.current|;
      var last := LastKey(s.current, []);
      var shared := if count % PREFIX_RESET_INTERVAL == 0 then 0 else CommonPrefix(last, e.key) % 0x1_0000;
      var t := Split(s.done, s.current + [e]);
      && shared <= |e.key|
      && BlockData(t.current) == BlockData(s.current) + LE(shared, 2) + LE(|e.key| - shared, 2) + LE(|e.value|, 2)
                                 + e.key[shared..] + e.value
      && LastKey(t.current, []) == e.key
      && Closed(t) == s.done + [t.current]
      && IndexOf(h, Closed(t))
         == (if count == 0 then IndexOf(h, Closed(s)) + [IndexEntry(e.key, |BlocksBytes(h, s.done)|)]
                                   else IndexOf(h, Closed(s)))
  {
    hide EncodeFrom, IndexOf, BlocksBytes, LE, CommonPrefix;
    EncodeSnoc(s.current, e, [], 0);
    if s.current == [] {
      IndexSnoc(h, s.done, [e]);
      assert s.current + [e] == [e];
    } else {
      IndexGrows(h, s.done, s.current, e);
    }
    var shared := Shared(LastKey(s.current, []), |s.current|, e.key);
    var x, y, z := LE(shared, 2), LE(|e.key| - shared, 2), LE(|e.value|, 2);
    var data, suffix := BlockData(s.current), e.key[shared..];
    assert data + (x + y + z + suffix + e.value) == data + x + y + z + suffix + e.value;
  }

  /** `flush_memtable` (src/db.rs:124-142) up to the rename: the file for the entries of a MemTable. */
  method WriteTable(h: Hashes, es: seq<Entry>, ts: nat) returns (file: Bytes)
    ensures file == FileBytes(h, es, ts, ts)
  {
    hide *;
    var w := new SSTableWriter(h, ts, ts);
    for i := 0 to |es|
      invariant w.Valid() && w.added == es[..i] && w.h == h && w.minTs == ts && w.maxTs == ts
      invariant fresh(w)
    {
      w.Add(es[i].key, es[i].value);
      assert es[..i + 1] == es[..i] + [Entry(es[i].key, es[i].value)];
    }
    assert es[..|es|] == es;
    file := w.Finish();
  }
}
