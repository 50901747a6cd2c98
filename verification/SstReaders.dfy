/** Opening and searching an SSTable (src/sst/read.rs), and its agreement with what was written. */
module SstReaders {
  import opened ByteStrings
  import opened Entries
  import opened SstFormat

  /** The fields of a reader; nothing changes after `open`. */
  datatype SSTableReader = SSTableReader(mmap: Bytes, indexOffset: nat, blockIndex: seq<IndexEntry>, bloom: Bytes)

  datatype OpenError = TooSmall

  function FooterStart(file: Bytes): nat
    requires |file| >= FOOTER_SIZE
  {
    |file| - FOOTER_SIZE
  }

  function ReadIndexOffset(file: Bytes): nat
    requires |file| >= FOOTER_SIZE
  {
    FromLE(file[FooterStart(file)..FooterStart(file) + 8])
  }

  function ReadBloomOffset(file: Bytes): nat
    requires |file| >= FOOTER_SIZE
  {
    FromLE(file[FooterStart(file) + 8..FooterStart(file) + 16])
  }

  /** Opening stays in bounds and in 64 bits, as in any file with a block index that ends inside it. */
  predicate CanOpen(file: Bytes) {
    |file| >= FOOTER_SIZE ==>
      && ReadBloomOffset(file) + 4 < 0x1_0000_0000_0000_0000
      && IndexReadable(file, ReadIndexOffset(file), ReadBloomOffset(file))
  }

  /** What `open` returns. */
  function Opened(file: Bytes): Result<SSTableReader, OpenError> {
    if |file| < FOOTER_SIZE then Err(TooSmall)
    else
      var start := ReadBloomOffset(file) + 4;
      Ok(SSTableReader(file, ReadIndexOffset(file), ParseIndex(file, ReadIndexOffset(file), ReadBloomOffset(file)),
                       if FooterStart(file) > start then file[start..FooterStart(file)] else []))
  }

  /** One entry of the block index, or the reason to stop. */
  lemma ParseIndexStep(file: Bytes, pos: nat, end: nat)
    requires IndexReadable(file, pos, end)
    ensures
      if pos + 2 > end then ParseIndex(file, pos, end) == []
      else
        pos + 2 <= |file| &&
        var keyLen := FromLE(file[pos..pos + 2]);
        if pos + 2 + keyLen + 16 + 8 > |file| then ParseIndex(file, pos, end) == []
        else
          var p := pos + 2 + keyLen;
          IndexReadable(file, p + 16 + 8, end) && ParseIndex(file, pos, end)
          == [IndexEntry(file[pos + 2..p], FromLE(file[p + 16..p + 16 + 8]))] + ParseIndex(file, p + 16 + 8, end)
  {
  }

  /** The loop of `open` over the block index. */
  method ReadBlockIndex(file: Bytes, idxStart: nat, idxEnd: nat) returns (blockIndex: seq<IndexEntry>)
    requires IndexReadable(file, idxStart, idxEnd)
    ensures blockIndex == ParseIndex(file, idxStart, idxEnd)
  {
    hide ParseIndex, IndexReadable, FromLE;
    blockIndex := [];
    var pos := idxStart;
    ghost var rest := ParseIndex(file, pos, idxEnd);
    while pos < idxEnd
      invariant IndexReadable(file, pos, idxEnd) && rest == ParseIndex(file, pos, idxEnd)
      invariant ParseIndex(file, idxStart, idxEnd) == blockIndex + rest
      decreases |file| - pos
    {
      ParseIndexStep(file, pos, idxEnd);
      if pos + 2 > idxEnd {
        assert rest == [];
        break;
      }
      var keyLen := FromLE(file[pos..pos + 2]);
      pos := pos + 2;
      if pos + keyLen + 16 + 8 > |file| {
        assert rest == [];
        break;
      }
      var firstKey := file[pos..pos + keyLen];
      pos := pos + keyLen;
      pos := pos + 16;
      var offset := FromLE(file[pos..pos + 8]);
      pos := pos + 8;
      rest := ParseIndex(file, pos, idxEnd);
      var one := [IndexEntry(firstKey, offset)];
      assert blockIndex + (one + rest) == (blockIndex + one) + rest;
      blockIndex := blockIndex + one;
    }
    if rest != [] { ParseIndexStep(file, pos, idxEnd); }
  }

  method Open(file: Bytes) returns (r: Result<SSTableReader, OpenError>)
    requires CanOpen(file)
    ensures r == Opened(file)
  {
    if |file| < FOOTER_SIZE {
      return Err(TooSmall);
    }
    var footerStart := |file| - FOOTER_SIZE;
    var idxStart := FromLE(file[footerStart..footerStart + 8]);
    var idxEnd := FromLE(file[footerStart + 8..footerStart + 16]);
    var blockIndex := ReadBlockIndex(file, idxStart, idxEnd);
    var bloomStart := idxEnd + 4;
    var bloom := if footerStart > bloomStart then file[bloomStart..footerStart] else [];
    r := Ok(SSTableReader(file, idxStart, blockIndex, bloom));
  }

  method BloomMayContain(h: Hashes, r: SSTableReader, key: Bytes) returns (b: bool)
    ensures b == MayContain(h, r.bloom, key)
  {
    if r.bloom == [] {
      return true;
    }
    var totalBits := |r.bloom| * 8;
    for i := 0 to BLOOM_HASH_COUNT
      invariant forall j :: 0 <= j < i ==> HasBit(r.bloom, BitPos(h, r.bloom, key, j))
    {
      var bitPos := h.bloom(key, i) % totalBits;
      if !HasBit(r.bloom, bitPos) {
        assert !HasBit(r.bloom, BitPos(h, r.bloom, key, i));
        return false;
      }
    }
    b := true;
  }

  /** The bytes of block `i` without its checksum; none when the offsets make no sense. */
  function BlockSlice(r: SSTableReader, i: nat): Bytes
    requires i < |r.blockIndex|
  {
    var start := r.blockIndex[i].offset;
    var end := if i + 1 < |r.blockIndex| then r.blockIndex[i + 1].offset else r.indexOffset;
    if end <= start + 4 || end > |r.mmap| then [] else r.mmap[start..end - 4]
  }

  function BlockEntries(r: SSTableReader, i: nat): seq<Entry>
    requires i < |r.blockIndex|
  {
    DecodeFrom(BlockSlice(r, i), [], 0)
  }

  method DecodeBlock(r: SSTableReader, blockIdx: nat) returns (entries: seq<Entry>)
    requires blockIdx < |r.blockIndex|
    ensures entries == BlockEntries(r, blockIdx)
  {
    var blockStart := r.blockIndex[blockIdx].offset;
    var blockEnd := if blockIdx + 1 < |r.blockIndex| then r.blockIndex[blockIdx + 1].offset else r.indexOffset;
    if blockEnd <= blockStart + 4 || blockEnd > |r.mmap| {
      return [];
    }
    entries := DecodeData(r.mmap[blockStart..blockEnd - 4]);
  }

  /** The loop of `decode_block`. */
  method DecodeData(data: Bytes) returns (entries: seq<Entry>)
    ensures entries == DecodeFrom(data, [], 0)
  {
    hide DecodeFrom, FromLE;
    entries := [];
    var prevKey, pos, entryCount: nat := [], 0, 0;
    assert data[0..] == data;
    while pos + 6 <= |data|
      invariant pos <= |data|
      invariant DecodeFrom(data, [], 0) == entries + DecodeFrom(data[pos..], prevKey, entryCount)
      decreases |data| - pos
    {
      var shared := FromLE(data[pos..pos + 2]);
      var suffixLen := FromLE(data[pos + 2..pos + 4]);
      var valueLen := FromLE(data[pos + 4..pos + 6]);
      DecodeStep(data, pos, prevKey, entryCount);
      pos := pos + 6;
      if pos + suffixLen + valueLen > |data| {
        return entries;
      }
      if entryCount % PREFIX_RESET_INTERVAL == 0 {
        prevKey := [];
      }
      var key := prevKey[..if shared < |prevKey| then shared else |prevKey|];
      key := key + data[pos..pos + suffixLen];
      pos := pos + suffixLen;
      var value := data[pos..pos + valueLen];
      pos := pos + valueLen;
      prevKey := key;
      ghost var rest := DecodeFrom(data[pos..], prevKey, entryCount + 1);
      assert entries + ([Entry(key, value)] + rest) == (entries + [Entry(key, value)]) + rest;
      entries := entries + [Entry(key, value)];
      entryCount := entryCount + 1;
    }
    DecodeShort(data[pos..], prevKey, entryCount);
  }

  lemma DecodeShort(data: Bytes, prev: Bytes, count: nat)
    requires |data| < 6
    ensures DecodeFrom(data, prev, count) == []
  {
  }

  /** One round of that loop, on positions in `data`. */
  lemma DecodeStep(data: Bytes, pos: nat, prev: Bytes, count: nat)
    requires pos + 6 <= |data|
    ensures
      var shared, suffix, value :=
        FromLE(data[pos..pos + 2]), FromLE(data[pos + 2..pos + 4]), FromLE(data[pos + 4..pos + 6]);
      var p := pos + 6;
      if p + suffix + value > |data| then DecodeFrom(data[pos..], prev, count) == []
      else
        var kept := if count % PREFIX_RESET_INTERVAL == 0 then [] else prev;
        var key := kept[..if shared < |kept| then shared else |kept|] + data[p..p + suffix];
        DecodeFrom(data[pos..], prev, count)
        == [Entry(key, data[p + suffix..p + suffix + value])] + DecodeFrom(data[p + suffix + value..], key, count + 1)
  {
    hide FromLE, Header;
    HeaderAt(data, pos);
    var (_, suffix, value) := Header(data[pos..]);
    BodyAt(data, pos, suffix, value);
  }

  lemma HeaderAt(data: Bytes, pos: nat)
    requires pos + 6 <= |data|
    ensures
      Header(data[pos..])
      == (FromLE(data[pos..pos + 2]), FromLE(data[pos + 2..pos + 4]), FromLE(data[pos + 4..pos + 6]))
  {
    hide FromLE;
    var d := data[pos..];
    SliceWithin(data, pos, d, 0, 2);
    SliceWithin(data, pos, d, 2, 4);
    SliceWithin(data, pos, d, 4, 6);
  }

  lemma BodyAt(data: Bytes, pos: nat, suffix: nat, value: nat)
    requires pos + 6 <= |data|
    ensures |data[pos..][6..]| == |data| - pos - 6
    ensures
      var rest, p := data[pos..][6..], pos + 6;
      p + suffix + value <= |data| ==>
        && rest[..suffix] == data[p..p + suffix]
        && rest[suffix..suffix + value] == data[p + suffix..p + suffix + value]
        && rest[suffix + value..] == data[p + suffix + value..]
  {
  }

  predicate SortedIndex(index: seq<IndexEntry>) {
    forall i, j :: 0 <= i < j < |index| ==> Less(index[i].firstKey, index[j].firstKey)
  }

  /** `binary_search_by` over first keys: the entry with this key, or the place to insert it. */
  method BinarySearch(index: seq<IndexEntry>, key: Bytes) returns (found: bool, i: nat)
    requires SortedIndex(index)
    ensures found ==> i < |index| && index[i].firstKey == key
    ensures !found ==> i <= |index|
    ensures !found ==> forall j :: 0 <= j < i ==> Less(index[j].firstKey, key)
    ensures !found ==> forall j :: i <= j < |index| ==> Less(key, index[j].firstKey)
  {
    var lo, hi := 0, |index|;
    while lo < hi
      invariant 0 <= lo <= hi <= |index|
      invariant forall j :: 0 <= j < lo ==> Less(index[j].firstKey, key)
      invariant forall j :: hi <= j < |index| ==> Less(key, index[j].firstKey)
    {
      var mid := (lo + hi) / 2;
      var k := index[mid].firstKey;
      if k == key {
        return true, mid;
      } else if Less(k, key) {
        forall j | 0 <= j < mid ensures Less(index[j].firstKey, key) {
          LessTransitive(index[j].firstKey, k, key);
        }
        lo := mid + 1;
      } else {
        LessTotal(k, key);
        forall j | mid < j < |index| ensures Less(key, index[j].firstKey) {
          LessTransitive(key, k, index[j].firstKey);
        }
        hi := mid;
      }
    }
    found, i := false, lo;
  }

  //
  // A reader over a written file
  //

  /** The reader was opened on the file written for the sorted entries `es`. */
  ghost predicate Reads(h: Hashes, r: SSTableReader, es: seq<Entry>) {
    && Sorted(es)
    && var blocks := Blocks(es);
    && NoEmptyBlock(blocks) && Flatten(blocks) == es
    && r.blockIndex == IndexOf(h, blocks)
    && (forall i :: 0 <= i < |blocks| ==> BlockEntries(r, i) == blocks[i])
    && r.bloom == BloomOf(h, Keys(es))
  }

  /** The file fits the u64 offsets of its footer and block index. */
  predicate Addressable(h: Hashes, es: seq<Entry>, minTs: nat, maxTs: nat) {
    |FileBytes(h, es, minTs, maxTs)| < 0x1_0000_0000_0000_0000
  }

  lemma FooterFields(file: Bytes, body: Bytes, f: Bytes, a: Bytes, b: Bytes, rest: Bytes)
    requires file == body + f && f == a + b + rest && |a| == 8 && |b| == 8 && |f| == FOOTER_SIZE
    ensures |file| >= FOOTER_SIZE && FooterStart(file) == |body|
    ensures ReadIndexOffset(file) == FromLE(a) && ReadBloomOffset(file) == FromLE(b)
  {
    hide FromLE;
    assert file[|body|..|body| + |f|] == f;
    assert f[0..8] == a && f[8..16] == b;
    SliceWithin(file, |body|, f, 0, 8);
    SliceWithin(file, |body|, f, 8, 16);
    assert file[|body|..|body| + 8] == a && file[|body| + 8..|body| + 16] == b;
  }

  lemma FooterParts(i: nat, b: nat, minTs: nat, maxTs: nat, count: nat, crc: nat)
    ensures Footer(i, b, minTs, maxTs, count, crc)
            == LE(i, 8) + LE(b, 8) + (BE(minTs, 8) + BE(maxTs, 8) + LE(count, 8) + LE(1, 4) + LE(crc, 4))
  {
    hide LE, BE;
  }

  lemma OffsetsAreU64(h: Hashes, es: seq<Entry>, minTs: nat, maxTs: nat)
    requires Addressable(h, es, minTs, maxTs)
    ensures Size(IndexOffset(h, es)) <= 8 && Size(BloomOffset(h, es, minTs, maxTs)) <= 8
  {
    hide Size, BlocksBytes, IndexBytes, BloomOf, Footer, FileCrc, Blocks;
    FixedWidths(IndexOffset(h, es));
    FixedWidths(BloomOffset(h, es, minTs, maxTs));
  }

  lemma FooterOfFile(h: Hashes, es: seq<Entry>, minTs: nat, maxTs: nat)
    requires Addressable(h, es, minTs, maxTs)
    ensures
      var file := FileBytes(h, es, minTs, maxTs);
      && |file| >= FOOTER_SIZE && FooterStart(file) == |Body(h, es, minTs, maxTs)|
      && ReadIndexOffset(file) == IndexOffset(h, es)
      && ReadBloomOffset(file) == BloomOffset(h, es, minTs, maxTs)
  {
    var i, b := IndexOffset(h, es), BloomOffset(h, es, minTs, maxTs);
    OffsetsAreU64(h, es, minTs, maxTs);
    LERoundTrip(i, 8);
    LERoundTrip(b, 8);
    var crc := FileCrc(h, es, minTs, maxTs);
    FooterParts(i, b, minTs, maxTs, |es|, crc);
    FileIs(h, es, minTs, maxTs);
    hide *;
    FooterFields(FileBytes(h, es, minTs, maxTs), Body(h, es, minTs, maxTs), Footer(i, b, minTs, maxTs, |es|, crc),
                 LE(i, 8), LE(b, 8), BE(minTs, 8) + BE(maxTs, 8) + LE(|es|, 8) + LE(1, 4) + LE(crc, 4));
  }

  lemma FileIs(h: Hashes, es: seq<Entry>, minTs: nat, maxTs: nat)
    ensures FileBytes(h, es, minTs, maxTs) ==
            Body(h, es, minTs, maxTs)
            + Footer(IndexOffset(h, es), BloomOffset(h, es, minTs, maxTs), minTs, maxTs, |es|, FileCrc(h, es, minTs,
                maxTs))
  {
    hide Body, Footer, IndexOffset, BloomOffset, FileCrc;
  }

  lemma {:induction false} FlattenConcat(xs: seq<seq<Entry>>, ys: seq<seq<Entry>>)
    ensures Flatten(xs + ys) == Flatten(xs) + Flatten(ys)
  {
    if ys == [] {
      assert xs + ys == xs;
    } else {
      var init, last := ys[..|ys| - 1], ys[|ys| - 1];
      assert xs + ys == (xs + init) + [last];
      FlattenConcat(xs, init);
      FlattenSnoc(xs + init, last);
    }
  }

  /** The entries before, in and after block `b`. */
  lemma FlattenParts(blocks: seq<seq<Entry>>, b: nat)
    requires b < |blocks|
    ensures Flatten(blocks) == Flatten(blocks[..b]) + blocks[b] + Flatten(blocks[b + 1..])
  {
    hide *;
    SplitAt(blocks, b);
    FlattenConcat(blocks[..b] + [blocks[b]], blocks[b + 1..]);
    FlattenSnoc(blocks[..b], blocks[b]);
  }

  lemma SplitAt<T>(s: seq<T>, i: nat)
    requires i < |s|
    ensures s == (s[..i] + [s[i]]) + s[i + 1..]
  {
  }

  lemma {:induction false} FlattenHead(blocks: seq<seq<Entry>>)
    requires NoEmptyBlock(blocks) && blocks != []
    ensures Flatten(blocks) != [] && Flatten(blocks)[0] == blocks[0][0]
  {
    if |blocks| == 1 {
      assert Flatten(blocks) == [] + blocks[0];
    } else {
      FlattenHead(blocks[..|blocks| - 1]);
    }
  }

  lemma InBlock(blocks: seq<seq<Entry>>, b: nat, e: Entry)
    requires b < |blocks| && e in blocks[b]
    ensures e in Flatten(blocks)
  {
    FlattenParts(blocks, b);
  }

  /** In sorted entries every part comes before what follows it. */
  lemma SortedParts(x: seq<Entry>, y: seq<Entry>, z: seq<Entry>)
    requires Sorted(x + y + z)
    ensures Sorted(x) && Sorted(y) && Sorted(z)
    ensures forall a, b :: a in x && b in y ==> Less(a.key, b.key)
    ensures forall a, b :: a in y && b in z ==> Less(a.key, b.key)
  {
    var es := x + y + z;
    assert forall i :: 0 <= i < |x| ==> x[i] == es[i];
    assert forall i :: 0 <= i < |y| ==> y[i] == es[|x| + i];
    assert forall i :: 0 <= i < |z| ==> z[i] == es[|x| + |y| + i];
  }

  lemma IndexIsSorted(h: Hashes, blocks: seq<seq<Entry>>)
    requires NoEmptyBlock(blocks) && Sorted(Flatten(blocks))
    ensures SortedIndex(IndexOf(h, blocks))
  {
    hide Flatten, Less, BlocksBytes, Sorted;
    forall i, j | 0 <= i < j < |blocks| ensures Less(blocks[i][0].key, blocks[j][0].key) {
      FlattenParts(blocks, i);
      SortedParts(Flatten(blocks[..i]), blocks[i], Flatten(blocks[i + 1..]));
      assert blocks[j] == blocks[i + 1..][j - i - 1];
      InBlock(blocks[i + 1..], j - i - 1, blocks[j][0]);
    }
  }

  //
  // Opening a written file
  //

  lemma BlockOfFile(h: Hashes, blocks: seq<seq<Entry>>, i: nat, rest: Bytes)
    requires i < |blocks|
    ensures
      var start, end := |BlocksBytes(h, blocks[..i])|, |BlocksBytes(h, blocks[..i + 1])|;
      var file := BlocksBytes(h, blocks) + rest;
      && end == start + |BlockData(blocks[i])| + 4 <= |file|
      && file[start..end - 4] == BlockData(blocks[i])
  {
    hide BlockData, LE;
    var before, data, crc := BlocksBytes(h, blocks[..i]), BlockData(blocks[i]), LE(h.crc(0, BlockData(blocks[i])), 4);
    BlocksBytesSnoc(h, blocks[..i], blocks[i]);
    assert blocks[..i + 1] == blocks[..i] + [blocks[i]];
    BlocksBytesPrefix(h, blocks, i + 1);
    var upTo := BlocksBytes(h, blocks[..i + 1]);
    assert upTo == before + (data + crc);
    var file := BlocksBytes(h, blocks) + rest;
    assert upTo <= file;
    assert file[..|upTo|] == upTo;
    SliceWithin(file, 0, upTo, |before|, |before| + |data|);
    assert upTo[|before|..|before| + |data|] == data;
  }

  lemma BlockBounded(es: seq<Entry>, blocks: seq<seq<Entry>>, i: nat)
    requires Bounded(es) && Flatten(blocks) == es && i < |blocks|
    ensures Bounded(blocks[i])
  {
    hide Flatten;
    forall j | 0 <= j < |blocks[i]| ensures |blocks[i][j].key| < 0x1_0000 && |blocks[i][j].value| < 0x1_0000 {
      InBlock(blocks, i, blocks[i][j]);
      var k :| 0 <= k < |es| && es[k] == blocks[i][j];
    }
  }

  lemma IndexAt(h: Hashes, blocks: seq<seq<Entry>>, i: nat)
    requires NoEmptyBlock(blocks) && i < |blocks|
    ensures |IndexOf(h, blocks)| == |blocks|
    ensures IndexOf(h, blocks)[i] == IndexEntry(blocks[i][0].key, |BlocksBytes(h, blocks[..i])|)
  {
    hide BlocksBytes;
  }

  /** The bytes between two offsets of the index are those of the block. */
  lemma SliceOfBlock(h: Hashes, r: SSTableReader, blocks: seq<seq<Entry>>, rest: Bytes, i: nat)
    requires NoEmptyBlock(blocks) && i < |blocks|
    requires r.mmap == BlocksBytes(h, blocks) + rest
    requires r.blockIndex == IndexOf(h, blocks) && r.indexOffset == |BlocksBytes(h, blocks)|
    ensures i < |r.blockIndex| && BlockSlice(r, i) == BlockData(blocks[i])
  {
    DataNotEmpty(blocks[i]);
    hide IndexOf, BlockData, BlocksBytes;
    BlockOfFile(h, blocks, i, rest);
    IndexAt(h, blocks, i);
    if i + 1 == |blocks| { assert blocks[..i + 1] == blocks; } else { IndexAt(h, blocks, i + 1); }
  }

  lemma DecodedBlock(h: Hashes, es: seq<Entry>, r: SSTableReader, rest: Bytes, i: nat)
    requires NoEmptyBlock(Blocks(es))
    requires r.mmap == BlocksBytes(h, Blocks(es)) + rest
    requires r.blockIndex == IndexOf(h, Blocks(es)) && r.indexOffset == IndexOffset(h, es)
    requires i < |Blocks(es)|
    ensures i < |r.blockIndex| && BlockEntries(r, i) == DecodeFrom(BlockData(Blocks(es)[i]), [], 0)
  {
    hide IndexOf, BlockData, EncodeFrom, DecodeFrom, BlocksBytes, Blocks, NoEmptyBlock, BlockSlice;
    SliceOfBlock(h, r, Blocks(es), rest, i);
  }

  lemma BlockDecodes(es: seq<Entry>)
    requires Bounded(es)
    ensures DecodeFrom(BlockData(es), [], 0) == es
  {
    hide EncodeFrom, DecodeFrom, HeadersFit;
    ValuesDecide(es, [], 0);
    BlockRoundTrip(es, [], 0);
  }

  /** The index holds the first key of each block behind a length of 16 bits. */
  predicate FirstKeysFit(blocks: seq<seq<Entry>>)
    requires NoEmptyBlock(blocks)
  {
    forall i :: 0 <= i < |blocks| ==> |blocks[i][0].key| < 0x1_0000
  }

  lemma BoundedFirstKeys(es: seq<Entry>, blocks: seq<seq<Entry>>)
    requires Bounded(es) && Flatten(blocks) == es && NoEmptyBlock(blocks)
    ensures FirstKeysFit(blocks)
  {
    hide Flatten;
    forall i | 0 <= i < |blocks| ensures |blocks[i][0].key| < 0x1_0000 {
      BlockBounded(es, blocks, i);
    }
  }

  lemma DataNotEmpty(es: seq<Entry>)
    requires es != []
    ensures |BlockData(es)| > 0
  {
  }

  lemma ParsedIndex(h: Hashes, es: seq<Entry>, minTs: nat, maxTs: nat, rest: Bytes)
    requires NoEmptyBlock(Blocks(es)) && FirstKeysFit(Blocks(es))
    requires
      var file := BlocksBytes(h, Blocks(es)) + IndexBytes(IndexOf(h, Blocks(es)), minTs, maxTs) + rest;
      |file| < 0x1_0000_0000_0000_0000
    ensures
      var file := BlocksBytes(h, Blocks(es)) + IndexBytes(IndexOf(h, Blocks(es)), minTs, maxTs) + rest;
      ParseIndex(file, IndexOffset(h, es), BloomOffset(h, es, minTs, maxTs)) == IndexOf(h, Blocks(es))
  {
    hide ParseIndex, BlocksBytes, IndexBytes, Blocks, Size;
    var blocks := Blocks(es);
    var index := IndexOf(h, blocks);
    var data, bytes := BlocksBytes(h, blocks), IndexBytes(index, minTs, maxTs);
    var file := data + bytes + rest;
    forall i | 0 <= i < |index| ensures |index[i].firstKey| < 0x1_0000 && Size(index[i].offset) <= 8 {
      BlocksBytesPrefix(h, blocks, i);
      FixedWidths(index[i].offset);
    }
    assert file[|data|..|data| + |bytes|] == bytes;
    ParseIndexBytes(file, |data|, |data| + |bytes|, index, minTs, maxTs);
  }

  predicate LaidOut(file: Bytes, data: Bytes, index: Bytes, count: Bytes, bloom: Bytes, footer: Bytes) {
    && file == data + index + (count + bloom + footer)
    && |count| == 4 && bloom != [] && |footer| == FOOTER_SIZE
  }

  /** The three fields `open` parses, on a file laid out as index, filter and footer after the blocks. */
  lemma OpenedParts(file: Bytes, data: Bytes, index: Bytes, count: Bytes, bloom: Bytes, footer: Bytes)
    requires LaidOut(file, data, index, count, bloom, footer) && FOOTER_SIZE <= |file| < 0x1_0000_0000_0000_0000
    requires ReadIndexOffset(file) == |data| && ReadBloomOffset(file) == |data| + |index|
    ensures CanOpen(file)
    ensures Opened(file) == Ok(SSTableReader(file, |data|, ParseIndex(file, |data|, |data| + |index|), bloom))
  {
    hide *;
    BloomSlice(file, data, index, count, bloom, footer);
    OpenedAt(file, |data|, |data| + |index|, bloom);
  }

  lemma OpenedAt(file: Bytes, indexOffset: nat, bloomOffset: nat, bloom: Bytes)
    requires FOOTER_SIZE <= |file| < 0x1_0000_0000_0000_0000
    requires ReadIndexOffset(file) == indexOffset && ReadBloomOffset(file) == bloomOffset
    requires bloomOffset + 4 < FooterStart(file) && file[bloomOffset + 4..FooterStart(file)] == bloom
    ensures CanOpen(file)
    ensures Opened(file) == Ok(SSTableReader(file, indexOffset, ParseIndex(file, indexOffset, bloomOffset), bloom))
  {
    hide ReadIndexOffset, ReadBloomOffset, ParseIndex, IndexReadable;
    InsideIsReadable(file, indexOffset, bloomOffset);
  }

  lemma BloomSlice(file: Bytes, data: Bytes, index: Bytes, count: Bytes, bloom: Bytes, footer: Bytes)
    requires LaidOut(file, data, index, count, bloom, footer)
    ensures |file| == |data| + |index| + 4 + |bloom| + FOOTER_SIZE
    ensures |data| + |index| + 4 < FooterStart(file) && file[|data| + |index| + 4..FooterStart(file)] == bloom
  {
    var upTo := data + index;
    Assoc(upTo, count, bloom);
    Assoc(upTo, count + bloom, footer);
    var before := upTo + count;
    assert file == before + bloom + footer;
    assert (before + bloom + footer)[|before|..|before| + |bloom|] == bloom;
  }

  /** The pieces of a written file. */
  lemma FileParts(h: Hashes, es: seq<Entry>, minTs: nat, maxTs: nat) returns (footer: Bytes)
    requires NoEmptyBlock(Blocks(es))
    ensures |footer| == FOOTER_SIZE
    ensures FileBytes(h, es, minTs, maxTs) ==
            BlocksBytes(h, Blocks(es)) + IndexBytes(IndexOf(h, Blocks(es)), minTs, maxTs)
            + (LE(BLOOM_HASH_COUNT, 4) + BloomOf(h, Keys(es)) + footer)
  {
    footer := Footer(IndexOffset(h, es), BloomOffset(h, es, minTs, maxTs), minTs, maxTs, |es|, FileCrc(h, es, minTs,
        maxTs));
    FileIs(h, es, minTs, maxTs);
    BodyIs(h, es, minTs, maxTs);
    hide *;
    var upTo := BlocksBytes(h, Blocks(es)) + IndexBytes(IndexOf(h, Blocks(es)), minTs, maxTs);
    var count, bloom := LE(BLOOM_HASH_COUNT, 4), BloomOf(h, Keys(es));
    Assoc(upTo, count, bloom);
    Assoc(upTo, count + bloom, footer);
  }

  lemma BodyIs(h: Hashes, es: seq<Entry>, minTs: nat, maxTs: nat)
    requires NoEmptyBlock(Blocks(es))
    ensures Body(h, es, minTs, maxTs) ==
            BlocksBytes(h, Blocks(es)) + IndexBytes(IndexOf(h, Blocks(es)), minTs, maxTs)
            + LE(BLOOM_HASH_COUNT, 4) + BloomOf(h, Keys(es))
  {
    hide BlocksBytes, IndexBytes, BloomOf, LE, Blocks, IndexOf, Keys;
  }

  /** What `open` finds in a written file. */
  function ReaderOf(h: Hashes, es: seq<Entry>, minTs: nat, maxTs: nat): SSTableReader
    requires NoEmptyBlock(Blocks(es))
  {
    SSTableReader(FileBytes(h, es, minTs, maxTs), IndexOffset(h, es), IndexOf(h, Blocks(es)), BloomOf(h, Keys(es)))
  }

  lemma OpenedIs(h: Hashes, es: seq<Entry>, minTs: nat, maxTs: nat)
    requires Addressable(h, es, minTs, maxTs) && NoEmptyBlock(Blocks(es)) && FirstKeysFit(Blocks(es))
    ensures
      var file := FileBytes(h, es, minTs, maxTs);
      CanOpen(file) && Opened(file) == Ok(ReaderOf(h, es, minTs, maxTs))
  {
    FooterOfFile(h, es, minTs, maxTs);
    var footer := FileParts(h, es, minTs, maxTs);
    hide LE, BlocksBytes, IndexBytes, BloomOf, Blocks, ParseIndex, FileBytes, Keys, Opened, CanOpen,
      ReadIndexOffset, ReadBloomOffset, IndexOf, Body, FilterBytes, FooterStart, FirstKeysFit, NoEmptyBlock;
    var data, index := BlocksBytes(h, Blocks(es)), IndexBytes(IndexOf(h, Blocks(es)), minTs, maxTs);
    var count, bloom := LE(BLOOM_HASH_COUNT, 4), BloomOf(h, Keys(es));
    OpenedParts(FileBytes(h, es, minTs, maxTs), data, index, count, bloom, footer);
    ParsedIndex(h, es, minTs, maxTs, count + bloom + footer);
  }

  lemma FileAfterBlocks(h: Hashes, es: seq<Entry>, minTs: nat, maxTs: nat) returns (rest: Bytes)
    requires NoEmptyBlock(Blocks(es))
    ensures FileBytes(h, es, minTs, maxTs) == BlocksBytes(h, Blocks(es)) + rest
  {
    var footer := FileParts(h, es, minTs, maxTs);
    hide *;
    var data, index := BlocksBytes(h, Blocks(es)), IndexBytes(IndexOf(h, Blocks(es)), minTs, maxTs);
    var tail := LE(BLOOM_HASH_COUNT, 4) + BloomOf(h, Keys(es)) + footer;
    Assoc(data, index, tail);
    rest := index + tail;
  }

  /** Opening a file written for sorted entries within the u16 bounds gives a reader of exactly those entries. */
  lemma OpensWritten(h: Hashes, es: seq<Entry>, minTs: nat, maxTs: nat)
    requires Sorted(es) && Bounded(es) && Addressable(h, es, minTs, maxTs)
    ensures
      var file := FileBytes(h, es, minTs, maxTs);
      CanOpen(file) && Opened(file).Ok? && Reads(h, Opened(file).value, es)
  {
    BlocksHoldAll(es);
    BoundedFirstKeys(es, Blocks(es));
    OpenedIs(h, es, minTs, maxTs);
    var rest := FileAfterBlocks(h, es, minTs, maxTs);
    hide BlocksBytes, BloomOf, Blocks, FileBytes, Keys, Opened, CanOpen, BlockEntries, IndexOf, Flatten, Bounded,
      Addressable, DecodeFrom, BlockData, FirstKeysFit;
    var r := ReaderOf(h, es, minTs, maxTs);
    forall i | 0 <= i < |Blocks(es)| ensures BlockEntries(r, i) == Blocks(es)[i] {
      DecodedBlock(h, es, r, rest, i);
      BlockBounded(es, Blocks(es), i);
      BlockDecodes(Blocks(es)[i]);
    }
  }

  //
  // Point lookup
  //

  lemma {:induction false} LookupConcat(x: seq<Entry>, y: seq<Entry>, k: Bytes)
    ensures Lookup(x + y, k) == if Lookup(x, k).Some? then Lookup(x, k) else Lookup(y, k)
  {
    if x == [] {
      assert x + y == y;
    } else {
      assert (x + y)[1..] == x[1..] + y;
      LookupConcat(x[1..], y, k);
    }
  }

  lemma NotFound(es: seq<Entry>, k: Bytes)
    requires forall e :: e in es ==> Less(e.key, k) || Less(k, e.key)
    ensures Lookup(es, k) == None
  {
    LookupSome(es, k);
    LessIrreflexive(k);
  }

  /** The block the index points to is the only one that can hold the key. */
  lemma LookupInBlock(blocks: seq<seq<Entry>>, b: nat, k: Bytes)
    requires NoEmptyBlock(blocks) && Sorted(Flatten(blocks)) && b < |blocks|
    requires !Less(k, blocks[b][0].key)
    requires b + 1 < |blocks| ==> Less(k, blocks[b + 1][0].key)
    ensures Lookup(Flatten(blocks), k) == Lookup(blocks[b], k)
  {
    var x, y, z := Flatten(blocks[..b]), blocks[b], Flatten(blocks[b + 1..]);
    FlattenParts(blocks, b);
    SortedParts(x, y, z);
    LessTotal(k, y[0].key);
    forall e | e in x ensures Less(e.key, k) {
      assert Less(e.key, y[0].key);
      if k != y[0].key { LessTransitive(e.key, y[0].key, k); }
    }
    if b + 1 < |blocks| {
      FlattenHead(blocks[b + 1..]);
      forall e | e in z ensures Less(k, e.key) {
        if e != z[0] { LessTransitive(k, z[0].key, e.key); }
      }
    }
    NotFound(x, k);
    NotFound(z, k);
    LookupConcat(x, y, k);
    LookupConcat(x + y, z, k);
  }

  lemma BeforeFirstBlock(blocks: seq<seq<Entry>>, k: Bytes)
    requires NoEmptyBlock(blocks) && Sorted(Flatten(blocks))
    requires blocks != [] ==> Less(k, blocks[0][0].key)
    ensures Lookup(Flatten(blocks), k) == None
  {
    if blocks != [] {
      FlattenHead(blocks);
      AbsentBelow(Flatten(blocks), k);
    }
  }

  lemma BloomIsRight(h: Hashes, r: SSTableReader, es: seq<Entry>, k: Bytes)
    requires Reads(h, r, es) && !MayContain(h, r.bloom, k)
    ensures Lookup(es, k) == None
  {
    LookupSome(es, k);
    if Lookup(es, k).Some? {
      var i :| 0 <= i < |es| && es[i].key == k;
      assert Keys(es)[i] == k;
      NoFalseNegatives(h, seq(FilterBytes(|Keys(es)|), _ => 0), Keys(es), k);
    }
  }

  method LookupLinear(entries: seq<Entry>, key: Bytes) returns (v: Option<Bytes>)
    ensures v == Lookup(entries, key)
  {
    for i := 0 to |entries|
      invariant Lookup(entries, key) == Lookup(entries[i..], key)
    {
      assert entries[i..][0] == entries[i] && entries[i..][1..] == entries[i + 1..];
      if entries[i].key == key {
        return Some(entries[i].value);
      }
    }
    v := None;
  }

  /** `get` on a written table finds exactly what was added. */
  method Get(h: Hashes, r: SSTableReader, key: Bytes, ghost es: seq<Entry>) returns (v: Option<Bytes>)
    requires Reads(h, r, es)
    ensures v == Lookup(es, key)
  {
    hide MayContain, BlockEntries, Blocks, Flatten, Lookup, BloomOf, BlocksBytes;
    ghost var blocks := Blocks(es);
    var may := BloomMayContain(h, r, key);
    if !may {
      BloomIsRight(h, r, es, key);
      return None;
    }
    IndexIsSorted(h, blocks);
    var found, i := BinarySearch(r.blockIndex, key);
    assert forall j :: 0 <= j < |blocks| ==> r.blockIndex[j].firstKey == blocks[j][0].key;
    if !found && i == 0 {
      assert blocks != [] ==> Less(key, r.blockIndex[0].firstKey);
      BeforeFirstBlock(blocks, key);
      return None;
    }
    var blockIdx := if found then i else i - 1;
    ghost var first := r.blockIndex[blockIdx].firstKey;
    assert !Less(key, first) by {
      if found { LessIrreflexive(key); } else { LessAsymmetric(first, key); }
    }
    assert blockIdx + 1 < |blocks| ==> Less(key, r.blockIndex[blockIdx + 1].firstKey);
    LookupInBlock(blocks, blockIdx, key);
    var entries := DecodeBlock(r, blockIdx);
    v := LookupLinear(entries, key);
  }

  //
  // Prefix scan
  //

  lemma {:induction false} NonePast(es: seq<Entry>, p: Bytes)
    requires Successor(p).Some? && forall e :: e in es ==> !Less(e.key, Successor(p).value)
    ensures WithPrefix(es, p) == []
  {
    if es != [] {
      PrefixRange(p, es[0].key);
      NonePast(es[1..], p);
    }
  }

  lemma {:induction false} NoneBefore(es: seq<Entry>, p: Bytes)
    requires forall e :: e in es ==> Less(e.key, p)
    ensures WithPrefix(es, p) == []
  {
    if es != [] {
      PrefixRange(p, es[0].key);
      NoneBefore(es[1..], p);
    }
  }

  /** Nothing before the start block has the prefix. */
  lemma ScanStart(blocks: seq<seq<Entry>>, b: nat, p: Bytes)
    requires NoEmptyBlock(blocks) && Sorted(Flatten(blocks)) && b <= |blocks|
    requires b > 0 ==> b < |blocks| && !Less(p, blocks[b][0].key)
    ensures WithPrefix(Flatten(blocks[..b]), p) == []
  {
    if b > 0 {
      FlattenParts(blocks, b);
      SortedParts(Flatten(blocks[..b]), blocks[b], Flatten(blocks[b + 1..]));
      LessTotal(p, blocks[b][0].key);
      forall e | e in Flatten(blocks[..b]) ensures Less(e.key, p) {
        assert Less(e.key, blocks[b][0].key);
        if p != blocks[b][0].key { LessTransitive(e.key, blocks[b][0].key, p); }
      }
      NoneBefore(Flatten(blocks[..b]), p);
    } else {
      assert blocks[..b] == [];
    }
  }

  /** Once a key has reached the successor, nothing after it has the prefix. */
  lemma ScanEnd(blocks: seq<seq<Entry>>, b: nat, e: Entry, p: Bytes)
    requires Sorted(Flatten(blocks)) && b < |blocks| && e in blocks[b]
    requires Successor(p).Some? && !Less(e.key, Successor(p).value)
    ensures WithPrefix(Flatten(blocks), p) == WithPrefix(Flatten(blocks[..b + 1]), p)
  {
    var z := Flatten(blocks[b + 1..]);
    FlattenParts(blocks, b);
    SortedParts(Flatten(blocks[..b]), blocks[b], z);
    var s := Successor(p).value;
    forall x | x in z ensures !Less(x.key, s) {
      assert Less(e.key, x.key);
      if Less(x.key, s) { LessTransitive(e.key, x.key, s); }
    }
    NonePast(z, p);
    assert blocks[..b + 1] == blocks[..b] + [blocks[b]];
    FlattenSnoc(blocks[..b], blocks[b]);
    WithPrefixConcat(Flatten(blocks[..b + 1]), z, p);
  }

  /** A block whose first key has reached the successor ends the scan. */
  lemma ScanEndsAt(blocks: seq<seq<Entry>>, b: nat, p: Bytes)
    requires NoEmptyBlock(blocks) && Sorted(Flatten(blocks)) && b < |blocks|
    requires Successor(p).Some? && !Less(blocks[b][0].key, Successor(p).value)
    ensures WithPrefix(Flatten(blocks), p) == WithPrefix(Flatten(blocks[..b]), p)
  {
    hide Flatten, WithPrefix, Successor, Less;
    ScanEnd(blocks, b, blocks[b][0], p);
    SortedBlock(blocks, b);
    var s := Successor(p).value;
    forall x | x in blocks[b] ensures !Less(x.key, s) {
      if x != blocks[b][0] && Less(x.key, s) {
        assert Less(blocks[b][0].key, x.key);
        LessTransitive(blocks[b][0].key, x.key, s);
      }
    }
    NonePast(blocks[b], p);
    ScannedBlock(blocks, b, p);
  }

  lemma WithPrefixStep(es: seq<Entry>, i: nat, p: Bytes)
    requires i < |es|
    ensures WithPrefix(es[i..], p) == (if p <= es[i].key then [es[i]] else []) + WithPrefix(es[i + 1..], p)
  {
    assert es[i..][1..] == es[i + 1..];
  }

  lemma NonePastFrom(es: seq<Entry>, i: nat, p: Bytes)
    requires Sorted(es) && i < |es| && Successor(p).Some? && !Less(es[i].key, Successor(p).value)
    ensures WithPrefix(es[i..], p) == []
  {
    var s := Successor(p).value;
    forall e | e in es[i..] ensures !Less(e.key, s) {
      var j :| i <= j < |es| && es[j] == e;
      if j > i && Less(e.key, s) { LessTransitive(es[i].key, es[j].key, s); }
    }
    NonePast(es[i..], p);
  }

  /** The inner loop of `scan_prefix`: the matches of one block, and whether the scan is over. */
  method ScanBlock(entries: seq<Entry>, prefix: Bytes) returns (matches: seq<Entry>, over: bool)
    requires Sorted(entries)
    ensures matches == WithPrefix(entries, prefix)
    ensures over ==> Successor(prefix).Some? && exists e :: e in entries && !Less(e.key, Successor(prefix).value)
  {
    hide WithPrefix, Less, Successor, Sorted;
    matches, over := [], false;
    assert entries[0..] == entries;
    var i := 0;
    while i < |entries|
      invariant 0 <= i <= |entries|
      invariant WithPrefix(entries, prefix) == matches + WithPrefix(entries[i..], prefix)
    {
      WithPrefixStep(entries, i, prefix);
      ghost var rest := WithPrefix(entries[i + 1..], prefix);
      var k := entries[i].key;
      if prefix <= k {
        assert matches + ([entries[i]] + rest) == (matches + [entries[i]]) + rest;
        matches := matches + [entries[i]];
      } else {
        assert [] + rest == rest;
        if Less(prefix, k) {
          var succ := PrefixSuccessor(prefix);
          if succ.Some? && !Less(k, succ.value) {
            NonePastFrom(entries, i, prefix);
            assert entries[i] in entries;
            return matches, true;
          }
        }
      }
      i := i + 1;
    }
    assert entries[i..] == [];
    NothingToScan(prefix);
  }

  lemma NothingToScan(p: Bytes)
    ensures WithPrefix([], p) == []
  {
  }

  /** `scan_prefix` on a written table finds, in order, exactly the entries with the prefix. */
  method ScanPrefix(r: SSTableReader, prefix: Bytes, ghost h: Hashes, ghost es: seq<Entry>)
    returns (results: seq<Entry>)
    requires Reads(h, r, es)
    ensures results == WithPrefix(es, prefix)
  {
    hide BlockEntries, Blocks, Flatten, WithPrefix, BloomOf, BlocksBytes, Successor;
    ghost var blocks := Blocks(es);
    IndexIsSorted(h, blocks);
    var found, i := BinarySearch(r.blockIndex, prefix);
    var startBlock := if found then i else if i == 0 then 0 else i - 1;
    if startBlock > 0 {
      if found { LessIrreflexive(prefix); } else { LessAsymmetric(r.blockIndex[startBlock].firstKey, prefix); }
    }
    ScanStart(blocks, startBlock, prefix);
    results := [];
    var blockIdx := startBlock;
    while blockIdx < |r.blockIndex|
      invariant startBlock <= blockIdx <= |blocks|
      invariant results == WithPrefix(Flatten(blocks[..blockIdx]), prefix)
    {
      var first := r.blockIndex[blockIdx].firstKey;
      if blockIdx > startBlock && !(prefix <= first) {
        if Less(prefix, first) {
          var pastPrefix := PrefixSuccessor(prefix);
          if pastPrefix.Some? && !Less(first, pastPrefix.value) {
            ScanEndsAt(blocks, blockIdx, prefix);
            return;
          }
        }
      }
      var entries := DecodeBlock(r, blockIdx);
      SortedBlock(blocks, blockIdx);
      ghost var before := results;
      var matches, over := ScanBlock(entries, prefix);
      results := results + matches;
      ScannedBlock(blocks, blockIdx, prefix);
      if over {
        ghost var e :| e in entries && !Less(e.key, Successor(prefix).value);
        ScanEnd(blocks, blockIdx, e, prefix);
        return;
      }
      blockIdx := blockIdx + 1;
    }
    assert blocks[..blockIdx] == blocks;
  }

  lemma SortedBlock(blocks: seq<seq<Entry>>, b: nat)
    requires Sorted(Flatten(blocks)) && b < |blocks|
    ensures Sorted(blocks[b])
  {
    FlattenParts(blocks, b);
    SortedParts(Flatten(blocks[..b]), blocks[b], Flatten(blocks[b + 1..]));
  }

  lemma ScannedBlock(blocks: seq<seq<Entry>>, b: nat, p: Bytes)
    requires b < |blocks|
    ensures WithPrefix(Flatten(blocks[..b + 1]), p) == WithPrefix(Flatten(blocks[..b]), p) + WithPrefix(blocks[b], p)
  {
    assert blocks[..b + 1] == blocks[..b] + [blocks[b]];
    FlattenSnoc(blocks[..b], blocks[b]);
    WithPrefixConcat(Flatten(blocks[..b]), blocks[b], p);
  }

  //
  // Contents of a file
  //

  /** The entries of blocks `i` and up. */
  function EntriesFrom(r: SSTableReader, i: nat): seq<Entry>
    requires i <= |r.blockIndex|
    decreases |r.blockIndex| - i
  {
    if i == |r.blockIndex| then [] else BlockEntries(r, i) + EntriesFrom(r, i + 1)
  }

  /** Everything an opened file holds; nothing when it does not open. */
  function Contents(file: Bytes): seq<Entry> {
    if CanOpen(file) && Opened(file).Ok? then EntriesFrom(Opened(file).value, 0) else []
  }

  lemma {:induction false} EntriesOfReader(h: Hashes, r: SSTableReader, es: seq<Entry>, i: nat)
    requires Reads(h, r, es) && i <= |Blocks(es)|
    ensures |Blocks(es)| == |r.blockIndex| && EntriesFrom(r, i) == Flatten(Blocks(es)[i..])
    decreases |Blocks(es)| - i
  {
    hide BlockEntries, Blocks, Flatten, BloomOf;
    var blocks := Blocks(es);
    if i == |blocks| {
      assert blocks[i..] == [];
      FlattenNothing();
    } else {
      EntriesOfReader(h, r, es, i + 1);
      FlattenConcat([blocks[i]], blocks[i + 1..]);
      assert [] + [blocks[i]] == [blocks[i]];
      FlattenSnoc([], blocks[i]);
      FlattenNothing();
      assert blocks[i..] == [blocks[i]] + blocks[i + 1..];
    }
  }

  lemma FlattenNothing()
    ensures Flatten([]) == []
  {
  }

  /** A written file holds the entries it was written for. */
  lemma ContentsOfWritten(h: Hashes, es: seq<Entry>, minTs: nat, maxTs: nat)
    requires Sorted(es) && Bounded(es) && Addressable(h, es, minTs, maxTs)
    ensures Contents(FileBytes(h, es, minTs, maxTs)) == es
  {
    OpensWritten(h, es, minTs, maxTs);
    hide FileBytes, Blocks, Flatten, EntriesFrom;
    EntriesOfReader(h, Opened(FileBytes(h, es, minTs, maxTs)).value, es, 0);
    assert Blocks(es)[0..] == Blocks(es);
  }

  //
  // Exactly which files hold what was written to them
  //

  predicate BlockFits(es: seq<Entry>) { HeadersFit(es, [], 0) }

  lemma {:induction false} FlattenFrom(blocks: seq<seq<Entry>>, i: nat)
    requires i < |blocks|
    ensures Flatten(blocks[i..]) == blocks[i] + Flatten(blocks[i + 1..])
  {
    FlattenConcat([blocks[i]], blocks[i + 1..]);
    FlattenSnoc([], blocks[i]);
    FlattenNothing();
    assert [] + [blocks[i]] == [blocks[i]];
    assert blocks[i..] == [blocks[i]] + blocks[i + 1..];
    assert [] + blocks[i] == blocks[i];
  }

  /** Each block decodes on its own. */
  ghost predicate Decodes(r: SSTableReader, blocks: seq<seq<Entry>>) {
    && |r.blockIndex| == |blocks|
    && forall i :: 0 <= i < |blocks| ==> BlockEntries(r, i) == DecodeFrom(BlockData(blocks[i]), [], 0)
  }

  lemma {:induction false} BlocksDecide(r: SSTableReader, blocks: seq<seq<Entry>>, i: nat)
    requires Decodes(r, blocks) && i <= |blocks|
    ensures EntriesFrom(r, i) == Flatten(blocks[i..]) <==> forall j :: i <= j < |blocks| ==> BlockFits(blocks[j])
    decreases |blocks| - i
  {
    hide BlockEntries, DecodeFrom, BlockData, Flatten, HeadersFit;
    if i == |blocks| {
      assert blocks[i..] == [];
      FlattenNothing();
    } else {
      BlocksDecide(r, blocks, i + 1);
      FlattenFrom(blocks, i);
      var got := BlockEntries(r, i);
      if BlockFits(blocks[i]) {
        BlockRoundTrip(blocks[i], [], 0) by { hide EncodeFrom; }
        assert got == blocks[i] by { DataOf(blocks[i]); }
        SameTail(got, EntriesFrom(r, i + 1), Flatten(blocks[i + 1..]));
      } else {
        var k := FirstDifference(blocks[i], [], 0);
        DataOf(blocks[i]);
        assert (got + EntriesFrom(r, i + 1))[k] == got[k];
        assert (blocks[i] + Flatten(blocks[i + 1..]))[k] == blocks[i][k];
      }
    }
  }

  lemma DataOf(es: seq<Entry>)
    ensures BlockData(es) == EncodeFrom(es, [], 0)
  {
  }

  lemma SameTail(a: seq<Entry>, x: seq<Entry>, y: seq<Entry>)
    ensures a + x == a + y <==> x == y
  {
    if a + x == a + y {
      assert x == (a + x)[|a|..] && y == (a + y)[|a|..];
    }
  }

  lemma DecodesWritten(h: Hashes, es: seq<Entry>, minTs: nat, maxTs: nat)
    requires NoEmptyBlock(Blocks(es))
    ensures Decodes(ReaderOf(h, es, minTs, maxTs), Blocks(es))
  {
    var rest := FileAfterBlocks(h, es, minTs, maxTs);
    hide BlocksBytes, BloomOf, Blocks, FileBytes, Keys, BlockEntries, IndexOf, DecodeFrom, BlockData, NoEmptyBlock;
    var r := ReaderOf(h, es, minTs, maxTs);
    IndexSize(h, Blocks(es));
    forall i | 0 <= i < |Blocks(es)| ensures BlockEntries(r, i) == DecodeFrom(BlockData(Blocks(es)[i]), [], 0) {
      DecodedBlock(h, es, r, rest, i);
    }
  }

  lemma ContentsFrom(file: Bytes)
    requires CanOpen(file) && Opened(file).Ok?
    ensures Contents(file) == EntriesFrom(Opened(file).value, 0)
  {
    hide CanOpen, Opened, EntriesFrom;
  }

  /**
    * A written file gives back its entries if and only if, in each block, all lengths that are written fit their
    * fields. The keys the index holds are to fit too.
    */
  lemma FileRoundTrip(h: Hashes, es: seq<Entry>, minTs: nat, maxTs: nat)
    requires Addressable(h, es, minTs, maxTs) && NoEmptyBlock(Blocks(es)) && FirstKeysFit(Blocks(es))
    ensures Contents(FileBytes(h, es, minTs, maxTs)) == es
            <==> forall i :: 0 <= i < |Blocks(es)| ==> BlockFits(Blocks(es)[i])
  {
    hide *;
    BlocksHoldAll(es);
    OpenedIs(h, es, minTs, maxTs);
    ContentsFrom(FileBytes(h, es, minTs, maxTs));
    DecodesWritten(h, es, minTs, maxTs);
    BlocksDecide(ReaderOf(h, es, minTs, maxTs), Blocks(es), 0);
    assert Blocks(es)[0..] == Blocks(es);
  }

  lemma IndexSize(h: Hashes, blocks: seq<seq<Entry>>)
    requires NoEmptyBlock(blocks)
    ensures |IndexOf(h, blocks)| == |blocks|
  {
    hide BlocksBytes;
  }

  /** With keys of fewer than 2^16 bytes, a written file gives back its entries if and only if all values are too. */
  lemma ValuesDecideFile(h: Hashes, es: seq<Entry>, minTs: nat, maxTs: nat)
    requires Addressable(h, es, minTs, maxTs) && forall i :: 0 <= i < |es| ==> |es[i].key| < 0x1_0000
    ensures Contents(FileBytes(h, es, minTs, maxTs)) == es <==> forall i :: 0 <= i < |es| ==> |es[i].value| < 0x1_0000
  {
    BlocksHoldAll(es);
    hide FileBytes, Contents, Addressable, Flatten, Blocks, HeadersFit;
    var blocks: seq<seq<Entry>> := Blocks(es);
    forall i: nat | i < |blocks|
      ensures |blocks[i][0].key| < 0x1_0000
      ensures BlockFits(blocks[i]) <==> forall j :: 0 <= j < |blocks[i]| ==> |blocks[i][j].value| < 0x1_0000
    {
      forall j | 0 <= j < |blocks[i]| ensures |blocks[i][j].key| < 0x1_0000 {
        InBlock(blocks, i, blocks[i][j]);
        var k :| 0 <= k < |es| && es[k] == blocks[i][j];
      }
      ValuesDecide(blocks[i], [], 0);
    }
    FileRoundTrip(h, es, minTs, maxTs);
    ValuesOfBlocks(blocks);
  }

  lemma {:induction false} ValuesOfBlocks(blocks: seq<seq<Entry>>)
    ensures (forall i :: 0 <= i < |Flatten(blocks)| ==> |Flatten(blocks)[i].value| < 0x1_0000)
            <==> forall i, j :: 0 <= i < |blocks| && 0 <= j < |blocks[i]| ==> |blocks[i][j].value| < 0x1_0000
  {
    if blocks != [] {
      var init, last := blocks[..|blocks| - 1], blocks[|blocks| - 1];
      ValuesOfBlocks(init);
      var all := Flatten(init) + last;
      assert Flatten(blocks) == all;
      hide Flatten;
      assert forall j :: 0 <= j < |last| ==> all[|Flatten(init)| + j] == last[j];
      assert forall j :: 0 <= j < |Flatten(init)| ==> all[j] == Flatten(init)[j];
    }
  }

  /** The keys a reader on a written file looks for: those all of whose bits are bits of keys in the file. */
  lemma LooksFor(h: Hashes, es: seq<Entry>, minTs: nat, maxTs: nat, key: Bytes)
    requires Sorted(es) && Bounded(es) && Addressable(h, es, minTs, maxTs)
    ensures
      var o := Opened(FileBytes(h, es, minTs, maxTs));
      && o.Ok?
      && (MayContain(h, o.value.bloom, key) <==> AllSet(h, Keys(es), key, 8 * FilterBytes(|es|)))
  {
    hide FileBytes, MayContain, AllSet, BloomOf, BlockEntries, Blocks, Flatten, IndexOf, Opened, CanOpen, FilterBytes;
    OpensWritten(h, es, minTs, maxTs);
    PassesIff(h, Keys(es), key);
  }

  lemma OpenFails(file: Bytes)
    requires CanOpen(file)
    ensures Opened(file) == Err(TooSmall) <==> |file| < 48
  {
    hide CanOpen;
  }
}
