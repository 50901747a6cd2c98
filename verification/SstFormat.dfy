/**
  * The bytes of an SSTable file (src/sst/mod.rs, src/sst/write.rs, src/sst/read.rs): blocks of prefix-compressed
  * entries, block index, bloom filter and footer. The checksum and the bloom hash are arbitrary functions.
  */
module SstFormat {
  import opened ByteStrings
  import opened Entries

  const BLOCK_SIZE: nat := 65536
  const PREFIX_RESET_INTERVAL: nat := 16
  const BLOOM_HASH_COUNT: nat := 7
  const FOOTER_SIZE: nat := 48

  /** `crc(initial, data)` and `bloom(key, i)`; nothing is known of either. */
  datatype Hashes = Hashes(crc: (nat, Bytes) -> nat, bloom: (Bytes, nat) -> nat)

  /** Lengths fit the u16 fields of an entry header. */
  predicate Bounded(es: seq<Entry>) {
    forall i :: 0 <= i < |es| ==> |es[i].key| < 0x1_0000 && |es[i].value| < 0x1_0000
  }

  //
  // Entries of a block
  //

  function CommonPrefix(a: Bytes, b: Bytes): (n: nat)
    ensures n <= |a| && n <= |b| && a[..n] == b[..n]
    ensures n == |a| || n == |b| || a[n] != b[n]
  {
    if a == [] || b == [] || a[0] != b[0] then 0
    else
      var n := CommonPrefix(a[1..], b[1..]);
      PrefixTail(a, n);
      PrefixTail(b, n);
      1 + n
  }

  lemma PrefixTail(a: Bytes, n: nat)
    requires a != [] && n <= |a[1..]|
    ensures a[..1 + n] == [a[0]] + a[1..][..n]
  {
  }

  /** Bytes an entry shares with the previous key; none at every 16th entry. The count is a u16. */
  function Shared(prev: Bytes, count: nat, key: Bytes): (n: nat)
    ensures n <= |key|
  {
    if count % PREFIX_RESET_INTERVAL == 0 then 0 else CommonPrefix(prev, key) % 0x1_0000
  }

  function EncodeEntry(shared: nat, e: Entry): Bytes
    requires shared <= |e.key|
  {
    LE(shared, 2) + LE(|e.key| - shared, 2) + LE(|e.value|, 2) + e.key[shared..] + e.value
  }

  function EncodeFrom(es: seq<Entry>, prev: Bytes, count: nat): Bytes {
    if es == [] then []
    else EncodeEntry(Shared(prev, count, es[0].key), es[0]) + EncodeFrom(es[1..], es[0].key, count + 1)
  }

  function BlockData(es: seq<Entry>): Bytes { EncodeFrom(es, [], 0) }

  function LastKey(es: seq<Entry>, prev: Bytes): Bytes {
    if es == [] then prev else es[|es| - 1].key
  }

  lemma {:induction false} EncodeSnoc(es: seq<Entry>, e: Entry, prev: Bytes, count: nat)
    ensures EncodeFrom(es + [e], prev, count)
            == EncodeFrom(es, prev, count) + EncodeEntry(Shared(LastKey(es, prev), count + |es|, e.key), e)
  {
    hide EncodeEntry, Shared;
    if es == [] {
      assert es + [e] == [e];
      assert [e][1..] == [];
      assert EncodeFrom([e], prev, count) == EncodeEntry(Shared(prev, count, e.key), e) + [];
    } else {
      EncodeSnoc(es[1..], e, es[0].key, count + 1);
      assert (es + [e])[1..] == es[1..] + [e];
      var head := EncodeEntry(Shared(prev, count, es[0].key), es[0]);
      var last := EncodeEntry(Shared(LastKey(es, prev), count + |es|, e.key), e);
      assert head + (EncodeFrom(es[1..], es[0].key, count + 1) + last)
             == (head + EncodeFrom(es[1..], es[0].key, count + 1)) + last;
    }
  }

  /**
    * What an entry adds to its block: three lengths, its value, and of its key only what it does not share with the key
    * before it; every 16th key is stored whole.
    */
  lemma EntryCosts(es: seq<Entry>, e: Entry) returns (shared: nat)
    requires forall i :: 0 <= i < |es| ==> |es[i].key| < 0x1_0000
    ensures shared <= |e.key| && |BlockData(es + [e])| == |BlockData(es)| + 6 + (|e.key| - shared) + |e.value|
    ensures |es| % 16 == 0 ==> shared == 0
    ensures |es| % 16 != 0 ==>
      var last := es[|es| - 1].key;
      && shared <= |last| && last[..shared] == e.key[..shared]
      && (shared == |last| || shared == |e.key| || last[shared] != e.key[shared])
  {
    shared := Shared(LastKey(es, []), |es|, e.key);
    EncodeSnoc(es, e, [], 0);
    EntrySize(shared, e);
    SharedIs(LastKey(es, []), |es|, e.key);
    hide EncodeFrom, EncodeEntry, Shared;
  }

  lemma EntrySize(shared: nat, e: Entry)
    requires shared <= |e.key|
    ensures |EncodeEntry(shared, e)| == 6 + (|e.key| - shared) + |e.value|
  {
    hide LE;
  }

  lemma SharedIs(prev: Bytes, count: nat, key: Bytes)
    requires |prev| < 0x1_0000
    ensures count % 16 == 0 ==> Shared(prev, count, key) == 0
    ensures count % 16 != 0 ==> Shared(prev, count, key) == CommonPrefix(prev, key)
  {
    hide CommonPrefix;
  }

  /** The three lengths of the entry header at the front of `data`. */
  function Header(data: Bytes): (nat, nat, nat)
    requires |data| >= 6
  {
    (FromLE(data[0..2]), FromLE(data[2..4]), FromLE(data[4..6]))
  }

  /** What the loop of `decode_block` reads from `data`. */
  function DecodeFrom(data: Bytes, prev: Bytes, count: nat): seq<Entry>
    decreases |data|
  {
    if |data| < 6 then []
    else
      var (shared, suffix, value) := Header(data);
      var rest := data[6..];
      if suffix + value > |rest| then []
      else
        var p := if count % PREFIX_RESET_INTERVAL == 0 then [] else prev;
        var key := p[..if shared < |p| then shared else |p|] + rest[..suffix];
        [Entry(key, rest[suffix..suffix + value])] + DecodeFrom(rest[suffix + value..], key, count + 1)
  }

  lemma HeaderFields(data: Bytes, a: Bytes, b: Bytes, c: Bytes, tail: Bytes)
    requires data == a + b + c + tail && |a| == 2 && |b| == 2 && |c| == 2
    ensures |data| >= 6 && data[0..2] == a && data[2..4] == b && data[4..6] == c && data[6..] == tail
  {
  }

  /** The lengths in the header of an entry are cut to 16 bits. */
  lemma HeaderOf(shared: nat, e: Entry, rest: Bytes)
    requires shared <= |e.key| && shared < 0x1_0000
    ensures
      var data := EncodeEntry(shared, e) + rest;
      && |data| >= 6 && Header(data) == (shared, (|e.key| - shared) % 0x1_0000, |e.value| % 0x1_0000)
      && data[6..] == e.key[shared..] + e.value + rest
  {
    hide LE, FromLE, Size;
    U16Field(shared);
    U16Field(|e.key| - shared);
    U16Field(|e.value|);
    var tail := e.key[shared..] + e.value + rest;
    var a, b, c := LE(shared, 2), LE(|e.key| - shared, 2), LE(|e.value|, 2);
    var data := EncodeEntry(shared, e) + rest;
    assert data == a + b + c + tail;
    HeaderFields(data, a, b, c, tail);
  }

  lemma SharedFits(prev: Bytes, count: nat, key: Bytes)
    ensures
      var n, p := Shared(prev, count, key), if count % PREFIX_RESET_INTERVAL == 0 then [] else prev;
      n < 0x1_0000 && n <= |p| && p[..n] == key[..n]
  {
    if count % PREFIX_RESET_INTERVAL != 0 {
      var c := CommonPrefix(prev, key);
      PrefixOfPrefix(prev, key, c, c % 0x1_0000);
    }
  }

  lemma PrefixOfPrefix(a: Bytes, b: Bytes, c: nat, n: nat)
    requires n <= c <= |a| && c <= |b| && a[..c] == b[..c]
    ensures a[..n] == b[..n]
  {
    assert a[..c][..n] == a[..n] && b[..c][..n] == b[..n];
  }

  /**
    * What is read of an entry, and where reading goes on: after as many bytes as the cut lengths say, which is inside
    * the entry when one of them does not fit.
    */
  lemma DecodeOne(e: Entry, prev: Bytes, count: nat, rest: Bytes)
    ensures
      var shared := Shared(prev, count, e.key);
      var suffix, value := (|e.key| - shared) % 0x1_0000, |e.value| % 0x1_0000;
      var body := e.key[shared..] + e.value + rest;
      var key := e.key[..shared] + body[..suffix];
      DecodeFrom(EncodeEntry(shared, e) + rest, prev, count)
      == [Entry(key, body[suffix..suffix + value])] + DecodeFrom(body[suffix + value..], key, count + 1)
  {
    hide Shared, Header, EncodeEntry;
    SharedFits(prev, count, e.key);
    HeaderOf(Shared(prev, count, e.key), e, rest);
  }

  predicate HeaderFits(e: Entry, shared: nat)
    requires shared <= |e.key|
  {
    |e.key| - shared < 0x1_0000 && |e.value| < 0x1_0000
  }

  /** All lengths that are written fit their fields; of a key only the part that is not shared is written. */
  predicate HeadersFit(es: seq<Entry>, prev: Bytes, count: nat) {
    es != [] ==> HeaderFits(es[0], Shared(prev, count, es[0].key)) && HeadersFit(es[1..], es[0].key, count + 1)
  }

  lemma WholeBody(e: Entry, shared: nat, rest: Bytes)
    requires shared <= |e.key|
    ensures
      var suffix, body := |e.key| - shared, e.key[shared..] + e.value + rest;
      && e.key[..shared] + body[..suffix] == e.key && body[suffix..suffix + |e.value|] == e.value
      && body[suffix + |e.value|..] == rest
  {
    var suffix, body := |e.key| - shared, e.key[shared..] + e.value + rest;
    assert body[..suffix] == e.key[shared..];
    assert e.key[..shared] + e.key[shared..] == e.key;
  }

  lemma DecodeFit(e: Entry, prev: Bytes, count: nat, rest: Bytes)
    requires HeaderFits(e, Shared(prev, count, e.key))
    ensures DecodeFrom(EncodeEntry(Shared(prev, count, e.key), e) + rest, prev, count)
            == [e] + DecodeFrom(rest, e.key, count + 1)
  {
    hide Shared, EncodeEntry, DecodeFrom;
    DecodeOne(e, prev, count, rest);
    WholeBody(e, Shared(prev, count, e.key), rest);
  }

  /** An entry with a length that does not fit is not read back. */
  lemma DecodeCut(e: Entry, prev: Bytes, count: nat, rest: Bytes)
    requires !HeaderFits(e, Shared(prev, count, e.key))
    ensures
      var o := DecodeFrom(EncodeEntry(Shared(prev, count, e.key), e) + rest, prev, count);
      o != [] && o[0] != e
  {
    hide Shared, EncodeEntry, DecodeFrom;
    DecodeOne(e, prev, count, rest);
  }

  /** The first entry whose lengths do not fit is read back as another one. */
  lemma {:induction false} FirstDifference(es: seq<Entry>, prev: Bytes, count: nat) returns (i: nat)
    requires !HeadersFit(es, prev, count)
    ensures
      var o := DecodeFrom(EncodeFrom(es, prev, count), prev, count);
      i < |o| && i < |es| && o[i] != es[i]
  {
    hide Shared, EncodeEntry, DecodeFrom, HeaderFits;
    var e := es[0];
    var rest := EncodeFrom(es[1..], e.key, count + 1);
    if HeaderFits(e, Shared(prev, count, e.key)) {
      DecodeFit(e, prev, count, rest);
      var j := FirstDifference(es[1..], e.key, count + 1);
      i := j + 1;
    } else {
      DecodeCut(e, prev, count, rest);
      i := 0;
    }
  }

  lemma {:induction false} FitDecodes(es: seq<Entry>, prev: Bytes, count: nat)
    requires HeadersFit(es, prev, count)
    ensures DecodeFrom(EncodeFrom(es, prev, count), prev, count) == es
  {
    hide Shared, EncodeEntry, HeaderFits;
    if es != [] {
      var e := es[0];
      FitDecodes(es[1..], e.key, count + 1);
      hide DecodeFrom;
      DecodeFit(e, prev, count, EncodeFrom(es[1..], e.key, count + 1));
      assert es == [e] + es[1..];
    }
  }

  /**
    * Decoding gives back the entries of a block, across prefix compression and its resets, if and only if all lengths
    * that are written fit their fields.
    */
  lemma BlockRoundTrip(es: seq<Entry>, prev: Bytes, count: nat)
    ensures DecodeFrom(EncodeFrom(es, prev, count), prev, count) == es <==> HeadersFit(es, prev, count)
  {
    hide HeadersFit, DecodeFrom, EncodeFrom;
    if HeadersFit(es, prev, count) {
      FitDecodes(es, prev, count);
    } else {
      var i := FirstDifference(es, prev, count);
    }
  }

  /** With keys of fewer than 2^16 bytes it is the values that decide. */
  lemma {:induction false} ValuesDecide(es: seq<Entry>, prev: Bytes, count: nat)
    requires forall i :: 0 <= i < |es| ==> |es[i].key| < 0x1_0000
    ensures HeadersFit(es, prev, count) <==> forall i :: 0 <= i < |es| ==> |es[i].value| < 0x1_0000
  {
    hide Shared;
    if es != [] {
      ValuesDecide(es[1..], es[0].key, count + 1);
      assert forall i :: 1 <= i < |es| ==> es[i] == es[1..][i - 1];
      assert forall i :: 0 <= i < |es| - 1 ==> es[1..][i] == es[i + 1];
    }
  }

  /**
    * A value of 2^16 bytes or more is cut to its length modulo 2^16, and what was cut off is read as the entries that
    * come next.
    */
  lemma LongValueIsCut(e: Entry, prev: Bytes, count: nat, rest: Bytes)
    requires |e.key| < 0x1_0000
    ensures
      var n := |e.value| % 0x1_0000;
      DecodeFrom(EncodeEntry(Shared(prev, count, e.key), e) + rest, prev, count)
      == [Entry(e.key, e.value[..n])] + DecodeFrom(e.value[n..] + rest, e.key, count + 1)
  {
    hide Shared, EncodeEntry, DecodeFrom;
    DecodeOne(e, prev, count, rest);
    var shared, n := Shared(prev, count, e.key), |e.value| % 0x1_0000;
    var suffix, body := |e.key| - shared, e.key[shared..] + e.value + rest;
    WholeBody(e, shared, rest);
    assert body[suffix..suffix + n] == e.value[..n];
    assert body[suffix + n..] == e.value[n..] + rest;
  }

  //
  // Splitting into blocks
  //

  /** The finished blocks and the current one. */
  datatype Split = Split(done: seq<seq<Entry>>, current: seq<Entry>)

  function AddTo(s: Split, e: Entry): Split {
    if |BlockData(s.current)| >= BLOCK_SIZE then Split(s.done + [s.current], [e])
    else Split(s.done, s.current + [e])
  }

  predicate NoEmptyBlock(blocks: seq<seq<Entry>>) {
    forall i :: 0 <= i < |blocks| ==> blocks[i] != []
  }

  function SplitOf(es: seq<Entry>): Split {
    if es == [] then Split([], []) else AddTo(SplitOf(es[..|es| - 1]), es[|es| - 1])
  }

  function Closed(s: Split): seq<seq<Entry>> {
    if s.current == [] then s.done else s.done + [s.current]
  }

  /** The blocks of a file that holds `es`. */
  function Blocks(es: seq<Entry>): seq<seq<Entry>> { Closed(SplitOf(es)) }

  function Flatten(blocks: seq<seq<Entry>>): seq<Entry> {
    if blocks == [] then [] else Flatten(blocks[..|blocks| - 1]) + blocks[|blocks| - 1]
  }

  lemma FlattenSnoc(blocks: seq<seq<Entry>>, b: seq<Entry>)
    ensures Flatten(blocks + [b]) == Flatten(blocks) + b
  {
    assert (blocks + [b])[..|blocks|] == blocks;
  }

  lemma AddHolds(s: Split, e: Entry)
    requires NoEmptyBlock(s.done)
    ensures NoEmptyBlock(AddTo(s, e).done) && NoEmptyBlock(Closed(AddTo(s, e)))
    ensures Flatten(Closed(AddTo(s, e))) == Flatten(Closed(s)) + [e]
  {
    assert s.current == [] ==> BlockData(s.current) == [] by { NoData(); }
    hide BlockData, Flatten;
    if |BlockData(s.current)| >= BLOCK_SIZE {
      FlattenSnoc(s.done + [s.current], [e]);
    } else if s.current == [] {
      FlattenSnoc(s.done, [e]);
      assert s.current + [e] == [e];
    } else {
      FlattenSnoc(s.done, s.current);
      FlattenSnoc(s.done, s.current + [e]);
    }
  }

  /** Splitting loses and reorders nothing, and makes no empty block. */
  lemma {:induction false} BlocksHoldAll(es: seq<Entry>)
    ensures Flatten(Blocks(es)) == es
    ensures NoEmptyBlock(Blocks(es)) && NoEmptyBlock(SplitOf(es).done)
  {
    if es != [] {
      var init, e := es[..|es| - 1], es[|es| - 1];
      BlocksHoldAll(init);
      SplitSnoc(es);
      hide SplitOf, Flatten, NoEmptyBlock, AddTo, Closed;
      AddHolds(SplitOf(init), e);
      assert es == init + [e];
    }
  }

  /** A block is closed once it has 2^16 bytes, and not before: without its last entry it has fewer. */
  predicate JustFull(b: seq<Entry>) {
    b != [] && |BlockData(b)| >= 65536 > |BlockData(b[..|b| - 1])|
  }

  predicate NotYetFull(b: seq<Entry>) {
    b != [] ==> |BlockData(b[..|b| - 1])| < 65536
  }

  lemma {:induction false} SplitSizes(es: seq<Entry>)
    ensures forall i :: 0 <= i < |SplitOf(es).done| ==> JustFull(SplitOf(es).done[i])
    ensures NotYetFull(SplitOf(es).current)
  {
    NoData();
    if es != [] {
      var init, e := es[..|es| - 1], es[|es| - 1];
      SplitSizes(init);
      SplitSnoc(es);
      hide SplitOf, BlockData;
      var s := SplitOf(init);
      assert [e][..0] == [];
      assert (s.current + [e])[..|s.current|] == s.current;
    }
  }

  /** All blocks but the last are just full, and the last is not yet more than that. */
  lemma BlockSizes(es: seq<Entry>, i: nat)
    requires i < |Blocks(es)|
    ensures i + 1 < |Blocks(es)| ==> JustFull(Blocks(es)[i])
    ensures NotYetFull(Blocks(es)[i])
  {
    hide SplitOf, BlockData;
    SplitSizes(es);
  }

  lemma SplitSnoc(es: seq<Entry>)
    requires es != []
    ensures SplitOf(es) == AddTo(SplitOf(es[..|es| - 1]), es[|es| - 1])
  {
  }

  lemma NoData()
    ensures BlockData([]) == []
  {
  }

  function BlockBytes(h: Hashes, es: seq<Entry>): Bytes {
    BlockData(es) + LE(h.crc(0, BlockData(es)), 4)
  }

  function BlocksBytes(h: Hashes, blocks: seq<seq<Entry>>): Bytes {
    if blocks == [] then [] else BlocksBytes(h, blocks[..|blocks| - 1]) + BlockBytes(h, blocks[|blocks| - 1])
  }

  lemma BlocksBytesSnoc(h: Hashes, blocks: seq<seq<Entry>>, b: seq<Entry>)
    ensures BlocksBytes(h, blocks + [b]) == BlocksBytes(h, blocks) + BlockBytes(h, b)
  {
    assert (blocks + [b])[..|blocks|] == blocks;
  }

  lemma {:induction false} BlocksBytesPrefix(h: Hashes, blocks: seq<seq<Entry>>, i: nat)
    requires i <= |blocks|
    ensures BlocksBytes(h, blocks[..i]) <= BlocksBytes(h, blocks)
    decreases |blocks|
  {
    if i < |blocks| {
      var init := blocks[..|blocks| - 1];
      BlocksBytesPrefix(h, init, i);
      assert init[..i] == blocks[..i];
    } else {
      assert blocks[..i] == blocks;
    }
  }

  //
  // Block index
  //

  datatype IndexEntry = IndexEntry(firstKey: Bytes, offset: nat)

  function IndexOf(h: Hashes, blocks: seq<seq<Entry>>): seq<IndexEntry>
    requires NoEmptyBlock(blocks)
  {
    seq(|blocks|, i requires 0 <= i < |blocks| => IndexEntry(blocks[i][0].key, |BlocksBytes(h, blocks[..i])|))
  }

  function EncodeIndexEntry(x: IndexEntry, minTs: nat, maxTs: nat): Bytes {
    LE(|x.firstKey|, 2) + x.firstKey + BE(minTs, 8) + BE(maxTs, 8) + LE(x.offset, 8)
  }

  function IndexBytes(index: seq<IndexEntry>, minTs: nat, maxTs: nat): Bytes {
    if index == [] then [] else EncodeIndexEntry(index[0], minTs, maxTs) + IndexBytes(index[1..], minTs, maxTs)
  }

  /** The loop of `open` over the block index in `file[pos..end]` reads inside the file only. */
  predicate IndexReadable(file: Bytes, pos: nat, end: nat)
    decreases |file| - pos
  {
    pos + 2 <= end ==>
      && pos + 2 <= |file|
      && var next := pos + 2 + FromLE(file[pos..pos + 2]) + 24;
         next <= |file| ==> IndexReadable(file, next, end)
  }

  lemma {:induction false} InsideIsReadable(file: Bytes, pos: nat, end: nat)
    requires end <= |file|
    ensures IndexReadable(file, pos, end)
    decreases |file| - pos
  {
    if pos + 2 <= end {
      var next := pos + 2 + FromLE(file[pos..pos + 2]) + 24;
      if next <= |file| { InsideIsReadable(file, next, end); }
    }
  }

  /** What that loop finds, as far as it reads inside the file. */
  function ParseIndex(file: Bytes, pos: nat, end: nat): seq<IndexEntry>
    decreases |file| - pos
  {
    if pos + 2 > end || pos + 2 > |file| then []
    else
      var keyLen := FromLE(file[pos..pos + 2]);
      if pos + 2 + keyLen + 24 > |file| then []
      else
        var p := pos + 2 + keyLen;
        [IndexEntry(file[pos + 2..p], FromLE(file[p + 16..p + 24]))] + ParseIndex(file, p + 24, end)
  }

  predicate IndexFits(index: seq<IndexEntry>) {
    forall i :: 0 <= i < |index| ==> |index[i].firstKey| < 0x1_0000 && Size(index[i].offset) <= 8
  }

  lemma IndexFitsTail(index: seq<IndexEntry>)
    requires IndexFits(index) && index != []
    ensures |index[0].firstKey| < 0x1_0000 && Size(index[0].offset) <= 8 && IndexFits(index[1..])
  {
  }

  lemma IndexBytesCons(index: seq<IndexEntry>, minTs: nat, maxTs: nat)
    ensures IndexBytes(index, minTs, maxTs) ==
            if index == [] then [] else EncodeIndexEntry(index[0], minTs, maxTs) + IndexBytes(index[1..], minTs, maxTs)
  {
  }

  lemma {:induction false} ParseIndexBytes(file: Bytes, pos: nat, end: nat, index: seq<IndexEntry>,
                                           minTs: nat, maxTs: nat)
    requires pos + |IndexBytes(index, minTs, maxTs)| == end <= |file|
    requires file[pos..end] == IndexBytes(index, minTs, maxTs)
    requires IndexFits(index)
    ensures ParseIndex(file, pos, end) == index
    decreases |index|
  {
    hide *;
    IndexBytesCons(index, minTs, maxTs);
    if index == [] {
      ParseNothing(file, pos);
    } else {
      var head, tail := EncodeIndexEntry(index[0], minTs, maxTs), IndexBytes(index[1..], minTs, maxTs);
      var mid := pos + |head|;
      Halves(file, pos, mid, end, head, tail);
      IndexFitsTail(index);
      ParseIndexBytes(file, mid, end, index[1..], minTs, maxTs);
      ParseIndexEntry(file, pos, end, index[0], minTs, maxTs);
      assert index == [index[0]] + index[1..];
    }
  }

  lemma Halves(file: Bytes, pos: nat, mid: nat, end: nat, head: Bytes, tail: Bytes)
    requires pos + |head| == mid && mid + |tail| == end <= |file| && file[pos..end] == head + tail
    ensures file[pos..mid] == head && file[mid..end] == tail
  {
    assert (head + tail)[..|head|] == head && (head + tail)[|head|..] == tail;
    assert file[pos..mid] == file[pos..end][..|head|];
    assert file[mid..end] == file[pos..end][|head|..];
  }

  lemma ParseNothing(file: Bytes, pos: nat)
    requires pos <= |file|
    ensures ParseIndex(file, pos, pos) == []
  {
  }

  lemma IndexFields(head: Bytes, a: Bytes, k: Bytes, b: Bytes, c: Bytes, d: Bytes)
    requires head == a + k + b + c + d && |a| == 2 && |b| == |c| == |d| == 8
    ensures |head| == |k| + 26
    ensures head[0..2] == a && head[2..2 + |k|] == k && head[|k| + 18..|k| + 26] == d
  {
  }

  lemma ParseIndexEntry(file: Bytes, pos: nat, end: nat, x: IndexEntry, minTs: nat, maxTs: nat)
    requires |x.firstKey| < 0x1_0000 && Size(x.offset) <= 8
    requires pos + |EncodeIndexEntry(x, minTs, maxTs)| <= end <= |file|
    requires file[pos..pos + |EncodeIndexEntry(x, minTs, maxTs)|] == EncodeIndexEntry(x, minTs, maxTs)
    ensures ParseIndex(file, pos, end) == [x] + ParseIndex(file, pos + |EncodeIndexEntry(x, minTs, maxTs)|, end)
  {
    hide LE, FromLE, BE, Size;
    U16Field(|x.firstKey|);
    LERoundTrip(x.offset, 8);
    var head, n := EncodeIndexEntry(x, minTs, maxTs), |x.firstKey|;
    IndexFields(head, LE(n, 2), x.firstKey, BE(minTs, 8), BE(maxTs, 8), LE(x.offset, 8));
    SliceWithin(file, pos, head, 0, 2);
    SliceWithin(file, pos, head, 2, 2 + n);
    SliceWithin(file, pos, head, n + 18, n + 26);
  }

  //
  // Bloom filter
  //

  /** Bit `k` of a byte, and the byte with it set: `b & (1 << k) != 0` and `b | (1 << k)`. */
  predicate BitSet(b: nat, k: nat) {
    if k == 0 then b % 2 == 1 else BitSet(b / 2, k - 1)
  }

  function SetBit(b: nat, k: nat): nat {
    if k == 0 then b - b % 2 + 1 else 2 * SetBit(b / 2, k - 1) + b % 2
  }

  function Pow2(n: nat): (p: nat)
    ensures p > 0
  {
    if n == 0 then 1 else 2 * Pow2(n - 1)
  }

  lemma {:induction false} SetBitBound(b: nat, k: nat, n: nat)
    requires k < n && b < Pow2(n)
    ensures SetBit(b, k) < Pow2(n)
  {
    if k > 0 { SetBitBound(b / 2, k - 1, n - 1); }
  }

  lemma {:induction false} SetBitSets(b: nat, k: nat, j: nat)
    ensures BitSet(SetBit(b, k), j) <==> (j == k || BitSet(b, j))
  {
    if k > 0 && j > 0 { SetBitSets(b / 2, k - 1, j - 1); }
  }

  function ByteWith(b: Byte, k: nat): (r: Byte)
    requires k < 8
    ensures forall j :: BitSet(r, j) <==> (j == k || BitSet(b, j))
  {
    assert Pow2(8) == 256 by { assert Pow2(4) == 16; assert Pow2(6) == 64; }
    SetBitBound(b, k, 8);
    assert forall j :: BitSet(SetBit(b, k), j) <==> (j == k || BitSet(b, j)) by {
      forall j: nat ensures BitSet(SetBit(b, k), j) <==> (j == k || BitSet(b, j)) { SetBitSets(b, k, j); }
    }
    SetBit(b, k)
  }

  predicate HasBit(bloom: Bytes, pos: nat)
    requires pos < 8 * |bloom|
  {
    BitSet(bloom[pos / 8], pos % 8)
  }

  function WithBit(bloom: Bytes, pos: nat): (r: Bytes)
    requires pos < 8 * |bloom|
    ensures |r| == |bloom|
    ensures HasBit(r, pos)
    ensures forall q :: 0 <= q < 8 * |bloom| && HasBit(bloom, q) ==> HasBit(r, q)
  {
    bloom[pos / 8 := ByteWith(bloom[pos / 8], pos % 8)]
  }

  function BitPos(h: Hashes, bloom: Bytes, key: Bytes, i: nat): (pos: nat)
    requires bloom != []
    ensures pos < 8 * |bloom|
  {
    h.bloom(key, i) % (8 * |bloom|)
  }

  /** Sets the first `n` bits of `key`. */
  function WithKey(h: Hashes, bloom: Bytes, key: Bytes, n: nat): (r: Bytes)
    requires bloom != []
    ensures |r| == |bloom|
    ensures forall q :: 0 <= q < 8 * |bloom| && HasBit(bloom, q) ==> HasBit(r, q)
    ensures forall i :: 0 <= i < n ==> HasBit(r, BitPos(h, r, key, i))
  {
    if n == 0 then bloom
    else
      var prior := WithKey(h, bloom, key, n - 1);
      var r := WithBit(prior, BitPos(h, prior, key, n - 1));
      assert forall i :: 0 <= i < n ==> BitPos(h, r, key, i) == BitPos(h, prior, key, i);
      r
  }

  predicate MayContain(h: Hashes, bloom: Bytes, key: Bytes) {
    bloom == [] || forall i :: 0 <= i < BLOOM_HASH_COUNT ==> HasBit(bloom, BitPos(h, bloom, key, i))
  }

  function FilterBytes(numKeys: nat): (n: nat)
    ensures n > 0
  {
    ((if numKeys == 0 then 8 else numKeys * 10) + 7) / 8
  }

  function WithKeys(h: Hashes, bloom: Bytes, keys: seq<Bytes>): (r: Bytes)
    requires bloom != []
    decreases |keys|
    ensures |r| == |bloom|
    ensures forall q :: 0 <= q < 8 * |bloom| && HasBit(bloom, q) ==> HasBit(r, q)
  {
    if keys == [] then bloom else WithKeys(h, WithKey(h, bloom, keys[0], BLOOM_HASH_COUNT), keys[1..])
  }

  function BloomOf(h: Hashes, keys: seq<Bytes>): (r: Bytes)
    ensures |r| == FilterBytes(|keys|)
  {
    WithKeys(h, seq(FilterBytes(|keys|), _ => 0), keys)
  }

  /** The filter never denies a key it was built from, whatever the hash function. */
  lemma {:induction false} NoFalseNegatives(h: Hashes, bloom: Bytes, keys: seq<Bytes>, key: Bytes)
    requires bloom != [] && key in keys
    ensures MayContain(h, WithKeys(h, bloom, keys), key)
    decreases |keys|
  {
    var first := WithKey(h, bloom, keys[0], BLOOM_HASH_COUNT);
    var r := WithKeys(h, first, keys[1..]);
    if key == keys[0] {
      forall i | 0 <= i < BLOOM_HASH_COUNT ensures HasBit(r, BitPos(h, r, key, i)) {
        assert BitPos(h, first, key, i) == BitPos(h, r, key, i);
      }
    } else {
      NoFalseNegatives(h, first, keys[1..], key);
    }
  }

  /** Some key sets the bit. */
  ghost predicate Sets(h: Hashes, keys: seq<Bytes>, bits: nat, pos: nat)
    requires bits > 0
  {
    exists k, i :: 0 <= k < |keys| && 0 <= i < BLOOM_HASH_COUNT && SetsBit(h, keys[k], i, bits, pos)
  }

  predicate SetsBit(h: Hashes, key: Bytes, i: nat, bits: nat, pos: nat)
    requires bits > 0
  {
    h.bloom(key, i) % bits == pos
  }

  lemma OneBit(bloom: Bytes, pos: nat, q: nat)
    requires pos < 8 * |bloom| && q < 8 * |bloom|
    ensures HasBit(WithBit(bloom, pos), q) <==> q == pos || HasBit(bloom, q)
  {
    hide BitSet;
    if q / 8 == pos / 8 {
      var b, r := bloom[pos / 8], ByteWith(bloom[pos / 8], pos % 8);
      assert BitSet(r, q % 8) <==> (q % 8 == pos % 8 || BitSet(b, q % 8));
      assert q % 8 == pos % 8 ==> q == pos;
    }
  }

  lemma {:induction false} BitsOfKey(h: Hashes, bloom: Bytes, key: Bytes, n: nat, q: nat)
    requires bloom != [] && q < 8 * |bloom|
    ensures HasBit(WithKey(h, bloom, key, n), q)
            <==> HasBit(bloom, q) || exists i :: 0 <= i < n && SetsBit(h, key, i, 8 * |bloom|, q)
  {
    hide HasBit, WithBit;
    if n > 0 {
      BitsOfKey(h, bloom, key, n - 1, q);
      var prior := WithKey(h, bloom, key, n - 1);
      OneBit(prior, BitPos(h, prior, key, n - 1), q);
      if BitPos(h, prior, key, n - 1) == q { assert SetsBit(h, key, n - 1, 8 * |bloom|, q); }
    }
  }

  lemma {:induction false} BitsOfKeys(h: Hashes, bloom: Bytes, keys: seq<Bytes>, q: nat)
    requires bloom != [] && q < 8 * |bloom|
    ensures HasBit(WithKeys(h, bloom, keys), q) <==> HasBit(bloom, q) || Sets(h, keys, 8 * |bloom|, q)
    decreases |keys|
  {
    hide HasBit, WithKey, SetsBit;
    if keys != [] {
      BitsOfKey(h, bloom, keys[0], BLOOM_HASH_COUNT, q);
      BitsOfKeys(h, WithKey(h, bloom, keys[0], BLOOM_HASH_COUNT), keys[1..], q);
      SetsCons(h, keys, 8 * |bloom|, q);
    }
  }

  lemma SetsCons(h: Hashes, keys: seq<Bytes>, bits: nat, q: nat)
    requires keys != [] && bits > 0
    ensures Sets(h, keys, bits, q)
            <==> (exists i :: 0 <= i < BLOOM_HASH_COUNT && SetsBit(h, keys[0], i, bits, q))
                 || Sets(h, keys[1..], bits, q)
  {
    hide SetsBit;
    if Sets(h, keys, bits, q) {
      var k, i :| 0 <= k < |keys| && 0 <= i < BLOOM_HASH_COUNT && SetsBit(h, keys[k], i, bits, q);
      if k > 0 { assert keys[1..][k - 1] == keys[k]; }
    }
    if Sets(h, keys[1..], bits, q) {
      var k, i :| 0 <= k < |keys[1..]| && 0 <= i < BLOOM_HASH_COUNT && SetsBit(h, keys[1..][k], i, bits, q);
      assert keys[k + 1] == keys[1..][k];
    }
  }

  lemma NoBits(n: nat, q: nat)
    requires q < 8 * n
    ensures !HasBit(seq(n, _ => 0), q)
  {
    NoBitsOfZero(q % 8);
  }

  lemma {:induction false} NoBitsOfZero(k: nat)
    ensures !BitSet(0, k)
  {
    if k > 0 { NoBitsOfZero(k - 1); }
  }

  /** Exactly the bits of the keys are set in the filter, and nothing else. */
  lemma BloomExact(h: Hashes, keys: seq<Bytes>, q: nat)
    requires q < 8 * |BloomOf(h, keys)|
    ensures HasBit(BloomOf(h, keys), q) <==> Sets(h, keys, 8 * |BloomOf(h, keys)|, q)
  {
    hide HasBit, WithKeys, Sets;
    var none := seq(FilterBytes(|keys|), _ => 0);
    NoBits(FilterBytes(|keys|), q);
    BitsOfKeys(h, none, keys, q);
  }

  /** The keys that a filter lets pass: those all of whose bits are bits of keys it was built from. */
  lemma PassesIff(h: Hashes, keys: seq<Bytes>, key: Bytes)
    ensures MayContain(h, BloomOf(h, keys), key) <==> AllSet(h, keys, key, 8 * |BloomOf(h, keys)|)
  {
    hide HasBit, BloomOf, Sets;
    var bloom := BloomOf(h, keys);
    var bits := 8 * |bloom|;
    if MayContain(h, bloom, key) {
      forall i | 0 <= i < BLOOM_HASH_COUNT ensures Sets(h, keys, bits, h.bloom(key, i) % bits) {
        assert HasBit(bloom, BitPos(h, bloom, key, i));
        BloomExact(h, keys, BitPos(h, bloom, key, i));
      }
    }
    if AllSet(h, keys, key, bits) {
      forall i | 0 <= i < BLOOM_HASH_COUNT ensures HasBit(bloom, BitPos(h, bloom, key, i)) {
        assert Sets(h, keys, bits, h.bloom(key, i) % bits);
        BloomExact(h, keys, BitPos(h, bloom, key, i));
      }
    }
  }

  ghost predicate AllSet(h: Hashes, keys: seq<Bytes>, key: Bytes, bits: nat)
    requires bits > 0
  {
    forall i :: 0 <= i < BLOOM_HASH_COUNT ==> Sets(h, keys, bits, h.bloom(key, i) % bits)
  }

  /** Bit `k` of a byte counts 2 to the power `k`; ten bits a key, and at least eight, are rounded up to bytes. */
  lemma {:induction false} BitOf(b: nat, k: nat)
    ensures BitSet(b, k) <==> (b / Pow2(k)) % 2 == 1
  {
    if k > 0 {
      BitOf(b / 2, k - 1);
      DivideTwice(b, 2, Pow2(k - 1), Pow2(k));
    }
  }

  lemma FilterSize(h: Hashes, keys: seq<Bytes>)
    ensures keys == [] ==> |BloomOf(h, keys)| == 1
    ensures keys != [] ==> 10 * |keys| <= 8 * |BloomOf(h, keys)| < 10 * |keys| + 8
  {
    hide WithKeys;
  }

  //
  // The file
  //

  /** The checksum over the pieces emitted so far. */
  function RunningCrc(h: Hashes, pieces: seq<Bytes>): nat {
    if pieces == [] then 0 else h.crc(RunningCrc(h, pieces[..|pieces| - 1]), pieces[|pieces| - 1])
  }

  function BlockPieces(h: Hashes, blocks: seq<seq<Entry>>): (ps: seq<Bytes>)
    ensures |ps| == |blocks|
  {
    if blocks == [] then [] else BlockPieces(h, blocks[..|blocks| - 1]) + [BlockBytes(h, blocks[|blocks| - 1])]
  }

  function Footer(indexOffset: nat, bloomOffset: nat, minTs: nat, maxTs: nat, count: nat, crc: nat): (f: Bytes)
    ensures |f| == FOOTER_SIZE
  {
    LE(indexOffset, 8) + LE(bloomOffset, 8) + BE(minTs, 8) + BE(maxTs, 8) + LE(count, 8) + LE(1, 4) + LE(crc, 4)
  }

  /** Everything before the footer: blocks, block index, hash count, filter. */
  function Body(h: Hashes, es: seq<Entry>, minTs: nat, maxTs: nat): Bytes {
    BlocksHoldAll(es);
    BlocksBytes(h, Blocks(es))
    + IndexBytes(IndexOf(h, Blocks(es)), minTs, maxTs)
    + LE(BLOOM_HASH_COUNT, 4) + BloomOf(h, Keys(es))
  }

  function FileCrc(h: Hashes, es: seq<Entry>, minTs: nat, maxTs: nat): nat {
    BlocksHoldAll(es);
    RunningCrc(h, BlockPieces(h, Blocks(es))
                  + [IndexBytes(IndexOf(h, Blocks(es)), minTs, maxTs)]
                  + [LE(BLOOM_HASH_COUNT, 4)] + [BloomOf(h, Keys(es))])
  }

  function IndexOffset(h: Hashes, es: seq<Entry>): nat { |BlocksBytes(h, Blocks(es))| }

  function BloomOffset(h: Hashes, es: seq<Entry>, minTs: nat, maxTs: nat): nat {
    BlocksHoldAll(es);
    IndexOffset(h, es) + |IndexBytes(IndexOf(h, Blocks(es)), minTs, maxTs)|
  }

  /** The whole file written for the entries `es`. */
  function FileBytes(h: Hashes, es: seq<Entry>, minTs: nat, maxTs: nat): Bytes {
    Body(h, es, minTs, maxTs)
    + Footer(IndexOffset(h, es), BloomOffset(h, es, minTs, maxTs), minTs, maxTs, |es|, FileCrc(h, es, minTs, maxTs))
  }
}
