# CDoc, a verified model

CDoc keeps documents in a small log-structured store. A document is flattened into entries whose keys are encoded
paths; entries are written to a write-ahead log and to a MemTable, and flushed from there to SSTable files. Readers
take snapshots, one writer at a time holds a lock, queries are parsed from text, and timestamps come from a hybrid
logical clock. This project models those parts in Dafny, with real bytes, offsets and field widths, and proves what they
are for. `dafny verify dfyconfig.toml` checks all of it.

The files, from the bottom up:

- `ByteStrings`, `VarInts`, `FractionalIndices`, `Paths`, `PathReaders`, `PathWriters`, `Mutations`: keys. Byte order of
  encoded paths is structural order, prefixes are subtrees, and a mutation tree flattens to one entry a leaf.
- `Entries`, `MemTables`, `SstFormat`, `SstWriters`, `SstReaders`: sorted entries in memory and in files. A reader opened
  on the bytes of a written file finds exactly what was written.
- `Wals`: the log, byte for byte, and its replay after a torn write.
- `Recovery`, `Store`, `Runs`: the store as a state machine over the steps of one writer, any number of readers and
  crashes, with the files as bytes; its invariant, and theorems over whole runs.
- `Walks`, `Losses`: runs of several steps, as the methods take them, and the runs in which the code loses a committed
  write.
- `Transactions`, `Databases`, `Subtrees`: the objects of the program. Their methods are proved to take moves of the state
  machine, so that its theorems hold of them; the tie between objects and machine holds after each effect of a commit or
  a flush, not only at the end, so that the effects come in the order of the machine.
- `Hlc`: the clock, with any number of threads inside its compare-and-swap loop.
- `QueryTexts`, `QueryParsers`, `QueryReading`, `QueryAccepting`, `QueryLanguage`, `QueryErrors`, `QueryFaults`,
  `QueryExamples`: the query parser, the language it accepts, where its errors point and when it reports which.
- `Layouts`: keys and a table with all their bytes.

The checksum and the bloom hash are arbitrary functions (`Wals.Checksum`, `SstFormat.Hashes`); every theorem holds for any
choice of them. A `BTreeMap` is a strictly sorted sequence of entries. Clock readings are parameters.

What is committed (`durable` in `Store.State`) is always the tables, overlaid with what the last opening replayed from the
log and has not been flushed since (`unlogged`), overlaid with the committed records of the log. `Db::open` truncates the
log after replaying it (src/db.rs:90), so `unlogged` lives in memory only; `Runs.CrashConsistency` says exactly when a
crash loses nothing, and `Losses.LostUpdate` is a run that loses a committed write to two crashes.

A table file is named by the clock, whose counter starts at 0 in a new process (src/hlc.rs:27), and nothing compares the
name with those of older tables. `Store.Move` is what the code does, and what every method is proved to do, whatever the
clock; `Store.Step` is a move whose flush, if it is one, takes a name past those found when the store was opened. All
moves keep `Store.Sound`, from which snapshot isolation and serializability follow, and a crash turns it into the whole
invariant, `Store.Inv`. Steps keep that too: the tables in memory are those of the directory, in its order.
`Losses.FlushShows` says for every such state exactly which flushes lose something, and that timely ones do not;
`Losses.FlushOrder`, `Losses.HiddenByOlder`, `Losses.ClockBehind` and `Losses.RestartInWindow` say what is lost.

Where the code and its comments differ the model follows the code:

- The clock clears the low 8 bits of the time (src/hlc.rs:31), not 16 (src/hlc.rs:8-9, 30).
- In a commit record the timestamp comes after key and value and is part of the checksum (src/wal/mod.rs:151-163), not
  before them (src/wal/mod.rs:11-13).
- A path is to be at most `i16::MAX` bytes (src/path/write.rs:10), but an index is counted without its delimiter, a
  last-write-wins or counter terminator is not counted (src/path/write.rs:50-80), the check for a chunked terminator
  leaves out the length byte of its varint (src/path/write.rs:60-67), and a mutation counts every segment it writes, on
  all its paths together (src/mutation.rs:57-83). `PathWriters.LimitKept`, `PathWriters.LimitBroken`,
  `PathWriters.ChunkedLimitBroken` and `Mutations.LimitIsShared` say what follows.
- `between` promises an index between its neighbours (src/path/lseq.rs:28-30); it can come out above the upper one.
  `FractionalIndices.BetweenTheorem` says exactly when.
- An empty index counts as valid (src/path/lseq.rs:43-50) and is written like an empty name: `Mutations.SameKeyIff` says
  that this is the only way for two paths to share a key.

## Model

| member | source | states |
|---|---|---|
| ByteStrings.PrefixSuccessor | src/sst/memtable.rs:72-82 | the in-place loop returns the successor of the prefix, none for an empty or all-0xFF prefix |
| ByteStrings.PrefixRange | src/sst/memtable.rs:42-54 | the keys from a prefix up to its successor (or without bound) are exactly those starting with it |
| VarInts.Write | src/varint.rs:28-41 | stripping leading zero bytes leaves the significant bytes of the number behind their count, at every width |
| VarInts.ReadFrom | src/varint.rs:12-26 | right-aligning the bytes in a buffer reads the number they stand for and its length, or nothing when they are too many |
| VarInts.RoundTrip | src/varint.rs:12-41 | reading what was written, whatever follows it, gives the value and its length; at a narrower width, nothing exactly when the value does not fit |
| VarInts.OrderIff | src/varint.rs:28-41 | byte order of encodings is numeric order, and no encoding is a prefix of another |
| VarInts.Shortest | src/varint.rs:12-41 | no number is read from fewer bytes than those written for it |
| FractionalIndices.NextSegment | src/path/lseq.rs:116-123 | one step of the segment iterator, which stays where it is once a segment does not parse |
| FractionalIndices.SegmentsOfEncoded | src/path/lseq.rs:43-59 | iterating over an encoded index gives back its segments, and the index is valid |
| FractionalIndices.FromBytes | src/path/lseq.rs:61-86 | the loop measures the index at the front of the bytes, and fails on an unreadable sequence number |
| FractionalIndices.IndexLengthOfEncoded | src/path/lseq.rs:61-86 | an encoded index is measured exactly, also when a 0 delimiter and anything else follows |
| FractionalIndices.Unreadable | src/path/lseq.rs:61-86 | after whole segments, a byte that begins no number ends the index there, and in place of a sequence number makes all of it unreadable |
| FractionalIndices.IndexOrderIff | src/path/lseq.rs:125-129 | byte order of indices is the order of their lists of peer and sequence number |
| FractionalIndices.WriteFractionalIndex | src/path/lseq.rs:158-209 | the two loops over the bytes of the neighbours end, and emit the segments given by `Between` |
| FractionalIndices.BetweenTheorem | src/path/lseq.rs:28-41 | the new index is readable, valid and above the lower neighbour; it is below the upper one if and only if there is room, a condition on the neighbours and the peer |
| FractionalIndices.NoMaxSeqSuffices | src/path/lseq.rs:158-209 | sequence numbers below the greatest u32 in the lower index are enough for generation not to overflow |
| FractionalIndices.NoRoomExample | src/path/lseq.rs:192-206 | prepending before (2, 5) as peer 3 gives an index above it |
| FractionalIndices.AppendIgnoresPeer | src/path/lseq.rs:192-206 | two peers that append after the same index get the same new one, unless all its segments are one below the greatest |
| FractionalIndices.PeersAgreeIff | src/path/lseq.rs:158-209 | two peers get the same index between any two neighbours if and only if neither has a free place after a segment of its own there, the upper neighbour has fewer segments, and past it some segment is not one below the greatest |
| FractionalIndices.StaysOnLevel | src/path/lseq.rs:172-183 | at the first segment of its own with a free sequence number below the upper neighbour a peer ends the index, one past it |
| FractionalIndices.CopiesShared | src/path/lseq.rs:172-190 | with no such segment it copies the lower neighbour as long as both have segments |
| FractionalIndices.OpensLevel | src/path/lseq.rs:192-206 | past the lower neighbour it writes (peer, 1) for each segment that leaves no room, then (peer, 2) |
| FractionalIndices.EndsPastHi | src/path/lseq.rs:192-206 | past the upper neighbour it goes one past the first segment that is not one below the greatest |
| Paths.OrderIsomorphism | src/path/mod.rs:9-48 | byte order of encoded paths is structural order (empty field, indices, terminators, other fields), and none is a prefix of another |
| Paths.SubtreeIsPrefix | src/path/write.rs:39-57 | an encoded path starts with an encoded prefix and a 0 byte if and only if its steps start with those of the prefix, although indices may hold 0 bytes |
| Layouts.KeyBytes | src/path/mod.rs:9-48 | a path with each of the three terminators, byte by byte |
| PathReaders.PathReader.ReadField | src/path/read.rs:18-29 | the field runs to the next delimiter, which stays unread |
| PathReaders.PathReader.Next | src/path/read.rs:66-95 | the dispatch on the first byte: each kind of segment, each error, and what is left to read |
| PathReaders.ReadsWhatIsThere | src/path/read.rs:18-95 | on any buffer: the bytes of each segment that is read, what is left, and the cause of each error |
| PathReaders.PathRoundTrip | src/path/read.rs:18-96 | reading an encoded path yields exactly its segments and its terminator, then ends |
| PathWriters.IsValidField | src/path/mod.rs:69-76 | a field is valid if and only if all its bytes are 32 or more |
| PathWriters.PathWriter.PushField | src/path/write.rs:39-47 | the whole effect on buffer and account, and each refusal, which changes nothing |
| PathWriters.PathWriter.PushIndex | src/path/write.rs:50-57 | the same; the index is checked with its delimiter but counted without |
| PathWriters.PathWriter.LwwChunked | src/path/write.rs:60-67 | refused as `ChunkedIff` says, or finalized with the terminator and the end as a varint |
| PathWriters.PathWriter.Lww | src/path/write.rs:70-73 | finalized with the terminator, whatever the account |
| PathWriters.PathWriter.Counter | src/path/write.rs:76-80 | finalized with the terminator and four bytes of the peer |
| PathWriters.PushesEncode | src/path/write.rs:39-57 | pushing the steps of a path writes its encoding, and is never refused while the encoding fits |
| PathWriters.WhyRefused | src/path/write.rs:30-57 | after any pushes, exactly when a further one is refused, and with which error, from the bytes of the path |
| PathWriters.LimitKept | src/path/write.rs:30-80 | with any terminator, a finalized path keeps the length limit if and only if account, one byte an index and the delimited terminator fit |
| PathWriters.LimitBroken | src/path/write.rs:39-73 | a field that is accepted and gives a key beyond the limit and beyond 2^15 |
| PathWriters.ChunkedLimitBroken | src/path/write.rs:60-67 | a field that passes both checks of a chunked path and gives a key one byte beyond the limit |
| PathWriters.ChunkedIff | src/path/write.rs:60-67 | after any pushes, a chunked path is refused as too long exactly when it would have more than one byte, and one for each index, past the limit |
| Mutations.WriteSegment | src/mutation.rs:109-118 | an invalid index is refused, other segments are pushed |
| Mutations.WhyRefused | src/mutation.rs:109-118 | an index is refused as invalid exactly when it is, whatever its length |
| Mutations.ForEachInternal | src/mutation.rs:52-84 | the traversal with its shared, truncated buffer computes `Run`, buffer and account included |
| Mutations.ForEachChild | src/mutation.rs:67-82 | the loop over children, cutting the buffer back after each |
| Mutations.Flattening | src/mutation.rs:44-84 | exactly one entry a leaf, in document order, under the leaf's own path; an error exactly when writing all segments one after the other meets one, and then exactly the leaves before the refused segment |
| Mutations.MutationAccepted | src/mutation.rs:44-84 | a mutation is accepted if and only if all its segments are valid and their bytes together, with a delimiter for each field and for an index that comes last, fit the limit |
| Mutations.KeyIsEncodedPath | src/mutation.rs:52-66 | the key of a leaf is the encoding of its path as a last-write-wins register |
| Mutations.SameKeyIff | src/mutation.rs:52-118 | two leaves at valid paths get the same key if and only if their paths are equal up to empty indices and empty names, also for indices whose numbers are not in shortest form |
| Mutations.EmptyIndexIsEmptyName | src/mutation.rs:109-118 | a leaf under an empty index is accepted and emits the key of one under an empty name |
| Layouts.MutationEntries | src/mutation.rs:44-118 | a tree with an assignment and a deletion, and the bytes of its two entries |
| FractionalIndices.IndexLengthOfValid | src/path/lseq.rs:43-86 | every valid index, in shortest form or not, is measured exactly before a delimiter |
| Mutations.LimitIsShared | src/mutation.rs:67-82 | two leaves that are accepted one by one are refused in one mutation |
| MemTables.MemTable.Insert | src/sst/memtable.rs:21-33 | the map is updated, the old value returned, and the size kept by hand stays the exact footprint |
| Entries.FootprintConcat | src/sst/memtable.rs:21-33 | the size of entries is that of their parts; of one entry, the length of key and value |
| MemTables.MemTable.Get | src/sst/memtable.rs:36-38 | the value in the map, or none |
| MemTables.MemTable.Scan | src/sst/memtable.rs:42-54 | sorted, and exactly the entries with the prefix |
| Entries.RangeIsWithPrefix | src/sst/memtable.rs:42-54 | the range scan from a prefix to its successor is the filter of all entries by that prefix |
| Entries.Extensional | src/sst/memtable.rs:3-10 | sorted entries are determined by what they contain |
| SstFormat.CommonPrefix | src/sst/write.rs:186-188 | the longest common prefix: equal up to there, and different or ended after |
| SstFormat.BlockRoundTrip | src/sst/read.rs:183-216 | decoding a prefix-compressed block, resets included, gives back its entries if and only if all lengths that are written fit 16 bits |
| SstFormat.BlocksHoldAll | src/sst/write.rs:54-95 | splitting into blocks loses and reorders nothing, and makes no empty block |
| SstFormat.BlockSizes | src/sst/write.rs:54-66 | every block but the last has 2^16 bytes or more, and no block has without its last entry |
| SstFormat.EntryCosts | src/sst/write.rs:67-95 | what an entry adds to its block: six bytes, its value and what its key does not share with the key before it; every 16th key is stored whole |
| SstFormat.NoFalseNegatives | src/sst/write.rs:145-157 | the bloom filter never denies a key it was built from, whatever the hash |
| SstFormat.BloomExact | src/sst/write.rs:139-153 | exactly the bits of the keys are set in the filter |
| SstFormat.PassesIff | src/sst/read.rs:76-89 | the keys a filter lets pass are exactly those all of whose bits are bits of keys it was built from |
| SstFormat.BitOf | src/sst/write.rs:149-153 | bit k of a byte counts 2 to the power k |
| SstFormat.FilterSize | src/sst/write.rs:143-146 | ten bits a key, rounded up to bytes, and one byte without keys |
| SstFormat.LongValueIsCut | src/sst/write.rs:79-87 | a value of 2^16 bytes or more reads back cut to its length modulo 2^16, and what was cut off is read as the entries after it |
| SstWriters.SSTableWriter.Add | src/sst/write.rs:54-95 | the buffers hold the blocks of all entries added so far |
| SstWriters.SSTableWriter.FinishBlock | src/sst/write.rs:98-112 | the current block is closed, with its checksum; nothing happens to an empty one |
| SstWriters.SSTableWriter.Emit | src/sst/write.rs:115-120 | bytes, running checksum and length advance together |
| SstWriters.SSTableWriter.Finish | src/sst/write.rs:124-182 | what was written is the file of the entries added: blocks, index, filter, footer |
| SstWriters.WriteTable | src/db.rs:131-136 | writing entries in a loop gives the file of all of them |
| Layouts.TableBytes | src/sst/write.rs:54-182 | a table of one entry, byte by byte: block, checksums, index, filter, footer |
| SstReaders.Open | src/sst/read.rs:19-73 | footer, block index and filter parsed from the bytes, or an error for a file that is too small |
| SstReaders.OpenFails | src/sst/read.rs:23-25 | a file is refused exactly when it has fewer than 48 bytes |
| SstReaders.BloomMayContain | src/sst/read.rs:76-89 | the answer of the filter, bit by bit |
| SstReaders.BinarySearch | src/sst/read.rs:98-105 | the place of a key among the first keys of the blocks |
| SstReaders.DecodeBlock | src/sst/read.rs:168-217 | the entries between two offsets of the index |
| SstReaders.OpensWritten | src/sst/read.rs:19-73 | the bytes of a written file open, to a reader whose index, blocks and filter are those written |
| SstReaders.Get | src/sst/read.rs:92-114 | on such a reader, `Some(v)` exactly when (key, v) was written: filter, index search and block search miss nothing |
| SstReaders.LooksFor | src/sst/read.rs:76-98 | which keys a reader on a written file looks for at all, and which it denies |
| SstReaders.ScanPrefix | src/sst/read.rs:117-165 | on such a reader, the in-order filter of all entries by the prefix: start block and both early exits lose nothing |
| SstReaders.ContentsOfWritten | src/sst/read.rs:168-217 | reading all blocks of a written file gives back its entries |
| SstReaders.FileRoundTrip | src/sst/read.rs:19-217 | a written file gives back its entries if and only if in each block all lengths that are written fit 16 bits |
| SstReaders.ValuesDecideFile | src/sst/write.rs:54-95 | with keys of fewer than 2^16 bytes a written file gives back its entries if and only if all values are that short too |
| Wals.ReplayFile | src/wal/mod.rs:40-129 | the loop over the file computes `Replay`: every way to stop, and the truncation to the last commit |
| Wals.ReadWhole | src/wal/mod.rs:56-119 | a whole record is read back, whatever follows it |
| Wals.RecordLayout | src/wal/mod.rs:136-172 | a record byte by byte: two lengths, low byte first, key, value, timestamp, and the checksum of these in that order |
| ByteStrings.ByteOf | src/wal/mod.rs:142-165 | byte i counts 256 to the power i, from the front of little-endian numbers and from the back of big-endian ones |
| Wals.FieldRead | src/wal/mod.rs:56-72 | the length fields are read low byte first |
| Wals.ChecksumDecides | src/wal/mod.rs:97-115 | a record with any other checksum ends the replay before it |
| Wals.ReadBackIff | src/wal/mod.rs:56-145 | any record is read back, with reading going on right after it, if and only if its lengths fit the fields of the header and an empty key comes with an empty value |
| Wals.TornWrites | src/wal/mod.rs:40-129 | replaying any byte prefix of a log gives exactly the records up to the last commit record that lies wholly inside it |
| Wals.ReplayTorn | src/wal/mod.rs:40-129 | a log that ends in a record cut short replays to its committed part |
| Wals.LongKeyLooksCommitted | src/wal/mod.rs:142-145 | an update with a key of 2^15 bytes or more is replayed as a commit of a shorter key, or ends the replay before it, with all that follows |
| Wals.EmptyKeyMisread | src/wal/mod.rs:79-119 | an update with an empty key and a value ends the replay before it, with all that follows, unless the first bytes of the value fit as its checksum; then reading goes on within the value |
| Recovery.NoEmptyKey | src/db.rs:82-86 | opening shows nothing under the empty key, whatever the log holds |
| Wals.WriteAheadLog.constructor | src/wal/mod.rs:25-37 | an empty log |
| Wals.WriteAheadLog.WriteRecord | src/wal/mod.rs:136-172 | one record is appended; file, commit position and rolling checksum stay those of the records |
| Wals.WriteAheadLog.WriteCommit | src/wal/mod.rs:131-133 | one commit record is appended |
| Wals.WriteAheadLog.TruncateToLastCommit | src/wal/mod.rs:176-181 | exactly the records after the last commit are gone |
| Wals.WriteAheadLog.TornFile | src/wal/mod.rs:16-20 | the file of any log, torn anywhere past its last commit, replays to exactly the committed records |
| Wals.WriteAheadLog.Reset | src/wal/mod.rs:184-190 | the log is empty |
| Recovery.RecencyKept | src/db.rs:61-75 | a new table in front of the listing of the others is the listing of all, if and only if its time is past theirs, a time that is taken included |
| Recovery.ListingHolds | src/db.rs:60-75 | the listing is strictly descending and holds exactly the table files |
| Recovery.FromRecordsMap | src/db.rs:79-87 | replayed records build the MemTable of the map they stand for |
| Store.MoveKeepsSound | src/transaction.rs:60-188 | every move of writer, readers, opening and crash, whatever the clock, keeps log bytes, published state, phase, commit position and history sound |
| Store.StepKeepsInv | src/transaction.rs:60-188 | every move but a flush under a name not past those found also keeps the list of tables in memory that of the directory, and everything committed in tables, memory and log |
| Store.CrashRestores | src/db.rs:45-109 | a crash restores the whole invariant from a sound log alone |
| Store.InitInv | src/db.rs:45-109 | an empty directory satisfies the invariant |
| Store.RecoveredView | src/db.rs:60-95 | what opening would show: the tables, overlaid with the committed part of the log |
| Runs.ReachableSound | src/db.rs:45-142 | every state that moves reach from an empty directory is sound, whatever the clock |
| Runs.ReachableInv | src/db.rs:45-142 | the invariant holds in every state that steps reach |
| Runs.CrashAfterMoves | src/db.rs:77-95 | after any moves and a crash, whatever the clock, opening shows the tables of the directory overlaid with the log: what was committed, if and only if the directory and memory agree but for what the log decides; all invariants hold from there on |
| Runs.CrashConsistency | src/db.rs:77-95 | after any run and a crash, opening shows exactly what was committed, if and only if what was replayed at the last opening and not flushed since is also in the log or a table |
| Runs.UnloggedChanges | src/db.rs:77-90 | that remainder is what opening replays, until a flush or a crash |
| Runs.CrashBeforeOrAfter | src/transaction.rs:79-163 | a crash at any move of a transaction recovers what opening would have shown before it, or that with all its writes: the latter exactly when its commit record is whole; after the rename of a timely flush, everything durable |
| Runs.SecondCrash | src/db.rs:77-95 | what a crash right after opening leaves; nothing is lost if and only if the log held nothing beyond the tables |
| Losses.LostUpdate | src/db.rs:81-90 | a run from an empty directory that commits a write and loses it to two crashes |
| Losses.FlushShows | src/db.rs:124-142 | after a flush in any state that satisfies the invariant, whatever the clock, opening shows everything committed if and only if no table under a greater name hides one of the flushed writes behind another value and the file of a taken name held nothing more; names past those found at opening lose nothing |
| Losses.FlushOrder | src/db.rs:61-75 | after such a flush opening rebuilds the list of tables if and only if the new name is past all names; past those found at opening is enough |
| Losses.HiddenByOlder | src/db.rs:124-142 | what a flush writes under a name below that of an older table is hidden by it after reopening, for every key the older one holds |
| Losses.ClockBehind | src/hlc.rs:27-54 | a run in which the clock goes back over a restart, and a committed and flushed write gives way to the value it replaced |
| Losses.RestartInWindow | src/hlc.rs:27-54 | a run at a single reading of the clock in which the flush after a restart overwrites the table of the one before, and its write is gone |
| Runs.SnapshotIsolation | src/transaction.rs:8-19 | over any moves without a crash a reader keeps showing the map of the commits it began with, while the history only grows |
| Runs.ReaderSees | src/db.rs:112-115 | a reader shows for all its life what was published last when it began, which is what was durable, less the writes of a transaction committed but not yet published |
| Runs.SerialHistory | src/transaction.rs:60-142 | over any moves without a crash the maps published are those of the committed transactions executed one after the other, as read off the sequence of puts and publications alone |
| Runs.FlushPublishesTheSame | src/transaction.rs:126-134 | the two states published by a flushing commit show the same map |
| Runs.RecencySurvivesRestart | src/db.rs:61-75 | in every reachable state tables are in strictly descending order of time and opening rebuilds the list |
| Transactions.GetThrough | src/transaction.rs:24-34 | the MemTable, then the tables newest first, give the value in the map they show |
| Transactions.MergeScan | src/transaction.rs:168-188 | strictly sorted, and exactly the pairs (k, get(k)) with k starting with the prefix |
| Transactions.ReadOnlyTransaction.Get | src/transaction.rs:24-34 | the value in the map the snapshot shows |
| Transactions.ReadOnlyTransaction.Scan | src/transaction.rs:38-40 | sorted, and exactly the pairs with the prefix that `Get` would find |
| Subtrees.SubtreeScan | src/transaction.rs:38-40 | a scan with the prefix of a subtree finds exactly the values at paths through its root, in structural order |
| Databases.Db.Open | src/db.rs:45-109 | opening shows what is recovered from any log, cut or damaged, and table files that open; on files that a crash left it takes the steps of the machine |
| Databases.ListNewestFirst | src/db.rs:60-70 | all names, in descending order, from a directory in any order |
| Databases.OpenTables | src/db.rs:72-75 | a reader on each file, in order |
| Databases.ReplayInto | src/db.rs:78-87 | a MemTable of the committed records |
| Databases.Db.FlushMemtable | src/db.rs:124-142 | temporary file, rename and reader, as moves of the machine, whatever the clock |
| Databases.Db.Now | src/hlc.rs:38-54 | one undisturbed turn of the clock loop |
| Databases.ReadWriteTransaction.constructor | src/transaction.rs:61-72 | the fork is a fresh copy of the published entries |
| Databases.ReadWriteTransaction.Insert | src/transaction.rs:80-86 | log and fork both get the write, nothing published or durable changes |
| Databases.ReadWriteTransaction.Execute | src/transaction.rs:75-77 | the entries of the mutation are written in order, also those before an error |
| Databases.ReadWriteTransaction.Get | src/transaction.rs:89-99 | what was committed when it began, overlaid with its own writes |
| Databases.ReadWriteTransaction.Scan | src/transaction.rs:102-104 | the same, for all keys with a prefix, in order |
| Databases.ReadWriteTransaction.Commit | src/transaction.rs:108-142 | the published map becomes the snapshot with the writes of the transaction, flushed or not, by moves of the machine, whatever the clock; readers' objects are untouched |
| Databases.ReadWriteTransaction.Abort | src/transaction.rs:145-151 | the records of the transaction are cut from the log, nothing else changes |
| Databases.ReadWriteTransaction.Drop | src/transaction.rs:155-162 | an unfinished transaction aborts, a finished one is left alone |
| Walks.MoveKeepsFiles | src/db.rs:131-141 | every table file stays one that opens to a reader of everything in it, whatever the clock |
| Databases.Db.SameLog | src/wal/mod.rs:16-37 | between operations the log object of the program holds the log file of the machine and its last commit |
| Hlc.StrictlyIncreasing | src/hlc.rs:38-54 | over all interleavings of any number of threads, timestamps are distinct and increase in the order of the swaps |
| Hlc.NowAfterSync | src/hlc.rs:56-59 | every timestamp issued after a `sync` is past the synchronized one |
| Hlc.FailedSwap | src/hlc.rs:47-53 | a swap fails only if another thread's swap succeeded, or a `sync` raised the counter, since the load |
| Hlc.CounterBound | src/hlc.rs:38-59 | the counter exceeds the masked clocks and synchronized values by no more than the number of timestamps issued |
| Hlc.Uncontended | src/hlc.rs:38-54 | without interference `now` takes one turn and issues the next timestamp |
| Hlc.Window | src/hlc.rs:27-54 | readings in one window of 256 ms count alike, and a timestamp is less than a window behind its reading |
| QueryParsers.Parser.SkipWs | src/query/parse.rs:16-20 | white space is skipped, and no more |
| QueryParsers.Parser.Expect | src/query/parse.rs:26-36 | the byte, or the error with its position |
| QueryParsers.Parser.TryByte | src/query/parse.rs:38-46 | the byte if it is next |
| QueryParsers.Parser.TryKeyword | src/query/parse.rs:51-68 | the keyword if it is next and not the start of a longer word |
| QueryParsers.Parser.ParseName | src/query/parse.rs:131-139 | a quoted or bare name, or each error |
| QueryParsers.Parser.ParseUsize | src/query/parse.rs:184-187 | the number of a run of digits, none when it overflows |
| QueryParsers.Parser.ParseNumber | src/query/parse.rs:172-188 | the number, or each error with its position |
| QueryParsers.Parser.ParseFilter | src/query/parse.rs:204-229 | the filter or the error, and a strictly advanced cursor |
| QueryParsers.Parser.ParseFilters | src/query/parse.rs:190-202 | the filters up to the parenthesis or the end |
| QueryParsers.Parser.ParseSelect | src/query/parse.rs:100-129 | the select or the error, and a strictly advanced cursor |
| QueryParsers.Parser.ParseSelects | src/query/parse.rs:84-98 | the selects up to the brace or the end |
| QueryParsers.Parser.ParseQuery | src/query/parse.rs:70-82 | the query or the error, on every input |
| QueryLanguage.ParserDecides | src/query/parse.rs:70-229 | an input is accepted as a query if and only if it is a well-formed text of that query |
| QueryLanguage.Unambiguous | src/query/parse.rs:70-229 | no text has two meanings |
| QueryLanguage.ParserUndoesPrinter | src/query/parse.rs:70-229 | parsing the canonical rendering of a query gives that query, for names without a quote and numbers of 64 bits |
| QueryLanguage.ReadableIffPrintable | src/query/parse.rs:141-188 | those are exactly the queries that some text parses to |
| QueryErrors.ErrorsPoint | src/query/parse.rs:26-36 | a reported character is the one at the reported position (or a question mark at a number that is too great); a reported keyword is all the letters there, before a colon, and none of the four filters |
| QueryFaults.FirstError | src/query/parse.rs:26-229 | an error at a character is the first: nothing is wrong before it, and every input that begins so has that error; an unknown filter or too great a number is not helped by anything that follows; the end is reported where the next wrong byte would be the error |
| QueryFaults.EndedIff | src/query/parse.rs:26-36 | the end is reported if and only if the input is no query and a byte that fits nothing, after the quote of an open name, is the error |
| QueryFaults.FirstByte | src/query/parse.rs:26-36 | any first byte but a brace is reported with its position |
| QueryExamples.GreatNumberReported | src/query/parse.rs:172-188 | a number of 2^64 or more is reported as a question mark at its first digit |
| QueryExamples.QueryIs | src/query/parse.rs:16-229 | a query with every construct and every white space, byte by byte, and what it parses to |
| QueryLanguage.LayoutIndependence | src/query/parse.rs:84-98 | adding white space, or commas after items, between the tokens of a text never changes its query |
| QueryLanguage.AnyLayout | src/query/parse.rs:16-68 | every accepted input has a token tree, and all wider layouts of it parse to the same query |

## Left out

- Real files, directories, memory maps, fsync and I/O errors: files are byte strings, a directory is a set of names, a crash
  drops memory and may leave the last append or the last temporary file incomplete.
- CRC32 and the bloom hash are arbitrary functions; nothing is claimed about detecting corruption or false positives.
- Databases.ReadWriteTransaction.Insert: requires a key that is not empty and shorter than 2^15 and a value shorter than 2^16,
  which the code does not check. `Wals.EmptyKeyMisread`, `Wals.LongKeyLooksCommitted` and `SstFormat.LongValueIsCut` say
  what happens otherwise, `Wals.ReadBackIff` and `SstReaders.ValuesDecideFile` that nothing less is enough.
- Databases.ReadWriteTransaction.Execute: requires the same of every entry the mutation emits.
- Databases.ReadWriteTransaction.Commit: a flush requires that the file has fewer than 2^64 bytes; so does
  `Databases.Db.FlushMemtable`.
- Databases.Db.Now: one turn of the loop without interference; its interleavings are in `Hlc`.
- Databases.Db.Open: takes table files that open to a reader of a written file; for other files only `SstReaders.Open` says
  what happens.
- SstReaders.FileRoundTrip: requires the first key of each block to be shorter than 2^16, as its length in the index is cut
  like the others.
- Store.MoveKeepsSound: taking the lock and loading the shared state at the start of a transaction are one step, as only the
  holder of the lock replaces that state.
- Hlc.CounterBound: the counter is unbounded; the bound tells when 64 bits suffice.
- FractionalIndices.BetweenTheorem: requires that no sequence number that generation adds one to is the greatest u32, where
  the code overflows; numbers past the place where it stops may be.
- FractionalIndices.WriteFractionalIndex: requires the same, and no number cut short at the end of a neighbour.
- VarInts.ReadFrom: requires input that is not cut short inside a number, where the code would panic; so do the readers of
  indices and paths.
- SstReaders.Open: requires that the loop over the index reads inside the file and that offsets do not overflow 64 bits; on
  other files the code would panic.
- Wals.ReplayFile: the value buffer of a record with an empty key is never read into; it is taken to hold zeros.
- QueryParsers.Parser.ParseName: names are byte strings between ASCII bytes of a UTF-8 text; the UTF-8 check, which cannot fail
  there, is left out, and so are limits on the depth of recursion.
- Names of table files are times with the same order; formatting them as dates is not part of this model.
- CBOR values are byte strings. A deletion is written as an empty value, as in the code.
- The file checksum and the time span in an SSTable footer are written but never used by the code that is modelled.
- `LWWHeader::merge`, compaction, serialization of timestamps, `Display` implementations, the `query!` and `mutation!` macros and
  the benchmarks would add only easy members.
