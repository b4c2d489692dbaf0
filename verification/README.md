# ClomDB: a verified model

ClomDB is an embedded key-value store built as a log-structured merge tree. This project models it in Dafny, from
the bytes of its files up to whole runs of a store that may be killed in the middle of any file operation, and
proves that such a store never shows the user anything but the batches written to it.

## How it is built

The model has two layers and a join.

* **Byte formats** (`Bytes`, `Coding`, `Crc32c`, `WriteBatch`, `Wal`, `Bloom`, `SSTable`, `SSTableIO`, `Manifest`,
  `KnownBytes`). Each format is a printing function and a parsing function with a theorem that one undoes the other.
  The code's own loops and in-place updates are methods and classes proved equal to those functions. Small files are
  also given byte by byte. The checksum is related to the bit-by-bit definition of section 12.1 of RFC 3720 and proved
  to detect every burst inside four bytes.
* **The engine** (`Kv`, `MemTable`, `Engine`, `Levels`, `Compaction`, `Recovery`, `Runs`). A store is a memtable, a
  file counter and six levels of tables. Every critical section under the mutex is a function from a state to a new
  state and the list of file operations it performs. A crash cuts that list anywhere, also inside one operation. The
  invariant says: tables are non-empty, sorted and named by their true first and last keys; L0 numbers ascend; each
  deeper level is one sorted sequence over its files; the last level has no tombstone; numbers are distinct and below
  the counter. Each table remembers the filter parameters it was written with, since a later open may choose others. A
  run starts from an absent directory and may reopen the store with new options each time.
* **The join** (`ByteDisk`, `ByteRuns`, `Db`, and the one failing run in `LostWrite`). A directory of real bytes
  represents an abstract one; every file operation, whole or cut at any byte, keeps that relation; and parsing the
  bytes finds the state that the engine predicts. `Db.DB` is the class itself: it holds readers, a memtable object, a
  version object and the bytes of its directory, and each of its methods is proved to end in the state and to perform
  the file operations that the engine's function gives.

The user's view of a store is one map from keys to values (`Engine.Abs`). Lengths that the code casts to 32 or 64
bits are cast in the model too, so every theorem that needs a length to fit says so.

## What the code does and its documentation does not say

* Lines 57-59 of the repository's README.md and `include/clomdb/wal.h:14-17` say that a torn tail is cut off the log.
  The code stops reading at the tail and then reopens the file for appending behind it (`src/wal.cpp:20`,
  `src/wal.cpp:90-118`). The model follows the code. `Wal.AppendReplayedIffClean` and
  `ByteDisk.WritesSurviveIffClean` give the exact condition under which later writes are found again, namely that
  replay leaves nothing unread; `ByteDisk.ShortWriteLost` gives a family of crashes after which an acknowledged
  write is lost, and `LostWrite.AcknowledgedWriteLost` one such run. The theorems about runs therefore allow a
  write only while the log has no unread tail, which every flush of a non-empty memtable re-establishes.
* Replay hands the log's bytes to a batch whose operation count stays 0, so its `Iterate` reports corruption after
  having delivered every operation, and `Open` drops that report (`src/db.cpp:97-102`,
  `include/clomdb/write_batch.h:40,68`). `WriteBatches.ApplyReplayed` states effect and status separately.
* With an L0 trigger below 1 the compaction loop of `src/db.cpp:194-198` never ends; `Compaction.LoopEndsIff`
  is the exact statement.

## Model

| member | source | states |
|---|---|---|
| Runs.CrashSafeRefinement | src/db.cpp:37-507 | From an absent directory, after any legal sequence of writes, flushes, background rounds, closes, kills, deaths inside any file operation and reopenings, each with its own options: a running store answers each Get with, and iterates exactly, the plain map of the history; a directory left behind is recovered into that map; the history is all acknowledged batches in order, and besides them only whole batches of writes the process died in, at most one for each death |
| Runs.EveryStepKeeps | src/db.cpp:130-148 | Each critical section under the mutex, finished or cut short anywhere, keeps the run invariant; runs of these steps are all interleavings of client calls, background rounds and the two halves of Close, under the options of the last open |
| Runs.RunKeeps | src/db.cpp:488-507 | The run invariant holds after legal runs of any length, whatever options each open is given |
| Runs.HistoryGrows | src/db.cpp:162-181 | What a whole run adds to the history has the acknowledged batches as a subsequence, is a subsequence of the attempted ones, and is longer than the acknowledged ones by at most the number of deaths |
| Runs.NoLostFiles | src/db.cpp:63-83 | In every reachable running store the table files on disk are exactly the live ones, each complete, all numbered below the counter, and the manifest on disk is the current one |
| Runs.NoDanglingFiles | src/db.cpp:219-241 | In every reachable directory, crashed ones included, each file the manifest names exists, is complete, and is numbered below the manifest's counter, so a new table never replaces a live one |
| Runs.ClosedTablesHoldEverything | src/db.cpp:130-148 | Once Close has finished, the tables alone show every batch of the history, also those accepted while Close waited without the mutex, and the manifest that names them is on disk |
| ByteRuns.BytesRecover | src/db.cpp:37-122 | After any legal run on bytes, with crashes that leave any byte prefix of a table or log record and tables written under any mixture of filter options, parsing manifest, tables and log succeeds and gives a well-formed store showing exactly the history, which is the acknowledged batches and at most one more for each death |
| ByteRuns.DirectoryReached | src/db.cpp:37-122 | Every directory a run can leave meets what Open asks for: its bytes represent an abstract directory that holds a well-formed state showing the history |
| ByteRuns.SizesRecorded | src/db.cpp:229-229 | In every directory a run can leave, the manifest's bytes name files that are there with exactly the recorded length |
| ByteRuns.RawRunKeeps | src/db.cpp:162-377 | A legal run on bytes is a legal run of the abstract store, and its bytes represent the abstract directory, for runs of any length |
| ByteRuns.RawStepKeeps | src/db.cpp:162-377 | One event on bytes, cut at any byte, is one event on the abstract directory with a corresponding cut |
| ByteRuns.EventAppendsClean | src/db.cpp:162-181 | The only append to the log of any event happens while the log has no unread tail |
| ByteDisk.RepStep | src/db.cpp:219-250 | A single file operation, whole or stopped at any byte, keeps the relation between bytes and abstract directory |
| ByteDisk.RepRun | src/db.cpp:202-251 | So does any list of file operations that appends only to a clean log |
| ByteDisk.RepCrash | src/db.cpp:359-376 | So does dying inside the i-th of them |
| ByteDisk.RawOpenAgrees | src/db.cpp:57-103 | Loading the manifest bytes, opening every table's bytes and replaying the log bytes yields precisely the state the abstract Open rebuilds, with a reader for each table |
| ByteDisk.ReaderServes | src/sstable.cpp:172-282 | The reader opened on a live file answers Get as lookup in its entries, tombstones included, and ReadAll with its entries |
| ByteDisk.RecordedMeta | src/db.cpp:224-229 | For every live table the recorded size is the length of its file, and the recorded keys are the first and last that reading the file delivers |
| ByteDisk.LevelSizeIsBytes | src/db.cpp:258-262 | What is compared with a level's target is the number of bytes of the level's files on disk, in 64 bits |
| ByteDisk.WritesSurviveIffClean | src/wal.cpp:90-118 | Every non-empty batch that may be appended to given log bytes is replayed behind what is there if and only if replay leaves none of those bytes unread |
| ByteDisk.ShortWriteLost | src/wal.cpp:90-101 | If a crash left at least the 8 header bytes of a record, a later write whose record is shorter than the missing part is lost: opening finds the store as if neither batch existed |
| LostWrite.AcknowledgedWriteLost | src/wal.cpp:90-118 | A run: open, a write dying after eight bytes, open, an acknowledged short write, kill; everything up to the lost write is legal, the user's map should have its key, and the bytes left open into the empty store |
| KnownBytes.FirstManifest | src/version.cpp:18-35 | The manifest of a new store byte by byte, behind its checksum |
| KnownBytes.FileEntry | src/version.cpp:25-30 | One file entry byte by byte |
| KnownBytes.SmallBatch | include/clomdb/write_batch.h:19-30 | A put and a delete byte by byte |
| KnownBytes.SmallRecord | src/wal.cpp:30-39 | A log record byte by byte, behind its checksum |
| KnownBytes.SmallTable | src/sstable.cpp:13-82 | A table of one entry byte by byte, around its filter |
| Recovery.HoldsIffRecovers | src/db.cpp:57-102 | A directory represents a state if and only if loading and replaying it gives that state |
| Recovery.HarmlessSafe | src/db.cpp:359-376 | File operations that touch only files the manifest does not name leave the recovered state alone wherever they are cut |
| Recovery.FlushSafe | src/db.cpp:202-251 | A flush cut anywhere recovers to the same map; finished, disk and memory agree again and the log is an empty clean one |
| Recovery.MidState | src/db.cpp:238-250 | Between the manifest save and the log removal the log is replayed over tables that already hold it, and the map is still the same |
| Recovery.CompactSafe | src/db.cpp:271-377 | A compaction cut anywhere, before, in or after its manifest save, recovers to the same map; finished, only live tables remain |
| Recovery.CompactAllSafe | src/db.cpp:194-198 | So does the whole compaction loop, which leaves the log untouched |
| Recovery.FlushAndCompactSafe | src/db.cpp:462-472 | Flush and a background round keep invariant and map, empty the memtable, leave every level within its limit, and are crash safe |
| Recovery.MaybeFlushSafe | src/db.cpp:188-200 | The synchronous threshold flush keeps invariant and map, empties a memtable that has reached the threshold and keeps a smaller one, leaves every level within its limit, and is crash safe |
| Recovery.CloseEndSafe | src/db.cpp:139-147 | The second half of Close is crash safe, leaves the map in the tables alone, and the manifest on disk names exactly these tables |
| Recovery.LoggedKeeps | src/db.cpp:183-186 | Applying a batch to the memtable applies it to the user's map |
| Recovery.AppendSafe | src/wal.cpp:27-54 | A record cut short recovers to the state before the write, a whole one to the state after it |
| Recovery.WriteSafe | src/db.cpp:162-181 | A write applies one batch to the map; a crash during it recovers the map without the batch until its record is whole and with all of it afterwards |
| Recovery.OpenSafe | src/db.cpp:37-122 | Open, sweep included, in whatever order the directory is listed, is crash safe, keeps an existing log, ends with memory and disk agreeing, and leaves a manifest in a directory it has created |
| Recovery.FreshDisk | src/db.cpp:40-47 | An absent directory represents the empty store |
| Levels.SearchNewestFirst | src/db.cpp:388-400 | Searching overlapping files newest first with early exit equals looking up the oldest-first overwrite of all their entries |
| Levels.SearchByRange | src/db.cpp:402-412 | Skipping files by their recorded key range never skips the file that has the key |
| Levels.SearchIsContents | src/db.cpp:384-412 | The whole search of Get equals lookup in memtable over L0 over deeper levels |
| Levels.GetIsAbs | src/db.cpp:379-415 | Get returns a value if and only if the user's map has it, and that value |
| Levels.SnapshotIsAbs | src/db.cpp:417-460 | The oldest-first overwrite-and-erase fold of NewIterator is the user's map |
| Levels.GetAgreesWithIterator | src/db.cpp:379-460 | Get finds a key exactly when the iterator's map has it, with the same value |
| Levels.FilesMapReverse | src/db.cpp:310-315 | Merging the files of a sorted level backwards, as compaction does, gives the same map as forwards |
| Levels.OldestFirstSorts | src/db.cpp:441-446 | Sorting any list of files by number gives an ascending rearrangement of it |
| Compaction.OutputIsPartition | src/db.cpp:319-357 | The new files concatenated are the merged entries (tombstones dropped only at the bottom); each file but the last reaches the byte target and every file is below it without its final entry |
| Compaction.DropTombstonesSorted | src/db.cpp:347-348 | Dropping tombstones from a sorted list keeps it sorted and loses exactly the tombstoned keys |
| Compaction.MergeKeeps | src/db.cpp:300-315 | Replacing two adjacent levels by their merge changes no key at any depth |
| Compaction.BottomMergeDrops | src/db.cpp:317-317 | Merging into the last level may lose tombstones and nothing else |
| Compaction.CompactKeepsMap | src/db.cpp:271-377 | Compacting any level leaves the user's map alone, and above the bottom also every tombstone |
| Compaction.CompactKeepsReads | src/db.cpp:271-415 | Get and the iterator answer the same before and after compacting any level |
| Compaction.CompactKeepsInv | src/db.cpp:325-368 | Compaction keeps all level invariants |
| Compaction.RangesAscend | src/db.cpp:402-407 | In every well-formed store the recorded ranges of the files of levels 1 to 5 are disjoint and ascend |
| Compaction.FlushKeepsMap | src/db.cpp:202-241 | A flush moves the memtable into L0 without changing any key, tombstones included, and leaves the tables alone holding everything |
| Compaction.FlushKeepsInv | src/db.cpp:224-236 | Flush keeps all level invariants |
| Recovery.NewFilesNumbered | src/db.cpp:325-345 | A compaction numbers its files one after another from the counter and moves the counter just behind them |
| Compaction.FlushAddsNewest | src/db.cpp:202-241 | A flush of a non-empty memtable adds one file to L0, the last and newest, holding exactly the memtable, changes no other level, and resets the estimate |
| Compaction.FlushSettles | src/db.cpp:462-472 | After Flush and after a background round L0 is below its trigger, levels 1 to 4 are within their targets, and the memtable is empty |
| Compaction.MaybeFlushReaches | src/db.cpp:188-200 | A memtable whose estimate has reached the threshold is flushed, a smaller one is kept, all levels end within their limits, and below the threshold a settled store is left as it is |
| Compaction.WriteReaches | src/db.cpp:162-181 | A write with a background thread only logs and applies; a synchronous one flushes exactly when the estimate with the new batch has reached the threshold, and leaves all levels within their limits |
| Compaction.TargetIsPower | src/db.cpp:258-267 | The target of level l is level 1's times the multiplier, at least 1, to the power l - 1, in 64 bits |
| Compaction.OutputSizes | src/db.cpp:321-357 | Each output file but the last has at least memtable_flush_bytes and at least 2 MiB of keys and values, and every file would miss one of these without its last entry |
| Compaction.CompactAllKeeps | src/db.cpp:467-470 | The compaction loop keeps invariant, map and memtable |
| Compaction.SettledIff | src/db.cpp:253-269 | No level is picked if and only if L0 is below its trigger and every level from 1 to 4 is within its 64-bit wrapped target |
| Compaction.LoopEndsIff | src/db.cpp:194-198 | The loop ends if and only if the trigger is at least 1; then at most five compactions settle every level, whatever the multiplier arithmetic yields |
| Engine.NextPickDeeper | src/db.cpp:253-269 | With a trigger of at least 1 the level picked after a compaction is strictly deeper than the one just compacted |
| Db.DB.Open | src/db.cpp:37-122 | Over bytes that represent a recoverable directory, with tables written under whatever filter options, Open fails exactly on the two option errors and otherwise yields a valid store in the recovered state having performed exactly the file operations proved crash safe |
| Db.Reopen | src/db.cpp:37-460 | Whatever a run has left, Open with any options, Get and NewIterator answer with the map of the run's history, and Open fails exactly where its options say so |
| Db.DB.LoadVersion | src/db.cpp:57-61 | The loaded version is that of the recovered state |
| Db.DB.SweepFiles | src/db.cpp:63-83 | The directory loop removes exactly the listed tables the manifest does not name |
| Db.DB.OpenReaders | src/db.cpp:85-93 | Afterwards readers are index-aligned with the version and each serves its file's entries |
| Db.DB.ReplayLog | src/db.cpp:95-103 | The replay loop builds exactly the recovered memtable |
| Db.DB.Write | src/db.cpp:162-181 | Refused only when closed and non-empty; otherwise the user's map has the batch; with a background thread levels are untouched, without one the memtable is emptied exactly when its estimate has reached the threshold and all levels end within their limits; file operations as the engine's write, log first |
| Db.DB.MaybeFlush | src/db.cpp:188-200 | A memtable at or above the threshold is flushed, one below it kept, and no level is left above its limit; file operations of the threshold flush |
| Db.DB.FlushMemTable | src/db.cpp:202-251 | Afterwards the memtable is empty; if it was not, L0 has one file more and the log is empty; readers stay aligned, state and file operations are those of the engine's flush |
| Db.DB.AddTable | src/db.cpp:219-233 | One table under the next number, with the length of the written file as recorded size and a reader that serves its entries |
| Db.DB.NeedsCompaction | src/db.cpp:253-269 | The loop over levels with wrapping sums and targets picks the level the engine's rule picks |
| Db.DB.TotalSize | src/db.cpp:260-261 | The wrapping 64-bit sum over a level's metadata is the level's size |
| Db.DB.Merge | src/db.cpp:275-315 | The index sort and the two ReadAll loops build the lower level overwritten by the upper one, newest L0 file last |
| Db.DB.WriteOutputs | src/db.cpp:317-357 | The batching loop writes exactly the partition's files, in order, under consecutive numbers, with a reader each |
| Db.DB.CloseBatch | src/db.cpp:325-345 | Writing out one batch extends the files written so far by one, whose recorded size and keys are those of `Db.DB.AddTable` |
| Db.DB.RemoveTables | src/db.cpp:373-375 | Exactly the retired tables are removed, in order |
| Db.DB.CompactLevel | src/db.cpp:271-377 | One compaction on readers, version and bytes reaches the engine's state with the engine's file operations |
| Db.DB.CompactUntilSettled | src/db.cpp:194-198 | The loop ends with every level within its limit, having done what the engine's loop does |
| Db.DB.Get | src/db.cpp:379-415 | Refused if and only if closed; else the value of the user's map, or not found exactly when the map lacks the key |
| Db.DB.GetFromL0 | src/db.cpp:388-400 | Sorting pairs by number and probing readers is the newest-first search |
| Db.DB.GetFromDeeper | src/db.cpp:402-412 | The two nested loops with range checks are the level search |
| Db.DB.NewIterator | src/db.cpp:417-460 | The map handed to the iterator is the user's map |
| Db.DB.Flush | src/db.cpp:462-472 | The user's map is kept, the memtable is empty and every level is within its limit; file operations are the engine's |
| Db.DB.BackgroundRound | src/db.cpp:488-507 | One round clears the request, flushes whatever the memtable's size, leaves every level within its limit, and keeps the user's map |
| Db.DB.CloseFinish | src/db.cpp:139-147 | After Close the memtable is empty, the tables alone hold the user's map, and the manifest file has the bytes of the final version |
| Db.SortNewestFirst | src/db.cpp:282-286 | The index sort yields every index once, by descending file number |
| Db.NewestFirstIsReverse | src/db.cpp:279-295 | On files stored in ascending number order that sort is plain reversal |
| Db.LookUp | src/sstable.cpp:172-231 | A reader aligned with a file answers with lookup in the file's entries |
| Db.Scan | src/sstable.cpp:233-282 | A reader aligned with a file reads back the file's entries |
| Kv.ReplayIdempotent | src/db.cpp:238-250 | Replaying any suffix of a history over a table that already holds all of it, or part of it, gives what the history itself gives |
| Kv.VisibleApply | include/clomdb/memtable.h:22-69 | Applying operations to a table with tombstones and then hiding these is applying them to the plain map |
| Kv.LastOpWins | include/clomdb/memtable.h:26-41 | In the user's map a key has the value of the last put on it, and is absent if the last operation on it deletes it |
| Kv.BatchesInOrder | src/db.cpp:162-186 | The map of a history of batches is that of all their operations in order |
| Kv.SortedKeys | src/db.cpp:207-217 | Walking a sorted map visits every key once in ascending byte order |
| Kv.SortedUnique | src/db.cpp:347-355 | There is only one such walk |
| Kv.TableOfEntries | src/db.cpp:205-217 | The entries flushed from a table are that table |
| Kv.EntriesOfTable | src/sstable.cpp:233-282 | A sorted entry list is the walk of the table it denotes |
| MemTables.MemApplyTable | include/clomdb/memtable.h:26-41 | The memtable is the table of operations applied, its byte estimate never falls, and any operation makes it non-empty |
| MemTables.EstimateCountsPayload | include/clomdb/memtable.h:26-41 | The byte estimate grows by exactly the key and value bytes put in, overwritten ones included |
| MemTables.MemReplayTable | src/db.cpp:97-102 | Replaying batches one after another is applying them in order |
| MemTables.MemTable.Put | include/clomdb/memtable.h:26-34 | One put applied to contents and byte estimate |
| MemTables.MemTable.Delete | include/clomdb/memtable.h:36-41 | One tombstone applied to contents and byte estimate |
| MemTables.MemTable.Get | include/clomdb/memtable.h:46-52 | Finds exactly the present keys, tombstones included |
| MemTables.MemTable.Clear | include/clomdb/memtable.h:60-63 | Back to the empty memtable |
| WriteBatches.BatchRoundTrip | include/clomdb/write_batch.h:44-70 | Decoding the encoding of any operation list with 32-bit lengths delivers exactly those operations in order |
| WriteBatches.MalformedStops | include/clomdb/write_batch.h:48-67 | Bytes that cannot be decoded end the batch with an error after every operation before them has been delivered |
| WriteBatches.UnknownTag | include/clomdb/write_batch.h:63-65 | A tag other than 1 and 2 cannot be decoded |
| WriteBatches.TornOp | include/clomdb/write_batch.h:53-61 | Neither can an operation cut short anywhere |
| WriteBatches.WriteBatch.Put | include/clomdb/write_batch.h:19-24 | Bytes and count represent one more put |
| WriteBatches.WriteBatch.Delete | include/clomdb/write_batch.h:26-30 | Bytes and count represent one more delete |
| WriteBatches.WriteBatch.SetData | include/clomdb/write_batch.h:40-40 | Replaces the bytes and leaves the count as it was |
| WriteBatches.WriteBatch.Iterate | include/clomdb/write_batch.h:44-70 | On any bytes: the handler gets every operation before the first malformed one, and the status is ok if and only if the bytes are well formed and the count matches |
| WriteBatches.ApplyBuilt | src/db.cpp:183-186 | A batch built by puts and deletes is applied in full with ok status |
| WriteBatches.ApplyReplayed | src/db.cpp:97-102 | A replayed record is applied in full although its status is ok only for the empty batch |
| Wal.FrameRoundTrip | src/wal.cpp:27-42 | A record of at most 2^32 - 1 bytes is read back whatever follows |
| Wal.FrameOnto | src/wal.cpp:92-118 | Whatever replay accepts is byte for byte the frame of what it delivers |
| Wal.ReplaySplits | src/wal.cpp:90-118 | Any log is the frames of what replay delivers and a tail that starts no record |
| Wal.ReplayFrames | src/wal.cpp:90-118 | Replay of appended records is those records and then the replay of what follows |
| Wal.ReplayLongest | src/wal.cpp:90-118 | Every record sequence whose frames are a prefix of the log is a prefix of what replay delivers |
| Wal.ReplayUnique | src/wal.cpp:90-118 | A split into frames and tail is the one replay finds if and only if the tail starts no record |
| Wal.TornFrame | src/wal.cpp:92-102 | No proper prefix of a record is a record |
| Wal.ReplayPrefix | src/wal.cpp:81-122 | Replay of any byte prefix of a well-framed log delivers exactly the records wholly inside it |
| Wal.BurstStopsReplay | src/wal.cpp:104-116 | A payload altered inside four consecutive bytes ends replay exactly before its record |
| Wal.HeaderSwallows | src/wal.cpp:96-102 | An unread header that announces more bytes than follow hides every record appended behind it |
| Wal.AppendReplayedIffClean | src/wal.cpp:18-25 | All records appended to a log are replayed if and only if replay leaves none of it unread |
| Wal.AppendToClean | src/wal.cpp:27-54 | Appending to a clean log extends what replay delivers by that record and leaves the log clean |
| Wal.AppendBehindTail | src/wal.cpp:90-118 | Behind any unread tail, of two payloads of equal length with different first bytes and a length that is none of their first five bytes, at least one is not replayed as appended |
| Wal.AddRecord | src/wal.cpp:27-54 | The log is extended by exactly one frame |
| Wal.ReplayAll | src/wal.cpp:81-122 | The reading loop delivers exactly what replay defines, and nothing for a missing file |
| SSTable.GetWritten | src/sstable.cpp:172-231 | For any sorted entry list and any key, Get through filter, binary search and offset decoding on the written file is lookup in the list |
| SSTable.ReadAllWritten | src/sstable.cpp:233-282 | ReadAll on a written file returns its entry list |
| SSTable.OpenWritten | src/sstable.cpp:98-170 | Opening a written file recovers its index and filter |
| SSTable.IndexRoundTrip | src/sstable.cpp:54-59 | Parsing the index block gives back the index |
| SSTable.FooterRoundTrip | src/sstable.cpp:73-78 | The five footer words are read back from the end of any file |
| SSTable.LowerBoundAt | src/sstable.cpp:177-181 | The lower bound splits the index into keys below and keys not below |
| SSTable.AcceptedFooter | src/sstable.cpp:107-131 | Whatever Open accepts has room for a footer and ends with the magic number |
| SSTable.FilterDecides | src/sstable.cpp:174-176 | One unset bit among a key's positions ends the lookup, whatever the index says |
| SSTableIO.PutEntry | src/sstable.cpp:13-21 | Appends one encoded entry |
| SSTableIO.Write | src/sstable.cpp:25-90 | Refuses the empty list and otherwise produces the table's bytes with offsets, index, filter and footer |
| SSTableIO.OpenReader | src/sstable.cpp:98-170 | On any bytes, fails exactly where the format is malformed and otherwise holds the parsed index and filter |
| SSTableIO.ReadVarint | src/sstable.cpp:193-204 | The byte-wise read of up to five bytes decodes what the varint decoder does on the rest of the file |
| SSTableIO.ReadString | src/sstable.cpp:243-258 | Reads one length-prefixed string or fails where it is truncated |
| SSTableIO.SSTableReader.Get | src/sstable.cpp:172-231 | On any bytes with a sorted index, the cursor-driven Get is the format's Get |
| SSTableIO.SSTableReader.FindLowerBound | src/sstable.cpp:177-180 | The halving loop finds the lower bound |
| SSTableIO.SSTableReader.ReadAll | src/sstable.cpp:233-282 | On any bytes, the cursor-driven loop is the format's ReadAll |
| Manifests.ManifestRoundTrip | src/version.cpp:13-114 | Loading what Save wrote restores the counter and every level's file list, for any number of files inside the field widths |
| Manifests.BurstRefused | src/version.cpp:66-71 | A manifest altered inside four consecutive bytes behind its checksum is refused |
| Manifests.AcceptedHeader | src/version.cpp:62-89 | Whatever Load accepts has its checksum, the magic number and level count 6 at their places |
| Manifests.Version.Save | src/version.cpp:13-48 | The nested loops produce the manifest's bytes |
| Manifests.Version.Load | src/version.cpp:50-115 | On any bytes: not found exactly without a file, ok exactly when the bytes decode, and then the decoded version |
| Manifests.LoadLevel | src/version.cpp:93-112 | One level's list is decoded, or refused where it is truncated or malformed |
| Bloom.NoFalseNegatives | include/clomdb/bloom.h:43-87 | Every key built into a filter is reported, for any key list, any bits per key and any probe count from 1 to 30 |
| Bloom.AddKeysKeeps | include/clomdb/bloom.h:56-64 | Setting bits never clears one and never touches the trailing probe count |
| Bloom.BloomHash | include/clomdb/bloom.h:9-37 | The word loop and the additions of the fall-through tail compute the 32-bit hash |
| Bloom.SetKey | include/clomdb/bloom.h:56-64 | The in-place loop sets exactly the probed bits of one key |
| Bloom.Build | include/clomdb/bloom.h:43-66 | The filter of a key list |
| Bloom.MayContain | include/clomdb/bloom.h:68-87 | True for malformed filters; otherwise true if and only if every one of the key's positions, as many as the last byte says, is set |
| Bloom.ContainsIff | include/clomdb/bloom.h:68-87 | The filter's answer is no as soon as one of the key's positions is unset, and yes when none is |
| Bloom.FilterIs | include/clomdb/bloom.h:43-66 | A built filter has at least 64 bits and at least the bits per key for each key, rounded up to bytes, then the probe count; and a bit is set if and only if it is a position of some key |
| Bloom.KnownHashes | include/clomdb/bloom.h:9-37 | Values of the hash for no byte, tails of one to three bytes and one word |
| Crc32c.TableDrivenIsReference | include/clomdb/coding.h:114-150 | The table-driven checksum equals the bit-by-bit reflected Castagnoli CRC for every input |
| Crc32c.ExtendComposes | include/clomdb/coding.h:114-123 | Extending the checksum of a by b is the checksum of a followed by b |
| Crc32c.BurstDetected | include/clomdb/coding.h:114-123 | Two strings that differ only inside a window of at most four bytes have different checksums |
| Crc32c.MaskRoundTrip | include/clomdb/coding.h:127-133 | Mask and Unmask are inverse in both directions |
| Crc32c.MaskRotates | include/clomdb/coding.h:127-129 | Behind the added constant the masked checksum is the checksum rotated right by 15 |
| Crc32c.CheckValue | include/clomdb/coding.h:114-150 | The CRC's check value: the nine digits give 0xE3069283, which fixes polynomial, start value and final inversion |
| Crc32c.Table | include/clomdb/coding.h:136-150 | Every table entry is eight shift steps of its byte |
| Crc32c.ExtendByTable | include/clomdb/coding.h:114-122 | The byte loop over the table is Extend |
| Coding.VarintRoundTrip | include/clomdb/coding.h:37-79 | Each varint takes 1 to 5 bytes and is decoded from exactly those bytes whatever follows (section 7.6 of the DWARF version 5 standard) |
| Coding.PutVarint32 | include/clomdb/coding.h:37-46 | The buffer loop appends the varint |
| Coding.GetVarint32Ptr | include/clomdb/coding.h:66-79 | On any bytes the shifting loop decodes as specified, stops behind the last byte used, and refuses five bytes that all announce another |
| Coding.LengthPrefixedRoundTrip | include/clomdb/coding.h:59-107 | A length-prefixed string is read back if and only if its length is below 2^32 |
| Coding.TruncatedString | include/clomdb/coding.h:98-107 | A length-prefixed string cut short anywhere is refused |
| Coding.KnownVarints | include/clomdb/coding.h:37-46 | The encodings of 2, 127, 128, 129 and 12857 given in section 7.6 of the DWARF version 5 standard |
| Coding.PutLengthPrefixedSlice | include/clomdb/coding.h:59-62 | Appends the length, truncated to 32 bits, and the bytes |
| Coding.GetLengthPrefixedSlice | include/clomdb/coding.h:98-107 | Parses one string and the rest, or fails on malformed and truncated input |
| Coding.Fixed32RoundTrip | include/clomdb/coding.h:11-27 | Little-endian words are read back whatever follows |
| Coding.Fixed32Onto | include/clomdb/coding.h:11-27 | Any four bytes are the encoding of the word read from them |
| Coding.Size64RoundTrip | include/clomdb/coding.h:17-33 | Any number below 2^64 survives its eight bytes |
| Bytes.Compare | include/clomdb/slice.h:26-34 | Negative exactly when at the first difference the left string has ended or has the byte of smaller unsigned value; zero exactly for equal strings; positive exactly the other way round |
| Bytes.LessIffSmallerSomewhere | include/clomdb/slice.h:26-49 | The key order is that of the first differing position, by unsigned byte value, with a prefix before its extensions |
| Bytes.LessTransitive | include/clomdb/slice.h:26-49 | The byte order is transitive |
| Bytes.Trichotomy | include/clomdb/slice.h:26-49 | Two strings are equal if and only if neither is less, and never are both |
| Bytes.CastValue32 | src/wal.cpp:32-32 | The cast of a size to 32 bits keeps it modulo 2^32 |
| Bytes.CastInverse | src/wal.cpp:96-96 | Widening a 32-bit word and casting back is the identity |
| Bytes.WordSuccessor | include/clomdb/coding.h:23-27 | Word 0 has size value 0 and adding one adds one, so the conversion from words to sizes is the unsigned value |

## Left out

- Recovery.WriteSafe: assumes that the log has no unread tail when the batch is appended, because behind such a tail the code does not meet the property; `ByteDisk.WritesSurviveIffClean` is the exact condition, `ByteDisk.ShortWriteLost` a failing family and `LostWrite.AcknowledgedWriteLost` one failing run.
- Runs.CrashSafeRefinement: makes the same assumption about every write of the run, as a condition on the log at the moment of the call, and asks for an L0 trigger of at least 1 at every open.
- ByteRuns.BytesRecover: assumes that every key, value, record and file-list length fits its 32-bit field and every size and number its 64-bit field.
- Db.DB.Open: covers directories that represent a recoverable state, which every directory a run can leave does (`ByteRuns.DirectoryReached`); opening a damaged manifest or table is covered only by the parsers (`Manifests.Version.Load`, `SSTableIO.OpenReader`).
- Db.DB.Write: covers batches filled by `Put` and `Delete`; one filled through the public `SetData`, whose count does not match, is logged and applied by the code, which then answers with corruption and skips the flush.
- Db.DB.CompactUntilSettled: the class requires an L0 trigger of at least 1, since the loop does not end otherwise (`Compaction.LoopEndsIff`).
- SSTableIO.SSTableReader.Get: a file whose index is not sorted, which the writer never produces from a sorted list, is outside the binary search's contract.
- SSTableIO.SSTableReader.FindLowerBound: what the halving loop returns on an unsorted index is not stated either.
- SSTableIO.SSTableReader.ReadAll: the reader's fields are constants filled when it is opened, and the file cursor is a position in its bytes; a tag byte other than 1 or 2, never written, reads as a live empty value.
- Bloom.NoFalseNegatives: the probe count, which the code computes in floating point as 0.69 times the bits per key, is any number from 1 to 30; the false-positive rate is not modelled.
- Bloom.Build: bits per key is a natural number; a negative one wraps to a filter size that cannot be allocated.
- Failing file operations, short writes and reads, `errno`, file handles and the sync flag: a file is a byte string and a rename is atomic.
- Power loss and the order in which the operating system writes back: a crash here is the death of the process.
- Damage to the manifest or to a table by the medium.
- Paths: tables are identified by number, and the sweep compares numbers rather than path text.
- Threads, condition variables and two threads inside Close at once: every critical section is one step, and steps interleave freely.
- Aliasing of the directory: the class holds the bytes of its directory as one value, with no second process changing them.
- `std::map` as a balanced tree and `std::sort` as introsort: the map is a map walked in key order, and the sort is an insertion sort of indices with the same result.
- Memory limits, such as a damaged length asking replay for 4 GB.
- 64-bit varints, `GetStats`, `Status` texts, the iterator's cursor, option defaults, the command line, benchmarks and tests.
