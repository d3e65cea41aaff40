# Verification of the Bitcask store and its RESP server

This project models a log-structured key-value store and the server that speaks the Redis
serialization protocol in front of it, and proves what the two promise. It has two halves, which meet
in the last modules.

**The storage engine** (`src/storage/bitcask/*`). A store is a directory of append-only data files and
hint files, an in-memory index from keys to places in the data files, and per-file counters of live
and dead entries. The model has three layers.

- `Store`, `Recovery`, `Compaction` and the modules that follow them are a state machine over files of
  records: writing, rotating, merging, and rebuilding everything from the directory. The invariant of a
  running engine (`Store.Running`) says that every index entry names one complete record with that key
  and a value, that the statistics of every file are exact, that ids are in order and that files are
  bounded. The theorems about whole histories are in `Runs` and `CompactionTheorems`, and those about
  histories with crashes in `Crashes`, whose reference is a map that knows which of its writes lie in
  the newest file.
- `Framing`, `LogCodec` and `LogFile` are the bytes: bincode's fixed-width little-endian encoding of
  the two entry types, which is shown to be self-delimiting, and files that are cut at any byte.
  `LogFormat` gives the bytes of the entries one by one and says which bytes are no entry.
- `Log`, `Writer`, `Opening` and `Handles` are the classes of the program. Their methods change a
  directory of named byte strings, loop over keys and files, and are proved to take exactly the steps
  of the state machine. A file from an earlier session may end in a record that was cut.

`Concurrency`, `Readers` and `Linearizability` put any number of clients beside the writer: each takes a
reader out of the pool, looks a key up, reads through a cached mapping and puts the reader back, and all
of these steps interleave with each other, with single writer steps (append, rotate, change the index;
copy, re-point, remove) and with evictions.

**The codec and the server** (`src/net/*`). `Frames` says what the checking pass and the building pass
make of a buffer; `FrameCursor` is the imperative cursor with its four accumulation loops, proved equal
to it. `FramePasses` relates the passes to each other and to bytes that come later, `LoneSigns` says
where the checking pass runs out of its buffer, `Decimals` and `Printing` are about integers and about
what is written, and `WireFormat` and `CodePoints` give the bytes of frames, numbers and text by their
values. `Connection` and `Stream` are about frames over a stream of reads, `Endings` about how a stream
ends, `Delivery` about what the other side reads of what one side writes, `Commands` about commands in
frames, and `CommandLaws` about their names and their replies. `Serving` and `EndToEnd` compose
everything: the bytes of commands come in, in any reads, the engine of the first half is changed, with
merges between the commands, and the bytes of the replies go out.

## What the proofs found

- **Hints are written with the old position.** A merge notes the source position of a copied record in
  the hint file (`writer.rs:223-228`), while recovery reads it as a position in the hint's own data file
  (`bitcask.rs:372-378`). The model keeps both rules: `AsWritten` is the code, `AsIndexed` writes the
  position that the index gets (`writer.rs:208-216`). `MergeRebuildsTo` says what every
  merged directory rebuilds to, and `HintsPointNowhere` is a history of three operations after which, as
  the code is, the value of a key is gone when the directory is opened again.
- **A selection with gaps can revive a deleted key.** `GapRevivesValue` is such a history, with correct
  hints and with thresholds that pick such a selection. `MergeRecoverableIff` says exactly when a merged
  directory rebuilds to the index, under either rule: each copied record starts where its hint says, and
  no deleted key has an older value left when the selected files are gone. A selection that is closed downwards always meets the second condition.
- **The digit limit is an index, not a count.** `get_integer` compares the buffer index with 18
  (`frame.rs:195`, `:218`). Digits that start past index 18 are accumulated without a check; the model
  gives them the wrapped value of a release build. `DecimalsAreExact` says exactly which values are
  read exactly, which are rejected and which come back wrapped.
- **A sign as the last buffered byte runs out of the buffer** (`frame.rs:186-196`). The model makes this
  panic an outcome. `FaultIff` gives its exact condition on the bytes, and `PanicsIff` on the reads of a
  session: one of them ends with a sign exactly where the bytes so far await a number. Requests, and
  replies of the server, never have a sign there, so they are safe however they are split.
- Arrays within arrays are parsed but not written (`connection.rs:155`); `WriteFrame` says so.

## Choices

- The selection of a merge is any subset of the files that have statistics; the order in which keys are
  copied, and in which the index is pointed to the copies, is arbitrary. The files are removed in
  ascending order, as the ordered set of the program has it.
- A record that is appended becomes visible to readers as a whole. `LogReader::at` extends its mapping
  only when the position is past its end, which is enough only because mappings end where records end.
- Integers of the log are 64 bits wide where they are encoded; counters and offsets in memory are
  unbounded. Text in frames is kept as bytes, with the syntax of section 4 of RFC 3629 as the test for
  UTF-8; the raw bytes of an error stand for their lossy decoding.

## Model

| member | source | states |
|---|---|---|
| `LogCodec.RecordRoundTrip` | src/storage/bitcask.rs:472-477 | reading the bytes of a data file entry gives it back and stops at its last byte, whatever follows |
| `LogCodec.RecordCanonical` | src/storage/bitcask/log.rs:240-245 | reading succeeds with an entry exactly on the bytes of that entry: one encoding each, none a prefix of another |
| `LogCodec.RecordTruncated` | src/storage/bitcask/log.rs:246-252 | an entry cut short anywhere reads as the end of the file, never as an error or another entry |
| `LogCodec.HintRoundTrip` | src/storage/bitcask.rs:464-470 | the same round trip for hint file entries |
| `LogFormat.RecordLayout` | src/storage/bitcask/log.rs:146-157 | the bytes of a data file entry: time stamp, key length, key, tag, value length, value; numbers in eight bytes with the least significant first; the tag is 0 exactly for a tombstone |
| `LogFormat.HintLayout` | src/storage/bitcask.rs:464-470 | the bytes of a hint file entry: time stamp, length, position, key length, key |
| `LogFormat.CorruptIff` | src/storage/bitcask/log.rs:246-252 | bytes are no entry exactly if the header and the key are there and the tag after them is neither 0 nor 1 |
| `LogFormat.EofIff` | src/storage/bitcask/log.rs:246-252 | reading finds the end of the file exactly in the front of some entry |
| `LogFormat.UnreadableIff` | src/storage/bitcask.rs:394-442 | a data file fails to be read exactly if after some whole entries there is such a tag |
| `LogFormat.ReadsIff` | src/storage/bitcask/log.rs:234-254 | it is read, as these entries, exactly if it is these entries and then the front of one |
| `LogFormat.HintsAlwaysRead` | src/storage/bitcask.rs:361-392 | a hint file never fails to be read |
| `Framing.SliceHoldsEntry` | src/storage/bitcask/log.rs:146-157 | the bytes of each entry lie where the entries before it end |
| `Framing.CutFileReads` | src/storage/bitcask/log.rs:234-254 | a file of entries cut at any byte reads as its complete entries before the cut, without error |
| `LogFile.FindPrefix` | src/storage/bitcask/log.rs:257-266 | what a position holds never changes while the file is appended to |
| `LogFile.SliceHoldsRecord` | src/storage/bitcask/log.rs:189-200 | the slice given by the position and length of a record is exactly the bytes of the record |
| `LogFile.CutDataFile` | src/storage/bitcask/log.rs:234-254 | a data file cut at byte n reads as the largest number of its records that end by n |
| `KeyDir.ReplayIsLast` | src/storage/bitcask.rs:394-442 | replaying a log leaves in the index exactly the last entry of every key, and none for a key that ends in a tombstone |
| `KeyDir.ReplayIsLatest` | src/storage/bitcask.rs:394-442 | the same by place: the latest entry of a key decides |
| `KeyDir.ApplyKeepsExact` | src/storage/bitcask/log.rs:32-48 | one more log entry keeps the counters of every file exact |
| `KeyDir.RetireFindsFile` | src/storage/bitcask/log.rs:44-48 | the entry that an update retires lies in a file with counters and is counted live there, so the decrement cannot underflow |
| `KeyDir.SumIsCardinality` | src/storage/bitcask/log.rs:50-52 | the live counter is the number of keys that point into the file |
| `Store.UpdateApplies` | src/storage/bitcask/writer.rs:106-160 | writing changes index and statistics as replaying the written entry does, and only the content of the active file |
| `Store.UpdateKeepsRunning` | src/storage/bitcask/writer.rs:71-160 | a put or a delete, with its rotation, keeps the invariant of a running engine |
| `Store.UpdateContents` | src/storage/bitcask/writer.rs:71-103 | a put or a delete changes the map at its own key only, to the value or to nothing |
| `Store.GetReadsContents` | src/storage/bitcask/reader.rs:31-50 | a get returns what the map has for the key |
| `Store.PutLeaves` | src/storage/bitcask/writer.rs:71-82 | a put leaves one more record in the active file, an index entry with its length, position and time stamp, and a new active file if that one is over the limit, and nothing else |
| `Store.DeleteLeaves` | src/storage/bitcask/writer.rs:89-103 | a delete leaves a record without a value, takes the key out, and says whether it was there |
| `Recovery.RebuildIsNewest` | src/storage/bitcask.rs:314-442 | the rebuilt index has a key exactly if its newest entry in replay order is a value, and points to that entry |
| `Recovery.RebuildIsExact` | src/storage/bitcask.rs:380-437 | rebuilt statistics are exact for the directory and the rebuilt index |
| `Recovery.StatsDetermined` | src/storage/bitcask/log.rs:26-30 | exact statistics are determined by directory and index |
| `Recovery.RebuildGivesStats` | src/storage/bitcask.rs:314-358 | whenever the directory of a running engine rebuilds to its index, it rebuilds to its statistics |
| `Recovery.UpdateStepsRebuild` | src/storage/bitcask/writer.rs:106-160 | replaying the directory after a write is replaying it before and then the written entry, also across a rotation |
| `Recovery.UpdateKeepsRecoverable` | src/storage/bitcask.rs:314-442 | a directory that rebuilds to the index still does after any put or delete |
| `Recovery.OpenRuns` | src/storage/bitcask.rs:63-92 | opening gives a running engine with the rebuilt index and an active id above all ids there |
| `Recovery.ReopenRestores` | src/storage/bitcask/writer.rs:341-351 | closing and opening again restores index, statistics and map |
| `CompactionCopy.CopyAllCopied` | src/storage/bitcask/writer.rs:182-241 | after any number of copies, the outputs hold exactly the copied records, the planned entries name them, the counters count them, and each output is bounded |
| `CompactionEffects.CopyingIsInvisible` | src/storage/bitcask/writer.rs:189-241 | after each copied record every index entry names a record and the map is unchanged |
| `CompactionEffects.RepointingIsInvisible` | src/storage/bitcask/writer.rs:245-247 | pointing any part of the index to the copies, in any order, leaves the map unchanged |
| `CompactionEffects.NothingLeftBehind` | src/storage/bitcask/writer.rs:245-262 | before the first removal no index entry refers to a selected file |
| `CompactionEffects.RemovingIsInvisible` | src/storage/bitcask/writer.rs:250-262 | removing any of the selected files and hint files leaves the map unchanged |
| `CompactionEffects.MergeKeepsRunning` | src/storage/bitcask/writer.rs:164-266 | a merge keeps the invariant, statistics included, and the map |
| `CompactionRecovery.PlanIsSlot` | src/storage/bitcask/writer.rs:208-240 | the place of a copy is computed from the lengths of the records copied before it and the file limit |
| `CompactionRecovery.RebuiltKeys` | src/storage/bitcask.rs:361-392 | everything that the rebuilt index has after removing any of the selected files, under either hint rule: the hinted entries of the copies, the old entries of the other keys, and the deleted keys that come back |
| `CompactionRecovery.RebuiltIndex` | src/storage/bitcask.rs:361-392 | it is the index of the merge if and only if every hint points to its copy and no deleted key comes back |
| `CompactionRecovery.StoppedMergeRebuilds` | src/storage/bitcask/writer.rs:223-262 | wherever the removals stop, what is left rebuilds to the index if and only if the hints give the positions of the copies and no deleted key has lost its tombstone before its older values |
| `CompactionTheorems.MergeRecoverableIff` | src/storage/bitcask/writer.rs:164-266 | after a merge the directory rebuilds to the running index if and only if those two conditions hold |
| `CompactionTheorems.MergeRebuildsTo` | src/storage/bitcask/writer.rs:223-228 | what a merged directory rebuilds to, key by key: as the code writes hints, every copied key gets its new entry with the position of the old one |
| `CompactionTheorems.ClosedRevivesNothing` | src/storage/bitcask/writer.rs:250-262 | removing files from the oldest up never brings a deleted key back |
| `CompactionTheorems.CrashSafeCompaction` | src/storage/bitcask/writer.rs:250-262 | for a downward closed selection and hints with the positions of the copies: after any prefix of the removals in ascending order, hint before data, what is left opens as a running engine with the merged index and the map from before the merge |
| `Counterexamples.HintsPointNowhere` | src/storage/bitcask/writer.rs:223-228 | as hints are written, overwriting one key and merging, which the thresholds allow, leaves a directory in which the key has lost its value when it is opened again |
| `Counterexamples.GapRevivesValue` | src/storage/bitcask/writer.rs:321-338 | with correct hints, thresholds that pick the file of a tombstone and not the older file with the value bring the deleted value back on reopening |
| `Runs.RunRefinesMap` | src/storage/bitcask/writer.rs:71-266 | every sequence of puts, deletes, gets, merges of any selection and reopenings answers as a plain map, the Boolean of a delete included, and ends as that map |
| `Runs.HistoryRebuilds` | src/storage/bitcask.rs:331-442 | after every history whose merges meet the two conditions, replaying hint and data files gives the same index, pointers included, and the same statistics |
| `Runs.ClosedMergeIsBenign` | src/storage/bitcask/writer.rs:321-338 | a merge of a downward closed selection meets the conditions when hints give the positions of the copies |
| `Runs.EmptyDirectoryRuns` | src/storage/bitcask.rs:63-92 | opening an empty directory starts such a history |
| `Runs.TornTail` | src/storage/bitcask/log.rs:234-254 | cutting the newest data file at any byte and rebuilding gives index, statistics and map after a prefix of the operations since opening or the last merge, and which prefix |
| `Runs.StatisticsSay` | src/storage/bitcask/log.rs:24-60 | per file: live counts the keys that point there, live and dead together its records, dead bytes its bytes without the live ones; a counter that will be decremented is positive |
| `Runs.FilesAreBounded` | src/storage/bitcask/writer.rs:121-158 | every data file is at most the limit and its last record long, and the written bytes are the size of the active file |
| `Runs.NewIdsAreFresh` | src/storage/bitcask/writer.rs:157-264 | every file that one operation creates has an id above all ids used before in the session |
| `Runs.NeverAgain` | src/storage/bitcask/writer.rs:157-264 | over any operations without a reopening, an id that is gone never comes back |
| `Runs.NoIdTwice` | src/storage/bitcask/log.rs:257-266 | over any operations without a reopening, no id is created twice |
| `Crashes.CutRunsOn` | src/storage/bitcask.rs:63-92 | after the newest file is cut at byte n and what is left is opened, the engine runs on with every write to the older files and, of the newest, exactly the writes whose records end by n |
| `Crashes.HappeningStands` | src/storage/bitcask.rs:63-92 | an operation, a cut of the newest file, or a stop of a merge in its removals, the last two followed by opening, does to the engine what it does to a map that knows the records of its newest file, and is answered from that map |
| `Crashes.CrashesLoseOnlyTheTail` | src/storage/bitcask.rs:314-442 | over every history of operations and crashes the engine answers and ends as that map: only a cut loses anything, and only the records of the newest file that do not end by the cut; the newest file holds at most the limit; and the directory always rebuilds to the index and the statistics in memory |
| `Crashes.EmptyDirectoryLives` | src/storage/bitcask.rs:63-92 | opening an empty directory starts such a history with the empty map |
| `FileIds.Ascending` | src/storage/bitcask/utils.rs:31-53 | lists exactly the given ids, each once and in ascending order |
| `Log.LogWriter.Append` | src/storage/bitcask/log.rs:146-157 | the file grows by the encoded entry, and the returned position and length say where it lies |
| `Log.LogIterator.Advance` | src/storage/bitcask/log.rs:234-254 | yields the entries of the file in order with position and length, stops at the end or in a cut entry, and fails only on other bytes |
| `Log.MappingSuffices` | src/storage/bitcask/log.rs:193-200 | with a mapping that ends where a record ends, testing the position alone makes the whole record lie within the mapping used |
| `Log.LogDir.Slice` | src/storage/bitcask/log.rs:86-106 | reading through the bounded cache returns the bytes of the record and keeps every mapping ending at a record boundary |
| `Writer.Writer.constructor` | src/storage/bitcask/writer.rs:49-65 | a writer over a read directory with a new active file |
| `Writer.Writer.NewActiveDatafile` | src/storage/bitcask/writer.rs:309-318 | a new empty active file, nothing else changed |
| `Writer.Writer.Write` | src/storage/bitcask/writer.rs:106-160 | the bytes, counters and rotation of one write are the step of the state machine, and the entry names the record |
| `Writer.Writer.Put` | src/storage/bitcask/writer.rs:71-82 | a put is the put of the state machine, bytes and statistics included |
| `Writer.Writer.Delete` | src/storage/bitcask/writer.rs:89-103 | a delete is the delete of the state machine, with its Boolean |
| `Writer.Writer.PlaceRecord` | src/storage/bitcask/writer.rs:198-228 | copies the raw bytes of one record, counts it, and writes the hint with the old length and position |
| `Writer.Writer.CopyRecords` | src/storage/bitcask/writer.rs:182-242 | the copying loop, with its switches of output files, is the copying phase of the state machine |
| `Writer.Writer.Repoint` | src/storage/bitcask/writer.rs:245-247 | points exactly the planned keys to their copies |
| `Writer.Writer.RemoveStale` | src/storage/bitcask/writer.rs:250-262 | removes the hint and data files of exactly the given ids and their counters; after each single removal the directory is at a point of the ascending removals, hint before data, that `CrashSafeCompaction` is about |
| `Writer.Writer.MergeFiles` | src/storage/bitcask/writer.rs:164-266 | the merge of the program, with given files and key orders, is the merge of the state machine under the code's own hint rule, and passes through points of the ascending removals only |
| `Writer.Writer.FileidsToMerge` | src/storage/bitcask/writer.rs:321-338 | picks files that have statistics, in ascending order |
| `Writer.Writer.KeysWithin` | src/storage/bitcask/writer.rs:189-195 | lists each key whose entry lies in one of the files, once |
| `Writer.Writer.Merge` | src/storage/bitcask/writer.rs:164-266 | picking files and merging them is a merge of the state machine of what was picked, and passes through points of the ascending removals only |
| `Opening.PopulateWithDatafile` | src/storage/bitcask.rs:394-442 | replays the records of a data file into index and statistics; fails exactly on bytes that are no entry |
| `Opening.PopulateWithHintfile` | src/storage/bitcask.rs:361-392 | the same for a hint file |
| `Opening.RebuildStorage` | src/storage/bitcask.rs:314-358 | reads any directory, cut files included: the replay of its files in id order and the first free id; fails exactly if a replayed file holds bytes that are no entry |
| `Opening.CutHolds` | src/storage/bitcask/log.rs:234-254 | a directory whose newest file is cut at byte n holds, byte for byte, the records of that file that end by n |
| `Opening.OpenDirectory` | src/storage/bitcask.rs:63-92 | opening a directory that an engine wrote, files of earlier sessions cut or not, is the opening of the state machine |
| `Opening.CloseWriter` | src/storage/bitcask/writer.rs:341-351 | dropping the writer removes the active file exactly if nothing was written to it |
| `Opening.Reader.Get` | src/storage/bitcask/reader.rs:31-50 | looks the key up and decodes its record through the reader's own cache: the value of the state machine |
| `Concurrency.ViewStands` | src/storage/bitcask/writer.rs:106-266 | between any two writer steps each index entry names a record, and readers see the map from the start of the operation |
| `Concurrency.WriterStepStands` | src/storage/bitcask/writer.rs:71-266 | a writer step keeps the invariant, and only the step that changes the index for an update changes the map |
| `Concurrency.WriterStepGrows` | src/storage/bitcask/log.rs:257-266 | with every writer step files only grow or go, and each new file has an id never used before |
| `Concurrency.UpdateGoesThrough` | src/storage/bitcask/writer.rs:71-160 | an update is always done in three steps |
| `Concurrency.MergeGoesOn` | src/storage/bitcask/writer.rs:164-266 | from any point of a merge a step is possible that leaves less to do, until it is done |
| `Readers.StepOk` | src/storage/bitcask.rs:162-178 | every step of clients, writer and caches keeps the invariant of the whole system, every mapping ending at a record boundary included |
| `Readers.PlaceReads` | src/storage/bitcask/reader.rs:31-50 | a place that was looked up reads as the value seen at the lookup, through any mapping that the system can have |
| `Readers.PushFits` | src/storage/bitcask.rs:172 | the queue has room for a reader that is put back |
| `Readers.GetGoesOn` | src/storage/bitcask.rs:162-178 | a get can always take its next step, and is over after three of its own |
| `Linearizability.MapSeenIs` | src/storage/bitcask/writer.rs:71-266 | in every interleaving readers see the updates whose index change is done, in order, and nothing else |
| `Linearizability.GetIsLinearizable` | src/storage/bitcask.rs:162-178 | every get returns what the map held at a moment within the get, or reports a file that a merge removed after that moment; it never reads outside a mapping and never meets other bytes |
| `Linearizability.PoolNeverOverflows` | src/storage/bitcask.rs:162-178 | readers in the pool and in use always equal the capacity |
| `Handles.Handle.Put` | src/storage/bitcask.rs:148-153 | sets the key in the map unless closed, keeping all invariants down to the bytes |
| `Handles.Handle.Delete` | src/storage/bitcask.rs:155-160 | removes the key unless closed and says whether it was there |
| `Handles.Handle.Get` | src/storage/bitcask.rs:162-178 | returns the map's value unless closed and changes nothing |
| `Handles.Handle.Merge` | src/storage/bitcask.rs:180-189 | unless closed merges if that is triggered, which leaves the map as it is and keeps all invariants down to the bytes, the cached mappings of the reader included |
| `FrameCursor.Cursor.GetLine` | src/net/frame.rs:151-165 | the loop finds the line up to the first CR, rejects an LF before it, and asks for more otherwise |
| `FrameCursor.Cursor.AccumulateUp` | src/net/frame.rs:193-215 | the unchecked and the checked loop together accumulate the run of digits: the exact value, none on overflow, or the wrapped value past the limit |
| `FrameCursor.Cursor.AccumulateDown` | src/net/frame.rs:216-239 | the same for negative numbers |
| `FrameCursor.Cursor.GetInteger` | src/net/frame.rs:167-254 | the integer, its errors with their bytes, and the panic on a lone sign |
| `FrameCursor.Cursor.Check` | src/net/frame.rs:115-146 | the checking pass, recursion and loop, is the checking function, position included |
| `FrameCursor.Cursor.Parse` | src/net/frame.rs:61-112 | the building pass is the building function, position included |
| `Decimals.WrapStep` | src/net/frame.rs:195-201 | accumulating with wrap-around wraps the exact value |
| `Decimals.SafeDigitsFit` | src/net/frame.rs:183-185 | eighteen digits always fit |
| `Printing.DecimalsAreExact` | src/net/frame.rs:167-254 | a signed digit string before CR is read exactly if and only if it fits 64 bits; it is rejected if and only if it does not fit and its digits start at index 18 or before; what is read otherwise is the wrapped value |
| `Printing.OverflowGoesUnnoticed` | src/net/frame.rs:195-201 | past index 18 the number 2^63 is read as -2^63 |
| `Printing.DecimalFits` | src/net/connection.rs:160-169 | every 64-bit integer is written in at most twenty bytes |
| `Printing.PrintedReads` | src/net/connection.rs:98-158 | a written frame reads back at any place of any buffer, whatever follows, and reading takes exactly its bytes |
| `Printing.ReadIsWellFormed` | src/net/frame.rs:36-51 | every frame that can be read has one-line UTF-8 text and lengths below 2^63, at every depth |
| `Printing.RoundTripIff` | src/net/connection.rs:64-158 | writing and reading gives the frame back if and only if it is well formed |
| `WireFormat.NumberIs` | src/net/frame.rs:167-254 | in every case what reading a number comes to, with the bytes of its errors |
| `WireFormat.NumberIff` | src/net/frame.rs:167-254 | a number is read exactly where there is maybe a sign, at least one digit, CR and one more byte |
| `WireFormat.LineErrorIff` | src/net/frame.rs:151-165 | a line is refused exactly at an LF before any CR, and incomplete exactly if nothing ends it |
| `WireFormat.FrameIff` | src/net/frame.rs:61-112 | a frame is read exactly where its bytes are, given for every kind of frame by their values |
| `WireFormat.CheckedIff` | src/net/frame.rs:115-146 | and what passes the check likewise |
| `WireFormat.OtherBytesAreRefused` | src/net/frame.rs:61-146 | a frame that starts with any other byte is refused by both passes |
| `WireFormat.DecimalIff` | src/net/connection.rs:160-169 | a number is written as its one decimal form, without needless zeros |
| `WireFormat.WrittenIff` | src/net/connection.rs:98-158 | the bytes that a frame is written as are those that the protocol has for it, given by their values |
| `CodePoints.ValidIff` | src/net/frame.rs:64-73 | the bytes that are accepted as text are exactly those of sequences of Unicode characters |
| `FramePasses.CheckStands` | src/net/frame.rs:115-146 | success with its end, and every error but Incomplete, stay under any extension of the buffer |
| `FramePasses.CheckOfPrefix` | src/net/frame.rs:115-146 | a checked frame is accepted exactly when all its bytes are there; with fewer, the pass asks for more or runs past a lone sign |
| `LoneSigns.IntegerFaultIff` | src/net/frame.rs:167-196 | reading an integer runs out of the buffer if and only if its sign is the last byte |
| `LoneSigns.FaultIff` | src/net/frame.rs:115-196 | the pass runs out of the buffer if and only if the last byte is a sign and the bytes before it are complete array headers and frames and then the type byte of a number that may start with that sign |
| `FramePasses.PassesAgree` | src/net/frame.rs:61-146 | for every buffer: building succeeds if and only if checking does and nothing is refused (text that is not UTF-8, a malformed null, a negative array length, at any depth), and then both end at the same place |
| `FramePasses.CheckedParses` | src/net/connection.rs:75-96 | after a successful check building does not panic |
| `FramePasses.ParseIsDecided` | src/net/connection.rs:75-96 | after a successful check, later bytes change neither whether the frame is built nor the frame |
| `FramePasses.WorkIsBounded` | src/net/frame.rs:99-146 | three times the frames visited is at most the bytes consumed, and all announced array lengths together are one less than the frames |
| `Connection.Connection.ParseFrame` | src/net/connection.rs:75-96 | a frame leaves the buffer with exactly its bytes, or the buffer stays |
| `Connection.Connection.ReadFrame` | src/net/connection.rs:41-61 | the loop returns the next frame, the end of the stream, a reset, an error or a panic |
| `Connection.Connection.ReadFrames` | src/net/connection.rs:41-61 | repeated calls give the session that is defined on all bytes |
| `Connection.Connection.WriteDecimal` | src/net/connection.rs:160-169 | the digits fit the twenty-byte buffer and are written whole |
| `Connection.Connection.WriteSingleValue` | src/net/connection.rs:113-158 | writes the bytes of a frame; panics on an array |
| `Connection.Connection.WriteArray` | src/net/connection.rs:98-111 | writes the length and the items in order; panics if an item is an array |
| `Connection.Connection.WriteFrame` | src/net/connection.rs:64-73 | writes the bytes of any frame, or panics exactly on an array within an array |
| `Connection.ReadAllStep` | src/net/connection.rs:41-61 | a session is its next frame and then the rest, and consumes bytes |
| `Stream.AsIfAtOnce` | src/net/connection.rs:41-61 | unless it panics, a session brings the frames and the kind of ending of the same bytes at once |
| `Stream.FramesAreFirst` | src/net/connection.rs:41-61 | the frames of a session with a panic are the first frames of the same bytes at once |
| `Stream.AtOncePanicsIff` | src/net/frame.rs:186-196 | bytes that come at once panic if and only if they end with a sign where the bytes before it await a number |
| `Stream.PanicsIff` | src/net/connection.rs:41-61 | a session panics if and only if some read ends with a sign where the bytes so far await a number |
| `Stream.ChunkingDoesNotMatter` | src/net/connection.rs:41-61 | two ways of splitting the same bytes, no read of which ends with an awaited sign, bring the same frames and end alike |
| `Stream.SignAtEndMatters` | src/net/frame.rs:186-196 | the bytes of ":-1" split after the sign panic, and unsplit give -1 |
| `Endings.ClosedIff` | src/net/connection.rs:41-61 | a stream ends orderly exactly if its bytes are whole frames, and brings these |
| `Endings.ResetIff` | src/net/connection.rs:41-61 | it is reset exactly if it ends within a frame |
| `Delivery.WrittenComesBack` | src/net/connection.rs:41-158 | the bytes of any well-formed written frames, at once, are read back as these frames and then the end |
| `Delivery.DeliveredIff` | src/net/connection.rs:41-158 | split into reads, they are read back as these frames if and only if no read ends with an awaited sign |
| `Delivery.AlwaysDelivered` | src/net/connection.rs:41-158 | frames without negative integers are read back however their bytes are split |
| `Commands.FrameOfDel` | src/net/command/del.rs:57-65 | the push loop builds the DEL frame with its keys in order |
| `Commands.Parser.GetString` | src/net/command.rs:107-116 | the next value as UTF-8 text, none at the end, or the error with its frame |
| `Commands.Parser.GetBytes` | src/net/command.rs:122-128 | the next value as bytes, none at the end, or the error with its frame |
| `Commands.Parser.ParseDel` | src/net/command.rs:139-148 | the loop takes all remaining values as keys; no key is an error |
| `Commands.Parser.ParseGet` | src/net/command.rs:154-162 | one key and nothing else, with the errors in the order of the code |
| `Commands.Parser.ParseSet` | src/net/command.rs:168-179 | one key, one value and nothing else, with the errors in the order of the code |
| `Commands.TryFrom` | src/net/command.rs:74-83 | dispatch by name, with the error for every other frame |
| `Commands.ParsesIff` | src/net/command.rs:71-180 | a frame parses as a command if and only if it is the frame that the command is written as (and no DEL without keys) |
| `CommandLaws.GetIff` | src/net/command/get.rs:48-55 | a GET is the array of the three letters and the key, and of nothing else |
| `CommandLaws.SetIff` | src/net/command/set.rs:49-57 | the same for SET with its key and value |
| `CommandLaws.DelIff` | src/net/command/del.rs:57-65 | the same for DEL with at least one key |
| `CommandLaws.NoCommand` | src/net/command.rs:71-83 | what is answered to frames that are no array, have no name, or another name |
| `CommandLaws.WrongNumber` | src/net/command.rs:136-180 | too few and too many arguments are refused with these messages |
| `CommandLaws.WrongKey` | src/net/command.rs:107-116 | a key that is no bulk string or no text is refused with what it is |
| `Serving.DelEachIs` | src/net/command/del.rs:33-43 | keys deleted one after the other are gone together, and a key named twice counts once |
| `Serving.Handler.ApplyDel` | src/net/command/del.rs:33-48 | the counting loop over the engine removes the keys and counts those that were there |
| `Serving.Handler.Apply` | src/net/command.rs:54-68 | a command changes the engine as it changes a plain map, and its reply is written |
| `Serving.Handler.Run` | src/net/server.rs:232-259 | the loop serves the frames of the stream up to the first that is no command, or the first at all when the engine is closed: engine, bytes written and the reason to stop are those of a plain map, whatever merges happen between the commands |
| `EndToEnd.ServesWhatWasSent` | src/net/server.rs:232-259 | whatever commands a client writes, split into any reads, the server does what a plain map does, with the same replies, and stops when the client closes |
| `EndToEnd.CountIsExact` | src/net/command/del.rs:33-48 | the count of a DEL is the number of its distinct keys that were there and never wraps |
| `CommandLaws.SetIsAnswered` | src/net/command/set.rs:30-48 | a SET is answered with OK |
| `CommandLaws.GetIsAnswered` | src/net/command/get.rs:30-47 | after any commands a GET is answered with the value of the last SET of its key, with a null after a later DEL, and as at first if nothing has changed the key |
| `CommandLaws.GetChangesNothing` | src/net/command/get.rs:30-47 | a GET changes nothing for the commands that follow |
| `CommandLaws.DelIsAnswered` | src/net/command/del.rs:27-48 | a DEL is answered with the number of its keys that a GET would have found |
| `EndToEnd.RepliesComeBack` | src/net/client.rs:100-116 | from the bytes of the replies, split into any reads, the client reads one reply per command, those of the plain map |
| `EndToEnd.ServeClient` | src/net/server.rs:232-259 | from the bytes of the requests to the bytes of the replies: in any reads on both sides the client gets the replies of a plain map, and the engine holds what the plain map holds |

## Left out

- Server plumbing: shutdown signals, the accept loop, back-off, semaphores and the thread pool.
- Configuration, telemetry, command-line programs, file-name formatting and parsing: a name is a file id with its kind.
- Merge triggers, time window and fragmentation thresholds: the selection and the moment of a merge are arbitrary.
- Skip list, LRU cache, queue, mutex and memory map internals: an atomic map, a bounded cache that evicts anything, a bounded queue, one writer at a time, and a prefix of a file.
- I/O errors and durability: calls succeed. The crashes modelled are a cut in the newest data file and a stop during the removals of a merge, any number of times.
- A crash while the outputs of a merge are written: hints are flushed before the buffered copies (`writer.rs:183-229`), so recovery makes no clean promise there.
- The values of time stamps: they are carried unchanged and decide nothing.
- Overflow of 64-bit offsets, ids and counters in memory: they are unbounded numbers; the positions that go into hint entries are checked to fit (`Writer.PositionsFit`).
- Buffering inside the log writers: bytes that are written are in the file. Appends are visible as whole records.
- FrameCursor.Cursor.Parse: does not have the panic of reserving room for a huge announced array length (`frame.rs:103`), which is reached only by parsing bytes that were not checked; after a check the lengths are bounded by the bytes (`FramePasses.WorkIsBounded`), and a connection always checks first.
- The depth of the recursion of both passes, which the source does not bound: the model's stack has no end.
- The memory that is asked for to read an entry whose length field promises more bytes than the file has.
- A debug build, in which accumulating past the digit limit panics instead of wrapping.
- The bytes that are already out when `WriteFrame` panics on a nested array.
- Several connections at once over the classes: `Handles` and `Serving` run one operation at a time, with merges in between; operations that interleave are the subject of `Linearizability`.
- Recovery.RebuildIsExact: is for directories whose hint files say what their data files say; under the code's own hint rule a merge can leave others (`Counterexamples.HintsPointNowhere`), and what those rebuild to is `CompactionRecovery.RebuiltKeys` and `CompactionTheorems.MergeRebuildsTo`.
- Recovery.OpenRuns: is for the same directories; what reading any other directory gives is `Opening.RebuildStorage`.
- Log.LogDir.Slice: is about files that are there; a file that a merge has removed is answered with an error, which is in `Linearizability.GetIsLinearizable`.
- Writer.Writer.CanMerge: refuses to merge when a position takes more than 64 bits, which cannot be in the program; the model has no bound on file sizes.
- Readers.StepOk: takes remapping and slicing a file as one step, since a mapping belongs to one reader; starts from files of whole records.
