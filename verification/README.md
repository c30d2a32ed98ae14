# smolkafka commit log: a verified model

This project models the commit-log storage engine of smolkafka and what is built
on it, and proves how it behaves, from single bytes in the files up to whole runs
of a replicated node.

* `Bytes`, `RecordCodec`: big-endian integers and the Protocol Buffers encoding
  of records (Protocol Buffers Encoding guide, sections "Base 128 Varints" and
  "Length-Delimited Records").
* `Layout`, `Replay`, `Capacity`: a log as a value, its invariant, the canonical
  layout, and when an append can fail.
* `Files`, `FileNames`, `Store`, `Index`, `Segment`, `CommitLog`: the classes,
  with their buffers, maps and files, proved byte for byte against `Layout`.
* `Recovery`, `FlatLog`, `MemoryLog`: reopening a closed log, and the simple
  sequences the segmented log agrees with.
* `StreamParser`, `Fsm`, `Snapshot`, `RaftStore`: restore as a parser, the
  replicated state machine, snapshots taken while records are appended, and
  Raft's own log store.
* `Formats`: the bytes on disk, in snapshots and in commands, spelled out.
* `Streams`, `Picker`: the server's streams and the client-side load balancing.

A segment's value (`Layout.Seg`) has the records its index knows about and, apart
from them, the frames a failed append left in its store. `LayoutOk` is the
invariant of every reachable log; `Build` is the log that a sequence of appends
makes; `View` is the flat sequence a client sees.

## Where the code does not do what it is for

* `segment.Append` writes the store before it finds the index full, and the log
  rolls only after a successful append. `Capacity.NeverSticksIff` says for exactly
  which limits this ever happens, `DefaultsStick` that the defaults are not among
  the safe ones, `Replay.StuckForever` and `Capacity.StoresBoundedIff` what follows
  (a store that grows without bound), and `Capacity.LargeFramesNeverFail` which
  records keep any limits safe: for the defaults, those of three bytes or more
  (`DefaultsTakeLargeRecords`). The theorems about snapshots, Raft's log store and
  the in-memory log hold for all limits and say what a failed append does to them.
* `snapshot.Persist` copies with `io.Copy`. A reader made by `Log.Reader` embeds the
  store, and the store its `*os.File` (internal/log/log.go:24-27,
  internal/log/store.go:17-22), so it also has the file's `WriteTo` (Go 1.22 on;
  go.mod:3 asks for 1.25), and that is what `io.Copy` and the multi-reader call:
  `originReader.Read` never runs, nothing is flushed, and the copy starts where the
  descriptor stands, which is the end of the file after any write
  (internal/log/segment.go:34). `Snapshots.Persist` is this copy: it is whole exactly
  when every buffer is empty and every descriptor unmoved, and empty for a log whose
  files are new. `Snapshots.PersistRepaired` and the theorems about interleaved reads
  are about the copy that is meant, by reads of the reader, which is also how the
  log's own test reads it (`io.ReadAll`, internal/log/log_test.go:100). The packages
  `io` and `os` are not part of this model; this rests on what they are documented
  to do.
* `Log.Reset` removes the directory and then lists it, which fails, so restoring
  anything but an empty snapshot fails (`StateMachine.Fsm.Restore` with
  `repaired` false). It also never clears the old segments. The theorems about
  restored logs use `CommitLog.Log.ResetRepaired`: an empty directory, no
  segments, then the usual setup.
* A reader that is copied while records are appended picks up every record that
  comes before its last read and fits the stores it was given: it delivers what they
  hold at that read (`Snapshots.DeliveredIsOneMoment`), and a replica that then
  applies the commands since the snapshot has those records twice
  (`StateMachine.LateRecordsAreAppliedTwice`, `LateRecordInput`).
* A restore stops at the first append that is refused, with that record's frame in
  the store (`StreamParser.TornRestoreStopsEarly`).
* `DeleteRange` ignores its lower end (`RaftStore.DeleteRangeIff`,
  `RaftStore.SuffixDeleteTakesEverything`), and truncation can take the active
  segment away (`FlatLog.TruncationEmptiesIff`).
* An index that was not closed misleads recovery (`Indexes.UnclosedIndexIff`).
* A frame header of 2^63 or more turns into a negative count, of which nothing is
  copied without an error; `StreamParser.PayloadSize` keeps that.

## Interleavings

Operations of the log hold its lock and are single steps. Snapshot reads hold only
the store's lock; `Snapshots.FineEvent` splits an append at its store write and
lets reads fall in between. Streams are machines whose events come in any order; an
append and its answer, and a consumer's read and its message, are events of their own,
so answers of different streams can cross (`Streams.AnswersCanCross`).
The two clients of the network, authorisation included, appear only as events: a
request arrives, an answer gets through or not, a stream ends.

## Model

| member | source | states |
|---|---|---|
| Bytes.GetPutUint | internal/log/store.go:10-14 | Reading a fixed-width big-endian integer back gives the written value if and only if it fits the width (so narrowing an offset to 32 bits loses nothing exactly below 2^32) |
| Bytes.PutGetUint | internal/log/store.go:10-14 | Every byte string of a given width is the encoding of the number it decodes to |
| RecordCodec.GetPutVarint | api/v1/log.proto:8-13 | Every 64-bit value survives the varint encoding, in at most ten bytes, whatever follows it |
| RecordCodec.UnmarshalMarshal | api/v1/log.proto:8-13 | Every record decodes to itself from the bytes it is encoded to, zero fields included |
| RecordCodec.MarshalInjective | api/v1/log.proto:8-13 | Different records have different encodings |
| RecordCodec.MarshalLength | api/v1/log.proto:8-13 | An encoded record is shorter than 2^63 bytes; how short it can be depends on its offset alone |
| RecordCodec.UnmarshalMarshalRequest | api/v1/log.proto:26-28 | A produce request, with or without a record, decodes to what was encoded |
| Formats.BigEndian | internal/log/store.go:10-14 | A byte string stands for its first byte, weighted by the number of the others, and what these stand for |
| Formats.IntegerInstances | internal/log/store.go:10-14 | 258 in four bytes is 0, 0, 1, 2 |
| Formats.VarintInstances | api/v1/log.proto:8-13 | 1, 127 and 300 as varints |
| Formats.RecordBytes | api/v1/log.proto:8-13 | A record is field 1 (tag 10), the value, then fields 2, 3 and 4 (tags 16, 24, 32): offset, term and type |
| Formats.RecordInstance | api/v1/log.proto:8-13 | The bytes of one record |
| Formats.NumberFields | api/v1/log.proto:8-13 | Decoding: a number field sets offset, term or type (32 bits wide), any other is passed over |
| Formats.BytesFields | api/v1/log.proto:8-13 | Decoding: bytes under field 1 set the value, the last ones win; under any other they are passed over |
| Formats.OtherFields | api/v1/log.proto:8-13 | Decoding: fixed-width fields are passed over when whole; group markers, unknown wire types and field 0 are errors |
| Formats.FieldNumberTooLarge | api/v1/log.proto:8-13 | Decoding: field numbers beyond 29 bits are errors |
| Formats.RecordFieldsMerge | api/v1/log.proto:26-28 | Decoding: a record field of a request is merged into the ones before it |
| Formats.LongVarints | api/v1/log.proto:8-13 | Decoding: varints may be longer than they need be, up to ten bytes and 64 bits |
| Formats.CommandBytes | internal/log/distributed.go:123-138 | A command is the type byte 0 and a request with the record |
| Formats.FrameBytes | internal/log/store.go:40-65 | A frame is an 8-byte length and the record's encoding |
| Formats.EntryBytes | internal/log/index.go:110-120 | An index entry is 4 bytes of relative offset and 8 bytes of position |
| Formats.DefaultBytes | internal/log/log.go:38-43 | Limits left at zero are 1024 bytes |
| Formats.NegativeLength | internal/log/distributed.go:282-285 | A length of 2^63 or more reads as an empty record and no error |
| Files.Directory.ReadDir | internal/log/log.go:171-174 | Listing names every file once, in some order, and fails exactly when there is no directory |
| Stores.Store.constructor | internal/log/store.go:24-36 | A store opened on a file holds what the file holds |
| Stores.Store.Spill | internal/log/store.go:46-64 | The write buffer may push any prefix to the file; file followed by buffer does not change |
| Stores.Store.Append | internal/log/store.go:40-65 | Adds exactly one frame (8-byte length, payload) at the end, reports the position it starts at, and touches no other file, wherever the buffer spills |
| Stores.Store.Read | internal/log/store.go:68-96 | Returns the payload of the frame at a position, or fails when the file does not hold all of it; the content is unchanged, and with nothing to flush so is the descriptor |
| Stores.Store.ReadAt | internal/log/store.go:100-108 | Returns the bytes from an offset, as many as asked for and available, and reports the end exactly on a short read; with nothing to flush the descriptor stays |
| Stores.Store.WriteTo | internal/log/store.go:17-22 | The copying method the store inherits from its file: it yields what the file holds beyond the descriptor, buffered bytes excluded, and leaves the descriptor at the end |
| Stores.Store.Close | internal/log/store.go:111-119 | Leaves the whole logical content in the file |
| Stores.FrameAtRecord | internal/log/store.go:68-96 | At the position where record k starts, a store of records holds a frame that decodes to record k |
| Stores.FrameAtIff | internal/log/store.go:68-96 | A payload is read at a position exactly when its 8-byte length stands there and it follows, whole |
| Indexes.Index.constructor | internal/log/index.go:32-61 | File and map are the old file grown with zeros, or cut off, to the configured size; the map holds the file's entries exactly when the file is not larger |
| Indexes.Index.Read | internal/log/index.go:82-108 | Reads entry k, or the last one for -1, after narrowing to 32 bits; end of file when the entry is not there |
| Indexes.Index.Write | internal/log/index.go:110-120 | Adds one (offset, position) entry, or fails changing nothing, exactly when the map has no 12 bytes left |
| Indexes.Index.Close | internal/log/index.go:64-79 | Leaves the entries in the file without padding |
| Indexes.Index.Abandon | internal/log/index.go:41-59 | Without a close the map reaches its file with the padding |
| Indexes.EntryAt | internal/log/index.go:82-108 | Entry k of the index of a sequence of records is (k, total length of the first k frames); beyond the last there is none |
| Indexes.LastEntry | internal/log/segment.go:57-66 | The last entry of an index tells how many records its segment has |
| Indexes.EntryNumbersWrap | internal/log/index.go:88-94 | Entry numbers 2^32 apart read the same entry |
| Indexes.UnclosedIndexIff | internal/log/index.go:41-48 | From an index file that still has its padding, the recovered record count is right if and only if the index was full or had exactly one entry; an empty one counts as one |
| Indexes.AbandonAndReopen | internal/log/index.go:41-48 | An index that is filled, abandoned and opened again counts right if and only if it was full or had exactly one entry |
| Segments.Segment.Open | internal/log/segment.go:25-68 | Opening the files a clean close left gives back the same segment, next offset included; missing files give an empty one |
| Segments.Segment.Append | internal/log/segment.go:70-91 | Assigns the next offset and adds the frame and its index entry; when the index is full it fails and the frame stays in the store without an entry |
| Segments.Segment.Read | internal/log/segment.go:93-108 | Returns the record at an offset through index and store, for exactly the offsets below the next one |
| Segments.Segment.IsMaxed | internal/log/segment.go:110-113 | True exactly when the store or the index has reached its limit |
| Segments.Segment.Close | internal/log/segment.go:128-136 | Leaves in the two files exactly the segment's store and index bytes |
| Segments.Segment.Remove | internal/log/segment.go:115-126 | Both files are gone and no other file is touched |
| Segments.IndexAndStoreAgree | internal/log/segment.go:70-108 | Index entry k is (k, start of frame k), the frame there decodes to the record with offset base+k, and the index has one entry per record |
| Layout.FreshOk | internal/log/log.go:219-228 | A log of one empty segment satisfies the invariant |
| Layout.AppendKeepsLayout | internal/log/log.go:53-67 | Every append, successful or not, keeps the invariant of all reachable logs, the lowest offset, and advances the next offset by one exactly when it succeeds |
| Layout.AppendRecords | internal/log/log.go:53-67 | A successful append adds the record, renumbered, at the end of what is readable; a failed one changes nothing readable |
| Layout.AppendWritten | internal/log/segment.go:78-91 | Either way exactly one more frame is in the stores |
| Layout.UniqueLocation | internal/log/log.go:69-86 | Each offset from the lowest up to the next lies in exactly one segment and no other offset in any, so the first match of a lookup is the only one |
| Layout.BasesIncrease | internal/log/log.go:53-67 | Bases strictly increase and only the active segment can be empty |
| Layout.RecordsCarryOffsets | internal/log/segment.go:70-72 | The readable records carry consecutive offsets from the lowest on, as many as next minus lowest |
| Replay.BuildOk | internal/log/log.go:53-67 | Every log built by appends satisfies the invariant |
| Replay.Canonical | internal/log/log.go:53-67 | Every log that satisfies the invariant is the one obtained by appending its frames in order to an empty log at its lowest offset: boundaries and bytes are a function of limits, first base and frames |
| Replay.SameFramesSameLayout | internal/log/log.go:53-67 | Two logs with the same limits, lowest offset and frames have the same segments |
| Replay.SuffixCanonical | internal/log/log.go:133-153 | Dropping a prefix of whole segments and replaying the rest from the new base reproduces the remaining layout |
| Replay.AppendAllRecords | internal/log/log.go:53-67 | As long as no append has failed, what is readable is what was appended, with consecutive offsets |
| Replay.AppendAllRenumber | internal/log/segment.go:70-72 | The offset a record carries when it is appended does not matter |
| Replay.RenumberAt | internal/log/segment.go:70-72 | The k-th record appended gets offset base+k and keeps everything else |
| Replay.StuckForever | internal/log/segment.go:78-88 | Once an append has failed every later one fails, what is readable never changes again, and each leaves one more un-indexed frame |
| Capacity.AppendNeverFails | internal/log/log.go:53-67 | Under limits that never stick, the active segment of every reachable log has room for an index entry and no store holds an un-indexed frame |
| Capacity.LargeFramesNeverFail | internal/log/segment.go:70-113 | Whatever the limits, when f bytes a frame fill the store before the index, no append of records whose frames have at least f bytes ever fails, over every sequence of them |
| Capacity.NeverSticksLater | internal/log/log.go:219-228 | Limits that never stick from one base do not from a later one either |
| Capacity.BoundedSegments | internal/log/segment.go:110-113 | Every reachable segment has at most as many entries as the index has slots and, unless active, has reached one of the two limits; while no append to it has failed, its store is overshot by less than one frame |
| Capacity.EmptyRecordsStick | internal/log/segment.go:78-88 | For any other limits, one more empty record than there are index slots leaves an un-indexed frame behind |
| Capacity.NeverSticksIff | internal/log/segment.go:70-113 | No sequence of appends to a new log fails if and only if the index size is a whole number of entries or the slots cannot be used up before the store is full |
| Capacity.StoresBoundedIff | internal/log/segment.go:110-113 | Over every sequence of appends to a new log each store stays within one frame of its limit if and only if the limits never stick |
| Capacity.DefaultsStick | internal/log/log.go:38-43 | The default limits do not meet that condition: 86 empty records get a default log stuck |
| Capacity.DefaultStoreGrows | internal/log/segment.go:78-88 | Under the default limits 86 empty records and n more make a reachable log whose active store has more than 8n bytes |
| Capacity.DefaultsTakeLargeRecords | internal/log/log.go:38-43 | Under the default limits no append of records with values of at least three bytes ever fails |
| FileNames.ParseDecimal | internal/log/log.go:178-183 | A base offset printed in decimal is parsed back |
| FileNames.BaseOfNames | internal/log/log.go:177-185 | The base offset is recovered from either file name of a segment |
| FileNames.NamesSpelledOut | internal/log/segment.go:31-46 | The names are the decimal digits of the base followed by ".store" and ".index" |
| FileNames.NameInstances | internal/log/segment.go:31-46 | "0.store" and "16.index" |
| FileNames.StrayNumbers | internal/log/log.go:178-184 | A name that does not start with a number counts as base 0, one with a number of 2^64 or more as the largest base |
| FileNames.NamesDistinct | internal/log/segment.go:35-48 | Segments with different bases never share a file, nor do store and index |
| FileNames.SortSorts | internal/log/log.go:192-194 | Sorting gives an ascending permutation |
| FileNames.EvenPositions | internal/log/log.go:196-205 | In a sorted list where each base occurs exactly twice, the even positions hold the bases, each once and ascending |
| FileNames.ListingRecoversBases | internal/log/log.go:171-205 | However the directory is listed, the sorted base offsets name the segments at the even positions |
| CommitLog.Log.constructor | internal/log/log.go:37-48 | Zero limits become 1024 bytes; the log starts without segments |
| CommitLog.Log.Setup | internal/log/log.go:170-217 | On a directory left by a clean close: the same segments in the same order, the last one active; on an empty one: one empty segment; without a directory: an error |
| CommitLog.Log.NewSegment | internal/log/log.go:219-228 | Adds one segment at the end and makes it active; the others and their files are as before |
| CommitLog.Log.Append | internal/log/log.go:53-67 | The log becomes `LogAppend` of itself, byte for byte in all files, and the offset is returned exactly when the index had room |
| CommitLog.Log.Read | internal/log/log.go:69-86 | Returns what the flat sequence of records holds at the offset, nothing exactly when it is out of range, changes nothing, and moves no descriptor of a log without buffered bytes |
| CommitLog.Log.ReadStore | internal/log/log.go:31-35 | One raw read of a segment's store |
| CommitLog.Log.Close | internal/log/log.go:88-99 | The directory holds exactly the segments' files with exactly their content |
| CommitLog.Log.LowestOffset | internal/log/log.go:115-120 | The base of the first segment |
| CommitLog.Log.HighestOffset | internal/log/log.go:122-131 | One below the next offset, 0 for a log that starts at 0 and is empty |
| CommitLog.Log.Truncate | internal/log/log.go:133-153 | Keeps exactly the segments that reach beyond lowest+1 (in 64 bits) and their files; the log stays valid when something is left and has no segment otherwise |
| CommitLog.Log.Reset | internal/log/log.go:101-113 | As the source has it: it always fails and leaves no file, no directory and the old closed segments |
| CommitLog.Log.ResetRepaired | internal/log/log.go:108-113 | As intended: one empty segment at the initial offset |
| Recovery.NewLog | internal/log/log.go:37-51 | Opening a directory gives the log that was closed in it, or a new one |
| Recovery.CloseAndReopen | internal/log/log.go:88-99 | Closing and reopening with the same configuration gives the same segments, contents, next offsets and active segment, in a log of its own objects |
| Recovery.RunOps | internal/log/log.go:53-217 | Any run of operations on the log and its files, closing and reopening included, gives the answers and the final segments of the run of its value, and so of the simple machine |
| Recovery.FramesInjective | internal/log/store.go:40-65 | The bytes of a store determine its records |
| Recovery.FilesDetermineLog | internal/log/log.go:170-217 | Two logs that leave the same files behind are the same log: recovery has only one possible answer |
| Recovery.SameLogSameFiles | internal/log/log.go:88-99 | Equal logs leave equal directories |
| FlatLog.LookupIsFlatRead | internal/log/log.go:69-86 | Looking an offset up segment by segment finds what the flat sequence holds there, nothing exactly when it is out of range |
| FlatLog.KeptSuffix | internal/log/log.go:137-151 | What truncation keeps is a suffix of the segments, and which one |
| FlatLog.TruncationEmptiesIff | internal/log/log.go:137-151 | Truncation removes every segment, the active one included, exactly when nothing reaches beyond lowest+1 |
| FlatLog.TruncationKeepsLayout | internal/log/log.go:133-153 | Otherwise it keeps the invariant and the active segment, drops a prefix of the records and nothing else, and if it drops anything the new lowest offset is at most lowest+1 |
| FlatLog.TruncationKeepsReads | internal/log/log.go:133-153 | Every offset above `lowest` reads the same before and after |
| FlatLog.TruncationCanEmptyALog | internal/log/log.go:137-151 | Concrete case: truncating a one-record log at 0 leaves no segment |
| FlatLog.StepRefines | internal/log/log.go:53-153 | Each operation of the segmented log is a step of a sequence with a moving lower bound; an append can fail only under limits that stick |
| FlatLog.RunRefines | internal/log/log.go:53-153 | Over every run of appends, reads, truncations and reopenings the value of the log gives the answers of that simple machine |
| FlatLog.RunGoesOn | internal/log/log.go:53-153 | A run can be carried on by any operation; an append needs an offset below 2^64-1, a truncation something beyond lowest+1 |
| MemoryLog.Log.Append | internal/server/log.go:24-31 | Appends the entry under the next index |
| MemoryLog.Log.Read | internal/server/log.go:33-41 | Returns the entry, or not-found exactly from the length on |
| MemoryLog.RunMemory | internal/server/log.go:24-41 | A run of appends and reads on the in-memory log is `MemoryRun` |
| MemoryLog.SegmentedAgreesWithMemory | internal/server/log.go:24-41 | From offset 0 and without truncation, under any limits, the segmented log and the in-memory log give the same answer to every operation of every run up to the first append that fails |
| MemoryLog.AgreementIff | internal/server/log.go:24-41 | The two give the same answers over a whole run if and only if appending the run's records to a new log leaves no frame without an index entry |
| MemoryLog.AlwaysAgreeIff | internal/server/log.go:24-41 | They do over all runs exactly under the limits that never stick |
| MemoryLog.LargeRecordsAgree | internal/server/log.go:24-41 | They do under any limits when the frames are large enough to fill the store before the index |
| StreamParser.CleanIff | internal/log/distributed.go:273-309 | A stream is read to its end without a problem if and only if it is a whole number of frames with decodable payloads |
| StreamParser.ParseFrames | internal/log/distributed.go:273-309 | A stream of frames is read back as exactly its records |
| StreamParser.StopsAtTheFirstProblem | internal/log/distributed.go:273-309 | Nothing behind a payload that does not decode is looked at, nor behind a tear |
| StreamParser.RestoreIsBuild | internal/log/distributed.go:273-309 | Restoring a stream with a frame builds, from the first record's offset, the log of the complete frames before the first problem up to and including the first whose append is refused, and succeeds exactly when the stream is clean and none is refused; without a frame it changes nothing |
| StreamParser.RestoreIsParser | internal/log/distributed.go:273-309 | Restoring succeeds exactly on a whole number of decodable frames of which no append fails; on a torn stream all complete frames before the tear are in the log if and only if no append but perhaps the last is refused |
| StreamParser.AllAbsorbedIff | internal/log/distributed.go:302-305 | All records reach the stores if and only if none but perhaps the last is refused |
| StreamParser.TornRestoreStopsEarly | internal/log/distributed.go:273-309 | Concrete case: under the default limits a torn stream of more than 86 empty records leaves 86 frames |
| StreamParser.RestoreOfFrames | internal/log/distributed.go:273-309 | Frames copied from wherever restore to their records under consecutive offsets from that of the first, which are those they carried exactly when none is missing in between |
| StreamParser.ReplayAlwaysFits | internal/log/distributed.go:302-305 | No append fails in a restore under limits that never stick, or with frames large enough to fill the store before the index |
| StateMachine.DecodeEncode | internal/log/distributed.go:123-138 | Every node decodes the command the leader encoded |
| StateMachine.EncodedCommandsAppend | internal/log/distributed.go:225-231 | Applying the commands a leader encoded appends its records, and each is answered with its offset as long as no append fails |
| StateMachine.ApplyAllConcat | internal/log/distributed.go:262-270 | Applying two batches one after the other is applying their concatenation, responses included |
| StateMachine.ApplyAnswers | internal/log/distributed.go:311-322 | An offset is answered exactly when the record is now readable there; a refused append is answered with an error |
| StateMachine.ApplyAnswersBytes | internal/log/distributed.go:262-322 | From the bytes: no bytes and a request without a record panic, a first byte other than 0 is ignored, a request that does not decode is an error, and none changes the log |
| StateMachine.ApplyInstances | internal/log/distributed.go:262-322 | Concrete commands for each of these |
| StateMachine.RunAnswers | internal/log/distributed.go:262-322 | Over a whole run the offsets answered increase, each still holds the record of its command at the end, and there is one for every record added |
| StateMachine.ApplyAllKeepsLayout | internal/log/distributed.go:262-270 | Every command sequence, malformed commands included, keeps the log invariant |
| StateMachine.SnapshotRestoresIff | internal/log/distributed.go:273-344 | Restoring a snapshot into any log reproduces the source exactly if no failed append had left a frame in it, and reports an error otherwise |
| StateMachine.SnapshotCarriesOffsets | internal/log/distributed.go:292-304 | The offsets a snapshot's records carry are the ones the restore assigns |
| StateMachine.ReplicaEquivalence | internal/log/distributed.go:262-344 | Restoring the snapshot of a prefix of the commands succeeds if and only if no append among them had failed, and applying the rest then gives the same segments and the same responses as applying all |
| StateMachine.ConcurrentSnapshotRestores | internal/log/distributed.go:273-344 | Restoring what a reader delivered while records were appended (anything at all) succeeds if and only if at its last read no append to the last of its stores had failed, and then gives the log the source would be had it stopped after those frames |
| StateMachine.LateRecordsAreAppliedTwice | internal/log/distributed.go:331-344 | A replica that restores what the reader delivered and then applies what was committed since the reader was made ends like the source if and only if nothing was appended before the reader's last read; every frame picked up beyond those is written twice |
| StateMachine.LateRecordInput | internal/log/log.go:157-167 | Concrete case: one append and then the only read, on a new log; the replica ends with two frames where the source has one |
| StateMachine.EmptySnapshotIff | internal/log/distributed.go:292-300 | An empty snapshot leaves the target as it is, so the replica agrees with the source if and only if it was a new log with the same first offset |
| StateMachine.Fsm.Apply | internal/log/distributed.go:262-322 | Dispatch on the first byte, decode, append; errors, ignored commands and the two panics as in the source |
| StateMachine.Fsm.Restore | internal/log/distributed.go:273-309 | With the intended reset the log becomes `RestoreRun` of the stream; with the reset as written, restoring succeeds if and only if the stream is empty |
| StateMachine.TransferSnapshot | internal/log/distributed.go:331-344 | With the intended copy and the intended reset, streaming one node's log into another's makes the two equal, and succeeds exactly when the source holds no un-indexed frame |
| StateMachine.TransferAsWritten | internal/log/distributed.go:273-344 | As the source has both: from a log made since it was opened nothing is copied or restored, no error is reported and the target keeps what it had |
| Snapshots.Persist | internal/log/distributed.go:336-344 | As the source has it: the sink gets the frames each store held when it was opened, as long as its descriptor has not moved; the whole log if and only if every store has an empty buffer and an unmoved descriptor, and nothing at all from a log whose files were created since it was opened |
| Snapshots.ReopenReadAndPersist | internal/log/distributed.go:336-344 | After a clean reopening the first snapshot holds the whole log, also when records were read in between |
| Snapshots.PersistRepaired | internal/log/distributed.go:336-344 | As intended: with no append in between, the sink gets the stores of all segments in order, for any read size |
| Snapshots.ReopenAndPersist | internal/log/distributed.go:336-344 | The first snapshot after a clean reopening holds the whole log |
| Snapshots.AppendAndPersist | internal/log/distributed.go:336-344 | A snapshot of a new log is empty, whatever was appended to it |
| Snapshots.WholeIff | internal/log/distributed.go:336-344 | Parts of the stores make up the whole stream only if each of them is a whole store |
| Snapshots.CopyStopsAtWrite | internal/log/distributed.go:336-344 | When the log is written to while a store's file copies itself, the copy yields what it read before the first write and nothing after it |
| Snapshots.GetsTakeAll | internal/log/distributed.go:336-344 | Without a write the copy goes on to the end of the file |
| Snapshots.EmptyWrite | internal/log/distributed.go:336-344 | Only a write that writes something stops it |
| Snapshots.TornCopyIff | internal/log/distributed.go:336-344 | Such a copy is a whole number of frames if and only if a frame ends where that write cut it off |
| Snapshots.CopyCanTear | internal/log/distributed.go:336-344 | Concrete case: a frame longer than one read, and a write after that read |
| Snapshots.OriginReader.Read | internal/log/log.go:31-35 | Returns the next bytes of the store and advances by as many |
| Snapshots.RunReader | internal/log/log.go:157-167 | Any sequence of reads of the readers and appends to the log and its files is a run of `Interleave` |
| Snapshots.PullsTakeStores | internal/log/log.go:157-167 | Reads longer than any store take one store each, in order: k of them deliver the first k stores |
| Snapshots.ReaderFinishes | internal/log/log.go:157-167 | Whatever is appended in between, a reader has reached its end after as many reads as its stores have bytes and one more for each store |
| Snapshots.DeliveredIsOneMoment | internal/log/log.go:157-167 | A finished reader has delivered exactly what the stores it was given held at its last read |
| Snapshots.SnapshotUnderAppends | internal/log/log.go:157-167 | Under any limits, in every interleaving of reads of any size with appends and rolls, a finished reader has delivered whole frames of one contiguous run from the first frame on, with every frame that was there at its start and, exactly when something was appended before its last read, later ones, ending between two frames; all of them are indexed records exactly when at the last read no append to the last of its stores had failed |
| Snapshots.SnapshotOfRecords | internal/log/log.go:157-167 | As long as no append has failed, under any limits, the run is one of the log's records |
| Snapshots.LargeRecordsAreIndexed | internal/log/log.go:157-167 | No append has failed in any log that was filled with large enough frames, nor does one while a reader is at work if the frames appended then are as large |
| Snapshots.FineStepsAreSteps | internal/log/store.go:100-108 | A read that falls between the store write of an append and the rest of it sees what it would see if appends were atomic, whether the append then succeeds or not |
| Snapshots.RunsAreFineRuns | internal/log/store.go:100-108 | Every run with atomic appends is a run with split ones |
| Snapshots.ReadInsideAppend | internal/log/store.go:100-108 | A read can fall inside an append, and then sees its frame |
| Snapshots.SnapshotUnderSplitAppends | internal/log/log.go:31-35 | All that `SnapshotUnderAppends` guarantees, the moment and its conditions included, with reads falling inside appends too |
| RaftStore.LogStore.FirstIndex | internal/log/distributed.go:363-365 | The lowest offset |
| RaftStore.LogStore.LastIndex | internal/log/distributed.go:367-370 | The highest offset |
| RaftStore.LogStore.GetLog | internal/log/distributed.go:372-383 | Fills the caller's entry from the record at the index, or leaves it alone and fails |
| RaftStore.LogStore.StoreLogs | internal/log/distributed.go:385-400 | Appends the entries in order, up to the first failure |
| RaftStore.LogStore.DeleteRange | internal/log/distributed.go:402-404 | Truncates at the upper end; the lower end plays no part |
| RaftStore.LogStoreContract | internal/log/distributed.go:363-404 | Under any limits and over any run of consecutive batches and prefix deletes: last index is the number of entries ever stored (0 at first), every index from first to last reads back the entry stored under it, no other reads anything, and nothing above the highest deleted index is lost |
| RaftStore.StoreAllIff | internal/log/distributed.go:385-400 | A batch is acknowledged if and only if all of it was stored |
| RaftStore.StoreAllAppends | internal/log/distributed.go:385-400 | A batch appends its entries up to and including the first that is refused |
| RaftStore.StoreRunGoesOn | internal/log/distributed.go:385-404 | A run can be carried on by a batch that follows the last index and by a delete that something reaches beyond, and by nothing else |
| RaftStore.NothingRefused | internal/log/distributed.go:385-400 | Over every run all that Raft submitted is stored, in order, under limits that never stick or with frames large enough to fill the store before the index |
| RaftStore.NothingRefusedIff | internal/log/distributed.go:385-400 | Over all runs everything Raft submits is stored exactly under the limits that never stick from the first index on |
| RaftStore.DeleteRangeIff | internal/log/distributed.go:402-404 | A delete takes exactly the entries it names if and only if there is none to take; or the first segment reaches beyond the range and no entry is named; or the range starts at or before the first entry and ends at or after the last or just before a segment |
| RaftStore.SuffixDeleteTakesEverything | internal/log/distributed.go:402-404 | Deleting up to the last index takes the whole log away, wherever the range starts |
| Streams.ConsumeStream | internal/server/server.go:181-206 | With nobody appending, the consumer is sent the records from its offset on, one per round and in order, and waits exactly when there is none where it stands |
| Streams.ProduceStream | internal/server/server.go:160-176 | Every request is appended and answered with consecutive offsets until one append fails; that one is the last to reach the log |
| Streams.AcknowledgedRecordsLast | internal/server/server.go:125-176 | In every interleaving of producers and consumers, also with other appends and answers between an append and its own answer, acknowledged offsets are pairwise distinct, increase along each stream, and reading one returns the record produced under it |
| Streams.AnswersCanCross | internal/server/server.go:160-176 | Across streams the order can turn round: of two producers that append one after the other the second can be answered first |
| Streams.AnswersCrossInANewLog | internal/server/server.go:160-176 | Concrete case: the answers sent are 1 and then 0 |
| Streams.AcksOnlyGrow | internal/server/server.go:160-176 | Acknowledgements are never taken back |
| Streams.RequestIsAnswered | internal/server/server.go:160-176 | A request on a live stream is appended and answered with its offset, or, when the log refuses it, ends the stream unanswered |
| Streams.LostAnswerEnds | internal/server/server.go:171-174 | An answer that does not get through ends the stream; the record stays |
| Streams.EndedForGood | internal/server/server.go:160-176 | A producer whose stream has ended is never answered again |
| Streams.ConsumersNeitherSkipNorRepeat | internal/server/server.go:181-206 | In every interleaving, what a consumer has been sent is the contiguous run of records from the offset it asked for to the one before where it stands, each once; below the lowest offset it is sent nothing |
| Streams.PollSends | internal/server/server.go:187-203 | A live consumer at a readable offset is sent exactly the record there and stands one further |
| Streams.PollWaits | internal/server/server.go:190-193 | One that stands out of range waits, unchanged |
| Streams.LostMessageEnds | internal/server/server.go:199-202 | A message that does not get through ends the stream |
| Streams.OneAtATime | internal/server/server.go:181-206 | The next record is read only when the one before it has been sent |
| Streams.DoneForGood | internal/server/server.go:181-206 | A consumer that is done is sent nothing more |
| Streams.ComingAndGoing | internal/server/server.go:181-206 | Leaving ends a stream, and subscribing starts one at the offset asked for |
| Pickers.ContainsMeans | internal/loadbalance/picker.go:47-50 | The substring test finds an occurrence exactly when there is one |
| Pickers.Picker.Build | internal/loadbalance/picker.go:25-39 | The followers are the ready non-leaders, each once; a ready leader is installed, otherwise the old one stays; the counter goes on |
| Pickers.Picker.Pick | internal/loadbalance/picker.go:43-58 | Produce calls, and all calls without followers, go to the leader; consume calls to the next follower; others get none |
| Pickers.Picker.NextFollower | internal/loadbalance/picker.go:62-67 | Advances the counter by one, wrapping at 2^64, and picks the follower at its remainder |
| Pickers.ConsumePicks | internal/loadbalance/picker.go:62-67 | A run of consume calls gets the sequence the fairness result is about |
| Pickers.RoundRobinIsFair | internal/loadbalance/picker.go:62-67 | Over any window of consecutive consume picks two followers are picked equally often or one time apart, wherever the counter stood; over as many picks as followers, each once |

## Left out

- CommitLog.Log.Append: asks for a next offset below 2^64 - 1; the wrap-around of the 64-bit offset is not modelled. The same bound is asked of runs, streams and restores.
- Segments.Segment.Append: asks that a store with index room left is below its limit, as the log, its only caller, ensures.
- Segments.Segment.Open: asks for the files a clean close left under limits that fit them; see `CommitLog.Log.Setup`.
- Recovery.NewLog: asks for what `CommitLog.Log.Setup` asks for.
- StateMachine.Fsm.Restore: asks that the first offset of a stream and its length together stay below 2^64, so that no offset wraps around.
- CommitLog.Log.Setup: asks for a directory that is empty or was left by a clean close with the same limits; stray files and changed limits are not modelled.
- CommitLog.Log.Close: a log can still be used after it in the model; in the source its files are closed.
- Streams.ConsumeStream: bounds the polling by a number of rounds, since the source's loop ends only with the stream's context.
- RecordCodec.UnmarshalMarshal: fields the schema does not know are dropped when decoding, where the Go library would keep and re-encode them; the deprecated group wire types are rejected.
- RecordCodec.MarshalLength: rests on record values being shorter than 2^62 bytes, as any Go slice is.
- Indexes.EntryAt: rests on indexes of at most 2^32 entries (`Limits.Valid`); `EntryNumbersWrap` shows why.
- Stores.Store.Read: a length header too large to allocate makes the source panic; the model reports a short file.
- Pickers.RoundRobinIsFair: not over a window in which the 64-bit counter wraps.
- Snapshots.Persist: its copies are taken with no append in between; what one store's copy yields otherwise is `Snapshots.CopyStopsAtWrite`, apart from the log.
- I/O errors, full disks and crashes without a close: files are total, and the code has no recovery for them.
- The Raft algorithm, its transport, stable store and snapshot store: the committed order of commands is taken as given.
- Join, Leave, GetServers, WaitForLeader and the stream layer: their outcomes are those of libraries, sockets and timers.
- Truncating or resetting a log while a snapshot reader is at work.
- Store sizes and positions are unbounded numbers; real files stay far below 2^63 bytes.
- The resolver, membership, agent, HTTP server, authorisation, TLS and configuration: plumbing around libraries.
- `nearestMultiple`: not used by the code.
