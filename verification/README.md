# A verified model of a Kafka-style broker written in Go

The broker keeps each partition as a list of segments. A segment is a file of
length-prefixed records plus a sparse index from offsets to byte positions. Appends, rolls,
indexed reads, zero-copy fetches, restart recovery, retention and key compaction all act on
that structure. Around it sit a Raft voting node, a transaction coordinator, a group
coordinator, replica tracking and a wire codec.

This project models those parts in Dafny 4.11 and proves that they do what they are for. Run
`dafny verify dfyconfig.toml` to check all of it.

## How it is organised

| files | what they hold |
|---|---|
| `bytes`, `seqs`, `file` | big-endian integers and Go's integer conversions, sequence facts, a file with a cursor |
| `record`, `stream` | the record format, streams of records, cut streams, the offset filter |
| `index`, `segment_model`, `segment` | the sparse index, its relation to the log bytes, the segment class |
| `log_model`, `log_ops`, `log_runs` | a partition as a value, its operations, and whole runs of them |
| `compaction` | key compaction on records and the key-value view |
| `fetch`, `client` | the zero-copy path as bytes, and a consumer that parses them |
| `recovery`, `restart`, `lifetimes` | what is on disk, what a reopened log can still read, and runs separated by restarts |
| `partition_log`, `executor`, `cleaner`, `produce` | the partition class, runs on it, retention, the produce loop |
| `kraft` | the voting node and elections in a cluster |
| `transaction`, `txn_runs`, `decimal` | the transaction coordinator, runs behind its handlers, rendered map keys |
| `group`, `replica`, `wire` | consumer groups, the high watermark, the request codec |

Each stateful part is a class whose methods are proved against functions or predicates on
plain values; what the source promises is then proved about those values, for every input and
every run. A method that changes files carries the file cursor explicitly: the log file is
opened without append mode, so an append lands at the end only because every read runs to the
end of the file, and `PartitionLog.Valid` keeps the active segment's cursor there.

## What the proofs say about the code

Several things one would like to be true hold only under a condition. Each has an exact
condition and, where useful, a concrete instance.

- Reopening a compacted log recomputes a segment's end by counting survivors, so a read that
  starts at or above base plus survivor count skips that segment (`Recovery.ReopenedRead`,
  `Recovery.ReopenedReadExactIff`, `Recovery.ReopenedCompactedLogHidesRecord`).
- Recovery does not cut off a torn tail, and appends go behind it. A record appended there is
  decoded at its own place if and only if there was no tail (`Recovery.ReadAtItsPlaceIff`). The
  readable records stay as they were exactly while the file is shorter than its next four
  bytes announce, and the next restart then hands the same offset out again
  (`Recovery.AppendLostIff`, `Recovery.LostAppendIsForgotten`). Past that length its bytes are
  swallowed by a record that the torn bytes frame and nobody wrote there, or by a corrupt one
  (`Recovery.DecodedPastTail`, `Recovery.AppendBehindTornTailReadsPhantom`).
- A segment size limit that is not positive makes a roll reuse the base of an empty segment
  (`LogOps.RollReusesBaseIff`, `LogOps.ZeroLimitReusesBase`).
- Segments must be compacted oldest first; the other order shows deleted values
  (`LogOps.NewestFirstShowsDeletedValue`).
- Time retention removes the oldest segments, as many as have expired, which are the expired
  ones exactly when no expired segment follows one that is not
  (`Cleaner.DropsExactlyExpiredIff`, `Cleaner.UnexpiredRemovedExpiredStays`).
- `BecomeFollower` in a term that is not higher lets a node vote twice, and one such call is
  enough for two leaders of one term (`Raft.FollowRegrantsIff`,
  `Raft.SameTermFollowElectsTwoLeaders`).
- Epochs are 16 bits wide: a fenced producer is accepted again after 65536 re-initialisations
  (`TxnRuns.FencedIff`, `TxnRuns.EpochWrapsAround`).
- The replication key is ambiguous for negative partition ids (`Decimal.PartitionKeyCollisionIff`,
  `Decimal.NegativePartitionCollides`).
- An offset of -1 acts as "nothing seen yet" in the watermark loop, so the watermark can rise
  above the in-sync minimum (`Replication.ScanIsMinimumIff`, `Replication.ReportedIsMinimumIff`,
  `Replication.WatermarkAboveInSyncMinimum`).
- No coordinator operation ends a rebalance, so a heartbeat never has an effect unless the
  group's state is set from outside (`Groups.HeartbeatsNeverCount`).
- The comment on `replaceContents` says `nextOffset` stays unchanged; it does until the next
  restart, which is the first point above.

## Model

| member | source | states |
|---|---|---|
| Records.RoundTripIff | internal/storage/record.go:25-155 | decoding an encoded record followed by any bytes returns the record with nil and empty fields kept apart, its exact length, and leaves the rest: if and only if its lengths fit the format |
| Records.RecordLayout | internal/storage/record.go:25-88 | which bytes of an encoded record hold size, offset, timestamp, key and value, in big-endian order, and that a nil field is four bytes 0xff |
| Records.RecordOnDisk | internal/storage/record.go:95-155 | what the reader makes of any bytes, said about the bytes alone: end of file, panic, corrupt record, or which bytes become which field |
| Records.DecodedFits | internal/storage/record.go:95-155 | the fields of every decoded record are shorter than 2^31 bytes and the record is no larger than the bytes consumed, which are fewer than 2^32 + 4 |
| Records.StrictPrefixEnds | internal/storage/record.go:95-126 | a record cut short at any byte makes the decoder report an end of file, a clean one exactly when the cut falls before or right behind the length prefix, with byte count 0 or 4 |
| Records.Marshal | internal/storage/record.go:25-88 | the buffer filled left to right is the encoding of the record |
| Records.ReadRecord | internal/storage/record.go:95-155 | outcome, byte count and reader position after one read: a record, a clean or unexpected end of file, a corrupt body or one out of range |
| Streams.ParseFront | internal/storage/cleaner.go:229-242 | whole records in front of any bytes are parsed one by one and the rest is parsed as if it stood alone |
| Streams.ParseWholeIff | internal/storage/cleaner.go:229-242 | records followed by some bytes parse to exactly those records if and only if the decoder runs into the end of those bytes |
| Streams.ParseWhole | internal/storage/cleaner.go:229-242 | whole records followed by a torn one parse to exactly the whole ones |
| Streams.ParseCut | internal/storage/cleaner.go:229-242 | a stream cut at any byte parses to exactly the records that lie before the cut |
| Streams.ParseRecordStream | internal/storage/cleaner.go:229-242 | the loop returns what the stream parser prescribes, or the error |
| Indexes.EntryLayout | internal/storage/index.go:50-62 | an entry is the 8-byte offset and then the 8-byte position, big-endian |
| Indexes.EntryOnDisk | internal/storage/index.go:95-96 | a lookup reads them from those bytes |
| Indexes.LookupIsLastBelow | internal/storage/index.go:70-113 | the position looked up is that of the last entry at or below the target, 0 if there is none |
| Indexes.Index.WriteEntry | internal/storage/index.go:50-62 | the decoded entries grow by exactly the entry written |
| Indexes.Index.Lookup | internal/storage/index.go:70-113 | the binary search over the file bytes returns the position of the last entry at or below the target, 0 if there is none |
| SegmentModel.LookupIsBoundary | internal/storage/segment.go:103-118 | a lookup of any offset yields a record boundary with nothing wanted before it |
| SegmentModel.LookupGap | internal/storage/segment.go:78-86 | a lookup of a stored offset yields a boundary at or before its record and less than the index interval away |
| SegmentModel.LookupNearBefore | internal/storage/segment.go:78-86 | a lookup of any offset, stored or not, starts less than the index interval before the last record at or below it |
| SegmentModel.IndexedScan | internal/storage/segment.go:103-136 | an indexed scan of a file whose records are followed by any bytes finds the records from a boundary below the target on and then what the decoder makes of those bytes |
| Segments.Segment.constructor | internal/storage/segment.go:30-63 | opening a segment from its files recovers records, count, size and a cursor at the end, also with a torn tail |
| Segments.Segment.RecoverState | internal/storage/segment.go:195-223 | the scan counts the whole records and their bytes and ends at the end of the file |
| Segments.Segment.Append | internal/storage/segment.go:70-97 | on a record boundary the segment grows by exactly the stamped record and its index keeps its density; behind a torn tail every scan finds the old records and then what the decoder makes of tail and record together, and every index entry still points at a boundary |
| Segments.Segment.Read | internal/storage/segment.go:103-136 | exactly the stored records at or above the start, nothing at or above the next offset, bytes untouched, cursor unmoved or at the end |
| Segments.Segment.ReadZeroCopy | internal/storage/segment.go:143-167 | the bytes from a boundary less than the index interval below every record up to the start, cut at the limit and never including a torn tail |
| Segments.Segment.ReplaceContents | internal/storage/segment.go:289-389 | the rewritten segment holds exactly the given records with a dense index and keeps its next offset |
| LogModel.FlattenIncreasing | internal/storage/partition_log.go:73-95 | the records of a well-formed log are in strictly increasing offset order across segments |
| LogModel.ReadAnywhere | internal/storage/partition_log.go:73-95 | the multi-segment read of any well-formed log: nothing below the base, everything from the start on if the segment that holds it extends beyond it, otherwise just the later segments |
| LogModel.KnownAnswer | internal/storage/partition_log.go:73-95 | nothing stored is missed from a segment on behind which all segments know their ends |
| LogModel.AnswerIsSuffix | internal/storage/partition_log.go:73-95 | what a read returns is a suffix of the stored records in strictly increasing order, none below the start |
| LogModel.ReadRefines | internal/storage/partition_log.go:73-95 | where every segment knows its end the multi-segment read equals the filter of the plain log, and is empty for a start below the base |
| LogOps.AppendKeepsWF | internal/storage/partition_log.go:55-67 | an append, rolling or not, keeps bases increasing, segment ends exact and the active segment gapless, and advances the log end by one |
| LogOps.AppendGrowsPlain | internal/storage/partition_log.go:55-67 | rolling or not, the plain log grows by exactly the record stamped with the old log end offset |
| LogOps.RollReusesBaseIff | internal/storage/partition_log.go:195-205 | a roll gets a base of its own if and only if the active segment is not empty, and an empty one counts as full if and only if the limit is not positive |
| LogOps.ZeroLimitReusesBase | internal/storage/partition_log.go:55-67 | with a limit of 0 the first append to an empty log opens a second segment with the same base |
| Compaction.CompactionKeepsView | internal/storage/cleaner.go:194-226 | filtering any older part of a log against the latest offsets of the whole leaves the key-value view unchanged |
| Compaction.KeptSize | internal/storage/partition_log.go:355-366 | the size of a segment changes if and only if compaction removed a record |
| Compaction.KeepIffSurviving | internal/storage/cleaner.go:202-219 | the map lookup of the filter keeps a record if and only if it has no key, or has a value and is the newest of its key |
| Compaction.SurvivorsStay | internal/storage/cleaner.go:194-226 | what survived one compaction survives the next |
| LogOps.EveryRewriteKeepsView | internal/storage/partition_log.go:330-367 | the key-value view of the partition is unchanged after every single segment rewrite |
| LogOps.NewestFirstShowsDeletedValue | internal/storage/partition_log.go:355-364 | with the newer segment rewritten first a deleted value reappears |
| LogOps.CompactionSurvivors | internal/storage/cleaner.go:194-226 | a record is still there after compaction if and only if it is in the active segment, or in a closed one without a key, or in a closed one with a value and no record of its key in the partition is newer |
| LogOps.SurvivorsStayInPlace | internal/storage/partition_log.go:330-367 | every survivor stays in its segment, in order, and segments keep base and end |
| LogOps.LosersAreCounted | internal/storage/partition_log.go:355-366 | the number returned counts the closed segments whose records changed |
| LogOps.SecondCompactionIdle | internal/storage/partition_log.go:330-367 | compacting twice with no append in between rewrites nothing the second time |
| LogRuns.StepKeeps | internal/storage/partition_log.go:55-367 | every operation keeps the log well formed, reopened or not, keeps known segment ends known, and moves the log end by one exactly when it appends |
| LogRuns.ReadAfterRun | internal/storage/partition_log.go:73-95 | after any run of appends, reads, removals and compactions on any well-formed log a read returns what `LogModel.ReadAnywhere` says, and exactly the stored records from the start on if the run began with known segment ends |
| LogRuns.CompactionInvisible | internal/storage/partition_log.go:330-367 | in any run without retention, compactions at any points leave the key-value view the appends alone produce |
| LogRuns.OffsetsNeverReused | internal/storage/segment.go:70-97 | the k-th append of any run takes the first log end offset plus k |
| LogRuns.AppendsOnly | internal/storage/partition_log.go:55-67 | a run of appends and reads adds its records in order at consecutive offsets across any rolls |
| LogRuns.StampAt | internal/storage/segment.go:70-76 | nothing but the offset of a record changes when it is stored |
| LogRuns.SegmentSizes | internal/storage/partition_log.go:55-67 | over any run no segment exceeds the size limit by as much as one record, and without compaction every closed segment has reached it |
| PartitionLogs.PartitionLog.Roll | internal/storage/partition_log.go:195-205 | the new active segment starts empty where the old one ends |
| PartitionLogs.PartitionLog.Append | internal/storage/partition_log.go:55-67 | the record takes the log end offset, no stored byte is overwritten, and the invariant over all segments and files is kept; behind a torn tail the closed segments stay and the active file grows by the record, with what every scan of it then finds |
| PartitionLogs.PartitionLog.FindSegmentIndex | internal/storage/partition_log.go:211-231 | the binary search finds the last segment that starts at or below the offset, or -1 |
| PartitionLogs.PartitionLog.Read | internal/storage/partition_log.go:73-95 | the read of any log returns what `LogModel.ReadAnywhere` says, the filter of the plain log where segment ends are known, and changes nothing but cursors |
| PartitionLogs.PartitionLog.ReadZeroCopy | internal/storage/partition_log.go:102-131 | one contiguous piece of the log's bytes from a record boundary, at most the limit long, that skips only offsets below the start and begins close to it, or begins exactly with the later segments where a read skips the segment too |
| PartitionLogs.PartitionLog.LogEndOffset | internal/storage/partition_log.go:237-245 | the offset the next append will take |
| PartitionLogs.PartitionLog.RemoveOldestSegment | internal/storage/partition_log.go:296-309 | drops the oldest segment unless it is the active one |
| PartitionLogs.PartitionLog.CompactSegments | internal/storage/partition_log.go:330-367 | compacts every closed segment, keeps exactly the survivors named above and returns how many segments changed |
| PartitionLogs.PartitionLog.Open | internal/storage/partition_log.go:153-189 | loading a directory in any listing order yields its segments, oldest first, with the newest active |
| PartitionLogs.CompactLogSegments | internal/storage/cleaner.go:194-226 | keeps exactly the records without a key and those with a value at the latest offset of their key, keeps the segment's range, and returns their number |
| PartitionLogs.AscendingUnique | internal/storage/partition_log.go:170-172 | the sorted order of the base offsets is unique |
| Executor.FreshLog | internal/storage/partition_log.go:32-48 | an empty directory opens as one empty segment at offset 0, a state from which every run can start |
| Executor.Execute | internal/storage/partition_log.go:55-367 | any run of the real operations on any valid log ends in the prescribed state and every read on the way returns what `LogModel.ReadAnywhere` says of the log of that moment |
| Fetch.SendAllIsCut | internal/storage/partition_log.go:114-128 | sending segment by segment under one limit is cutting the whole log once |
| Fetch.FetchIsPrefixOfRead | internal/storage/partition_log.go:102-131 | parsing a limited fetch and dropping lower offsets gives a prefix of the read, all of it when the limit suffices |
| Fetch.FetchMakesProgress | internal/storage/segment.go:143-167 | a limit that covers what is sent ahead of a record and the record itself always delivers it whole |
| Clients.FetchDelivers | internal/storage/cleaner.go:229-242 | the bytes of a limited fetch parse to records of which those from the start on are a prefix of the plain read, complete under a limit that covers the log, and led by the first record wanted under a limit that covers the index interval plus that record, and the one before it if the offset itself was compacted away |
| Clients.FetchPromised | internal/storage/partition_log.go:102-131 | the same for any well-formed log in terms of what a read answers, and led by the first record of the later segments where a reopened segment is skipped |
| Clients.FetchRecords | internal/storage/partition_log.go:102-131 | that promise for the real operations: fetching from any valid partition under any limit, parsing the stream and dropping lower offsets |
| Fetch.FoundInSegment | internal/storage/partition_log.go:211-231 | what is stored at an offset, or below it behind the earlier segments, lies in the last segment that starts at or below it |
| Recovery.RecoveredWF | internal/storage/segment.go:195-223 | the reopened log holds the same records and ends at the same offset |
| Recovery.RunThenReopen | internal/storage/partition_log.go:153-189 | after any run without compaction on an uncompacted log a restart changes nothing |
| Recovery.ReopenedRead | internal/storage/segment.go:103-106 | a reopened segment is read in full below base plus survivor count and not at all above it, after any number of restarts |
| Recovery.ReopenedReadExactIff | internal/storage/segment.go:195-223 | a restart loses nothing for a start if and only if the start is below that bound, or the segment has nothing from it on, or an earlier restart already ended the segment below it |
| Recovery.ReopenedCompactedLogHidesRecord | internal/storage/segment.go:384-386 | a key written twice, compacted and reopened: its stored record can no longer be read at its offset |
| Recovery.ReadAtItsPlaceIff | internal/storage/segment.go:89-96 | whatever follows, a record appended behind the records of a file is decoded at the place where it was written if and only if the file had no torn tail |
| Recovery.DecodedPastTail | internal/storage/segment.go:204-217 | the first read that meets a torn tail runs on into whatever was written behind it |
| Recovery.AppendLostIff | internal/storage/segment.go:204-217 | an append behind any tail leaves the readable records exactly as they were if and only if the file is shorter than the four bytes behind its records announce |
| Recovery.LostAppendIsForgotten | internal/storage/segment.go:195-223 | exactly then the file is again the same records with a torn tail, so that recovery counts the old records and hands the offset out again |
| Recovery.AppendBehindTornTailReadsPhantom | internal/storage/segment.go:89-96 | a record without key and value written behind a torn length prefix parses to a record nobody wrote |
| Restarts.Restart | internal/storage/partition_log.go:153-189 | reopening after a clean close, with a torn tail or not, or after a crash inside an append yields the same records and log end offset, and the same log if it was never compacted |
| Lifetimes.RestartsKeepView | internal/storage/partition_log.go:153-189 | over any number of lifetimes without retention, restarts and compactions at any points leave the key-value view the appends alone produce |
| Lifetimes.LivesAreOneRun | internal/storage/partition_log.go:153-189 | without compaction any number of lifetimes is one uninterrupted run |
| Lifetimes.LiveThrough | internal/storage/partition_log.go:32-367 | the real operations with a restart after every lifetime end in the prescribed state |
| Cleaner.Stats | internal/storage/partition_log.go:265-274 | the number of segments and the number of bytes of all their records |
| Cleaner.CleanSizeRetention | internal/storage/cleaner.go:153-170 | the longest suffix of segments whose records fit the limit in bytes remains, or just the active one |
| Cleaner.SizeCutUnique | internal/storage/cleaner.go:153-170 | that suffix is uniquely determined |
| Cleaner.CleanTimeRetention | internal/storage/cleaner.go:123-150 | removes as many oldest segments as there are closed ones whose file is strictly older than the retention time |
| Cleaner.DropsExactlyExpiredIff | internal/storage/cleaner.go:134-149 | the removed segments are the expired ones if and only if no expired segment follows an unexpired one |
| Cleaner.UnexpiredRemovedExpiredStays | internal/storage/cleaner.go:134-149 | with modification times out of order an unexpired segment is removed and an expired one stays |
| Cleaner.OrderedTimesDropExpired | internal/storage/cleaner.go:134-149 | non-decreasing modification times meet that condition |
| Produce.ProduceRecords | internal/server/handler.go:381-426 | the payload's records are appended in order, a corrupt remainder as one raw record, and the acknowledged base is the old log end offset, 0 if nothing was appended |
| Produce.ParseStuck | internal/server/handler.go:385-399 | a torn record is dropped, everything behind a corrupt one becomes the value of one keyless raw record, a too short one panics |
| Produce.ParseBehind | internal/server/handler.go:385-420 | whole records in front of such bytes are recognised one by one |
| Produce.AppendAllPlain | internal/server/handler.go:385-420 | the plain log grows by the batch at consecutive offsets across any rolls |
| Produce.ProduceThenRead | internal/server/handler.go:381-426 | an encoded batch is recognised as its records, and reading from the reported base returns exactly them |
| Raft.KRaftNode.RequestVote | internal/consensus/kraft.go:55-79 | a lower term is refused, a higher one always granted, and in the node's own term the vote goes to one candidate as often as it asks; with the node's whole new state |
| Raft.KRaftNode.BecomeLeader | internal/consensus/kraft.go:85-93 | the node's whole new state |
| Raft.KRaftNode.BecomeFollower | internal/consensus/kraft.go:99-107 | the node's whole new state |
| Raft.FollowRegrantsIff | internal/consensus/kraft.go:99-107 | a node votes again in a term it has voted in if and only if it was told to follow in a term that is not higher |
| Raft.LeadRegrantsIff | internal/consensus/kraft.go:85-93 | when becoming leader makes a node grant a second candidate |
| Raft.SameTermFollowElectsTwoLeaders | internal/consensus/kraft.go:99-107 | from a cluster with an elected leader, one follow call in the node's own term lets three allowed steps elect a second leader of that term |
| Raft.WonIsReachable | internal/consensus/kraft.go:55-93 | that cluster is reached from the start by three allowed steps |
| Raft.Deliver | internal/consensus/kraft.go:55-107 | an event delivered to the node objects moves the cluster's states as the step system says and touches no other node |
| Raft.StepKeepsInv | internal/consensus/kraft.go:55-107 | every allowed step keeps grants unique and remembered, and leaders elected by majorities |
| Raft.NoDoubleVote | internal/consensus/kraft.go:72-76 | in no run does a node grant two candidates in one term |
| Raft.TermsNeverDecrease | internal/consensus/kraft.go:59-70 | in no run does a node's term go down |
| Raft.ElectionSafety | internal/consensus/kraft.go:55-107 | two leaders of one term, at whatever moments of a run, are the same node |
| Raft.HigherTermGranted | internal/consensus/kraft.go:64-76 | in any run a vote asked for in a higher term is granted and the voter moves to that term |
| Raft.FirstVoteGranted | internal/consensus/kraft.go:72-76 | in any run a node that has not voted in its term grants the first candidate |
| Raft.GrantRepeated | internal/consensus/kraft.go:72-76 | in any run a granted vote is granted again to the same candidate in that term |
| Raft.ElectionPossible | internal/consensus/kraft.go:55-93 | from any cluster state any node can become leader by allowed steps, with every other node's vote |
| Transactions.TransactionCoordinator.InitProducerId | internal/coordinator/transaction.go:52-83 | a new id starts at the next producer id with epoch 0, a known one keeps its producer id and gets the next epoch, and either way the transaction is empty |
| Transactions.TransactionCoordinator.AddPartitionsToTxn | internal/coordinator/transaction.go:89-101 | accepted exactly for the current producer id and epoch of the transactional id, and then registers the partitions; otherwise nothing changes |
| Transactions.TransactionCoordinator.EndTxn | internal/coordinator/transaction.go:107-135 | accepted exactly for the current producer id and epoch; returns each registered partition as often as it was registered, in any order, forgets them and records the outcome |
| Transactions.TransactionCoordinator.CheckAndSetSequence | internal/coordinator/transaction.go:143-161 | which numbers are duplicates and what is remembered |
| TxnRuns.HandleAddPartitions | internal/server/handler.go:898-944 | topics without write access are answered with their error and never registered |
| TxnRuns.HandleEnd | internal/server/handler.go:950-978 | one marker of the right kind per registration, none when refused |
| TxnRuns.RegistrationsConserved | internal/coordinator/transaction.go:89-135 | after any run an id has registered exactly what was accepted since its last initialisation or end |
| TxnRuns.SecondEndFindsNothing | internal/coordinator/transaction.go:107-135 | a second end succeeds and finds no partition |
| TxnRuns.MarkersOnlyWhereWritable | internal/server/handler.go:908-925 | a partition is registered with an id if and only if a request accepted in its current transaction named it under a topic that then passed the write check |
| TxnRuns.AskedIff | internal/server/handler.go:908-925 | a request counts for a partition exactly when it names it under a topic that passes the write check |
| TxnRuns.StrangerChangesNothing | internal/coordinator/transaction.go:93-114 | a caller with a producer id that is not the transactional id's own changes nothing, whatever epoch it names |
| TxnRuns.StrangerRefusedInRun | internal/coordinator/transaction.go:93-114 | the same after any run of requests on a new coordinator |
| TxnRuns.Serve | internal/server/handler.go:898-978 | over any run of requests through the handlers of a new coordinator, said about requests and replies alone: an addition or end is accepted if and only if its caller holds the pair last handed out for the id, denied topics are answered 29, and an accepted end returns one marker of its kind per addition accepted in that transaction |
| TxnRuns.EpochCountsInits | internal/coordinator/transaction.go:78-83 | the epoch counts initialisations in 16 bits, and nothing else moves it or the producer id |
| TxnRuns.FencedIff | internal/coordinator/transaction.go:93-96 | an earlier incarnation is accepted again if and only if its id was re-initialised a multiple of 65536 times since |
| TxnRuns.FewInitsFence | internal/coordinator/transaction.go:111-114 | at least one and fewer than 65536 re-initialisations always shut the earlier incarnation out |
| TxnRuns.EpochWrapsAround | internal/coordinator/transaction.go:78-83 | one re-initialisation shuts a producer out and 65536 let it in again |
| TxnRuns.ProducerIdsNotShared | internal/coordinator/transaction.go:52-83 | a producer id handed out twice went to the same transactional id both times |
| TxnRuns.RunOwned | internal/coordinator/transaction.go:64-76 | over any run the two id maps are mutually inverse |
| TxnRuns.MapHoldsLastAccepted | internal/coordinator/transaction.go:147-160 | the keyed map holds exactly the last accepted number of every stream, so streams never interfere |
| TxnRuns.DuplicateIff | internal/coordinator/transaction.go:154-157 | a call is a duplicate if and only if some accepted number of its stream is at least its own |
| TxnRuns.MapHoldsHighest | internal/coordinator/transaction.go:147-160 | the duplicate test compares with the highest number ever sent to the same producer, topic and partition, whatever other streams send |
| TxnRuns.CheckAll | internal/coordinator/transaction.go:143-161 | over any calls to a new coordinator a call is answered duplicate if and only if its stream was sent a number at least as high before, so numbers answered new rise strictly |
| Decimal.DigitsSpellNumber | internal/coordinator/transaction.go:147 | the digits rendered spell the number in base ten |
| Decimal.SequenceKeyInjective | internal/coordinator/transaction.go:147 | distinct producer, topic and partition triples render to distinct keys, colons in topics included |
| Decimal.SequenceKeyText | internal/coordinator/transaction.go:147 | the key written out for one producer, topic and partition |
| Decimal.PartitionKeyCollisionIff | internal/replication/replica_manager.go:60 | exactly which pairs of topic and partition share a replication key |
| Decimal.NegativePartitionCollides | internal/replication/replica_manager.go:60 | partition -1 of one topic and partition 1 of the topic with a dash added share a key |
| Groups.ChangeKeepsOk | internal/coordinator/group.go:133-291 | every operation leaves a leader among the members, or a properly empty group |
| Groups.HistoryKeepsLeader | internal/coordinator/group.go:133-291 | so does every history of joins, leaves, heartbeats and timeouts |
| Groups.LeaderStays | internal/coordinator/group.go:133-291 | over any history a leader leads for as long as it is a member |
| Groups.FirstMemberLeads | internal/coordinator/group.go:165-173 | whoever joins an empty group leads it |
| Groups.MembersAreTheJoined | internal/coordinator/group.go:133-291 | over any history the members are exactly those who joined and have since neither left nor been timed out, with clock reading and timeout of their last join |
| Groups.GenerationCounts | internal/coordinator/group.go:133-291 | over any history the generation counts joins, leaves that left members behind, and evictions less one for each timeout that emptied the group |
| Groups.HeartbeatsNeverCount | internal/coordinator/group.go:226-249 | in such a history no heartbeat changes anything |
| Groups.EvictExpired | internal/coordinator/group.go:265-287 | whatever the visiting order and the leaders picked on the way, exactly the unexpired members remain, each expired one is reported once, and the generation advances by the evictions, less one if the group emptied |
| Groups.TimedOutIs | internal/coordinator/group.go:265-287 | who remains after a timeout, with what generation, status and leader, in plain terms |
| Groups.GroupCoordinator.GetOrCreateGroup | internal/coordinator/group.go:108-127 | creates an empty group unless the cap is reached, and never exceeds the cap |
| Groups.GroupCoordinator.AddMember | internal/coordinator/group.go:133-180 | the error cases, the member's id, the members afterwards, the generation, and a leader that changes only if the group was empty |
| Groups.GroupCoordinator.RemoveMember | internal/coordinator/group.go:186-220 | the error cases, who remains, the generation, and a leader that changes only if it left |
| Groups.GroupCoordinator.Heartbeat | internal/coordinator/group.go:226-249 | which error a heartbeat gets and when it counts |
| Groups.GroupCoordinator.CheckHeartbeatTimeouts | internal/coordinator/group.go:256-291 | every group is timed out as above and exactly the expired members are reported, each once |
| Replication.ReplicaManager.CreatePartition | internal/replication/replica_manager.go:56-88 | a new partition starts with all its replicas in sync at 0; an existing one is kept |
| Replication.ReplicaManager.UpdateFollowerLEO | internal/replication/replica_manager.go:94-129 | the report's effect on the partition, the returned watermark and the error cases |
| Replication.ReplicasStandAtLastReport | internal/replication/replica_manager.go:106-111 | after any reports every replica stands at the offset it last reported, lower ones included, and membership and in-sync list are unchanged |
| Replication.ScanIsMinimumIff | internal/replication/replica_manager.go:115-122 | the loop finds the minimum if and only if that is not -1 or the last offset is -1 |
| Replication.ScanStartsOver | internal/replication/replica_manager.go:115-122 | an offset of -1 makes the loop forget what came before it |
| Replication.ReportedIsMinimumIff | internal/replication/replica_manager.go:111-126 | a report raises the watermark to the in-sync minimum if and only if that is not -1, or the last offset is, or the loop's result is no higher than the old watermark; otherwise the watermark ends above the minimum |
| Replication.WatermarkAboveInSyncMinimum | internal/replication/replica_manager.go:94-129 | two reports after which the watermark is 5 and an in-sync replica is at -1 |
| Replication.WatermarkIsRunningMax | internal/replication/replica_manager.go:94-129 | with non-negative reports the watermark is the running maximum of the in-sync minimum over the whole history |
| Replication.WatermarkIsCurrentMin | internal/replication/replica_manager.go:94-129 | if no replica reports a lower offset than before it is the current in-sync minimum |
| Replication.FreshWatermark | internal/replication/replica_manager.go:64-83 | a new partition's watermark equals its in-sync minimum, where the two statements above start |
| Replication.WatermarkAfterReports | internal/replication/replica_manager.go:56-148 | creating a partition, taking any reports and asking for the watermark: with non-negative offsets the answer is the highest in-sync minimum there has ever been |
| Wire.HeaderRoundTripIff | internal/protocol/header.go:86-138 | decoding an encoded header followed by anything returns header and rest if and only if the client id fits a 16-bit length |
| Wire.HeaderOnWire | internal/protocol/header.go:86-113 | which bytes the decoder takes for api key, api version, correlation id and client id, and when it fails |
| Wire.HeaderLayout | internal/protocol/header.go:127-138 | where the encoder puts them |
| Wire.StringOnWire | internal/protocol/header.go:177-190 | a string is a 16-bit length and that many bytes, none for a length below 1 |
| Wire.ProduceRoundTripIff | internal/protocol/produce.go:65-157 | the same for produce requests, if and only if every name, array and payload is within the protocol's limits |
| Wire.ProduceLayout | internal/protocol/produce.go:125-134 | where acks, timeout, topic count and topics lie |
| Wire.TopicLayout | internal/protocol/produce.go:135-141 | where a topic's name, partition count and partitions lie |
| Wire.PartitionLayout | internal/protocol/produce.go:142-154 | where a partition's id and records lie |
| Wire.TopicsInOrder | internal/protocol/produce.go:135-157 | topics follow one another in the order of the request |
| Wire.ProduceOnWire | internal/protocol/produce.go:65-80 | where the decoder finds acks, timeout and topic count |
| Wire.BytesOnWire | internal/protocol/header.go:212-228 | a byte field is a 32-bit length and that many bytes, refused above 64 MiB |
| Wire.CountOnWire | internal/protocol/header.go:26-38 | an array count is a 32-bit number, none if negative, refused above 2^20 |
| Wire.DecodedProduceFits | internal/protocol/produce.go:65-119 | whatever the decoder accepts is within those limits |
| Wire.DecodeProduceRequest | internal/protocol/produce.go:65-119 | the nested loops over the stream return what the parser on bytes prescribes and leave the same rest |
| Wire.EncodeProduceRequest | internal/protocol/produce.go:125-157 | the stream grows by exactly the encoding |
| Wire.DecodeRequestHeader | internal/protocol/header.go:86-113 | the stream code returns what the parser on bytes prescribes: api key, api version and correlation id from the first eight bytes |

## Left out

- Concurrency inside an operation: each partition-log operation is one atomic step. In the source, readers share a lock while they move a shared cursor.
- File system effects: rename crash windows, sync, file names and I/O errors. A directory is a map from base offset to log and index bytes, and an index file always holds whole entries.
- SendFileToSocket: taken to write the named byte range and leave the cursor alone.
- Segments.Segment.Append: offsets stay below 2^64 - 1, a segment below 2^63 bytes, and the record within the format's limits, since the 64-bit counters and the 32-bit lengths would wrap otherwise.
- PartitionLogs.PartitionLog.Append: the segment size limit is positive and at most 2^62. Behind a torn tail that no roll leaves behind, the effect of the first append is stated; the class invariant does not describe the log after it.
- PartitionLogs.PartitionLog.Open: the directory holds well-formed logs, each with an optional torn tail; arbitrary malformed bytes are not recovered in the model.
- Produce.ProduceRecords: one partition whose active file has no torn tail, and no interleaved producer; the response encoding and telemetry are not modelled.
- Transactions.TransactionCoordinator.InitProducerId: the 64-bit producer id counter does not wrap.
- TxnRuns.HandleEnd: markers are a returned list; appending them to the partition logs, where the source skips partitions that fail, is not modelled.
- Executor.Execute: a run that starts with a torn active file contains no append.
- Lifetimes.LiveThrough: its restarts are clean; a crash inside an append is one call of `Restarts.Restart`.
- Raft.ElectionSafety: holds under the caller discipline written out in `Raft.Allowed`, because the node methods do not check their callers; commit index and log replication do not exist in the source node.
- Groups.GroupCoordinator.CheckHeartbeatTimeouts: reports pairs of group and member instead of the rendered text; groups are values in a map, so aliasing of returned group references is not captured.
- Authorisation: the set of topics that pass the write check is a parameter of each request.
- Clocks, generated member suffixes and modification times are parameters.
- Network server, TLS, SASL, SCRAM, ACL rules, dashboard, metrics and command-line programs: not part of this model.
- Offset manager and replication fetcher: plain map updates and one counter, which would only add easy members.
- The other request decoders and response encoders: they have no inverse in the repository to be proved against.
