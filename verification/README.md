# smyte-db in Dafny

A model of the request path of smyte-db, a framework for Redis-protocol servers over RocksDB, and of
its two durable engines, with proofs about whole byte streams, whole runs and all reachable states.

- **Codec.** `RedisDecoder.dfy` is the incremental request decoder as a function of the buffered bytes;
  `IOBufs.dfy` and `DecodeLoop.dfy` are the same decoder as it runs, with a cursor on a chain of buffers
  and a queue trimmed in place. `ByteStream.dfy` is a connection that receives chunks. `RedisValue.dfy` is
  the encoder, and `RespReader.dfy` an independent reader of replies.
- **Pipeline.** `OrderedAdapter.dfy` is the reorder buffer, `RedisHandler.dfy` the plain and asynchronous
  handlers, `Pipeline.dfy` one connection end to end as a function of its events, `Connection.dfy` the same
  connection as it runs, put together from the parts above, `Transactions.dfy` MULTI/EXEC.
- **Scheduled tasks.** `TaskKeys.dfy` (keys and their order), `TaskQueue.dfy` (scan, batch, drain), `TaskRounds.dfy`
  (the drain loop on lists: when it ends, which tasks starve),
  `TaskCounter.dfy` (the counter, and whether tasks get lost, under concurrent threads).
- **Kafka store.** `ConsumerHelper.dfy` (committed offsets) and `StoreConsumer.dfy` (the consumer, with
  crashes and restarts).
- **Smaller parts.** `OneOffFlags.dfy`, `KeyEscape.dfy`, `SmyteId.dfy`; `Bytes.dfy`, `Decimal.dfy` and
  `Database.dfy` are shared.

`dfyconfig.toml` is the project file.

Conventions. The database is a map with atomic write batches. A failed CHECK, a fatal log line or a crash is
`None`, `false` or a step of its own. Time, download results, write results and command bodies are inputs.
Objects with mutable fields are classes; each of their methods is proved equal to a function on values, and
the theorems are about those functions. Runs are sequences of steps.

Findings: properties that fail, each with a lemma that exhibits a failing input and a lemma that says when the
property holds. Unless noted otherwise that condition is exact.

- `needed` never asks for too much, and asks for too little exactly when the decoder stands before a single
  byte, other than CR, of a length field (`RedisDecoders.NeededIsExact`, `RedisDecoders.OneByteIsNotEnough`).
- A reply that cannot be encoded, because an asynchronous result is nested in it, is harmless while it waits
  for its turn and ends the process when its turn comes (`Pipelines.RunAgrees`,
  `Pipelines.UnencodableReplyWaits`, `Pipelines.TwoOpenRequests`).
- A command rejected outside MULTI discards the next transaction, because only EXEC clears the error flag
  (`Transactions.StateOverHistories`, `Transactions.RejectionOutsideMultiDiscards`).
- Commands of a transaction see the database as it was before EXEC (`Transactions.TransactionEffect`). So a
  transaction leaves the database its commands leave one by one when no command writes a key that what a later
  one writes depends on, and gives the same replies when what a later one replies depends on no such key either
  (`Transactions.TransactionMeansItsCommands`). This condition is sufficient and not necessary: a command may
  read a key that was written and still do the same. Without it both halves fail
  (`Transactions.ReadersSeeTheOldDatabase`, `Transactions.ReadMissesQueuedWrite`).
- The drain loop of the task queue ends exactly when it does not come to a full batch of which the processor
  completes nothing; otherwise it hands over that batch for ever, and exactly the tasks behind it starve
  (`TaskRounds.EndsExactly`, `TaskRounds.StarveExactly`, `TaskRounds.NothingCompletedSpins`). With a maximum
  batch size of 0 the empty batch counts as full (`TaskQueues.ZeroBatchSizeSpins`).
- The recount at start misses tasks with the largest timestamp, so the counter covers the stored tasks after a
  restart exactly when there is none (`TaskCounters.RestartCovers`, `TaskCounters.LargestTimestampIsMissed`).
- A committed task is lost exactly when a processor completes a task that was written again after it was scanned,
  with whatever value, by a scheduler or in the processor's own batch, whose deletes come after its puts
  (`TaskCounters.NothingIsLost`, `TaskCounters.RescheduledInPlaceIsLost`,
  `TaskCounters.CommittedMeanwhileIsLost`).
- A kafka-store consumer that committed a position inside a file restarts exactly when that file can be
  downloaded at once; at a file boundary it always restarts (`StoreConsumers.InitFromPosition`,
  `StoreConsumers.StrandedInsideAFile`).
- Once a startup has completed, its override is never applied again (`OneOffFlags.OverrideHappensOnce`). Startups
  that end before that, by a crash or on a CHECK, count for nothing: the next one overrides exactly when it would
  have done so in their place (`OneOffFlags.OverridesExactly`, `OneOffFlags.UncompletedChangeNothing`,
  `OneOffFlags.OverriddenTwice`).
- Two different topics can get the same offset key exactly when one goes on after the other with a tilde and a
  partition number, and then ends or has another tilde (`ConsumerHelpers.TopicsCollide`,
  `ConsumerHelpers.TildeInTopicCollides`); the second link is then refused by a CHECK.
- A smyte id gives its timestamp back exactly when the Kafka offset is not negative or is a multiple of 1024
  (`SmyteIds.TimestampIsRecovered`, `SmyteIds.NegativeOffsetBorrows`).

Where a comment and the code differ, the code is modelled: `scanPendingTasks` is described as going up to the
given timestamp and excludes it; `escapeKeyStr` is described as escaping non-printable characters, `%` and
`~`, and also escapes the space.

## Model

| member | source | states |
|---|---|---|
| `RedisValues.EncodeToStream` | codec/RedisValue.cpp:13-75 | the stream filled by loops and recursion is the encoding of the value, of every kind and nesting |
| `RedisValues.EscapeToStream` | codec/RedisValue.cpp:25-36 | the escaping loop appends the text with CR and LF replaced, byte by byte |
| `RedisValues.WireFormat` | codec/RedisValue.h:31-39 | the encoding of every kind of value with its bytes written out: type byte, length or count, contents of elements in order, CR LF |
| `RedisValues.EscapeText` | codec/RedisValue.cpp:25-36 | of an error or simple string exactly CR and LF are replaced, each by a backslash and its letter; every other byte stands for itself |
| `RedisValues.BulkStringArrayIsArray` | codec/RedisValue.cpp:45-63 | a bulk-string array is encoded exactly as the general array of the same bulk strings |
| `RedisValues.WireEncodes` | codec/RedisValue.cpp:13-75 | a value and its wire form, which only merges the two kinds of array and the escaped line breaks, have the same encoding |
| `RespReaders.ReadEncoded` | codec/RedisValue.cpp:13-75 | a reader written from the protocol reads every encoded value back, nested to any depth, and leaves exactly the bytes after it |
| `RespReaders.Framing` | codec/RedisValue.cpp:13-75 | a stream that begins with the encoding of a value determines the value on the wire and the rest |
| `RespReaders.EncodeEquality` | codec/RedisValue.cpp:13-75 | two values have equal encodings if and only if they are equal on the wire |
| `RespReaders.PrefixFree` | codec/RedisValue.cpp:13-75 | no encoding is a proper prefix of another |
| `RespReaders.RepliesSplitUniquely` | codec/RedisValue.cpp:13-75 | a concatenation of replies splits in one way only |
| `Decimal.ParsePrint` | codec/RedisDecoder.cpp:153-160 | the integer parser inverts decimal printing on all of int64 |
| `Decimal.ParseIsComplete` | codec/RedisDecoder.cpp:153-160 | every text of white space, sign, digits and white space that denotes a 64-bit number is read as it |
| `Decimal.ParseIsSound` | codec/RedisDecoder.cpp:153-160 | nothing else is read as a number |
| `RedisDecoders.NoiseIsLongestRun` | codec/RedisDecoder.cpp:163-188 | what is skipped is the longest run of leading CRLF pairs |
| `RedisDecoders.DecodeStable` | codec/RedisDecoder.cpp:15-112 | an emitted value, errors included, stays the same whatever bytes follow, which are left behind it |
| `RedisDecoders.DecodeResumes` | codec/RedisDecoder.cpp:15-32 | a wait trims only leading CRLF pairs, and resuming from what is kept is decoding everything at once |
| `RedisDecoders.DecodeEmits` | codec/RedisDecoder.cpp:37-57 | every emitted value is an error or a request with at least one string, and takes at least two bytes |
| `RedisDecoders.NeededIsSound` | codec/RedisDecoder.cpp:16-29 | `needed` is at least one and no extension by fewer bytes makes decode emit |
| `RedisDecoders.NeededIsExact` | codec/RedisDecoder.cpp:115-145 | some extension by `needed` bytes makes decode emit if and only if the decoder does not stand before a lone non-CR byte of a length field |
| `RedisDecoders.OneByteIsNotEnough` | codec/RedisDecoder.cpp:115-122 | the failing side: behind `*1` CR LF and a dollar sign decode asks for one byte, and every one-byte extension still waits |
| `RedisDecoders.DecodeIsComplete` | codec/RedisDecoder.cpp:59-111 | every spelling of a non-empty request, after any noise and before any bytes, is decoded to it and leaves exactly those bytes |
| `RedisDecoders.DecodeIsSound` | codec/RedisDecoder.cpp:15-112 | the bytes taken by an emitted request are CRLF pairs and a spelling of that request; nothing else is accepted |
| `RedisDecoders.FaultsAreReported` | codec/RedisDecoder.cpp:37-105 | wherever a request goes wrong, in the array length, behind well-spelled strings in the next length, or behind a string without CR LF, decode emits the one error for it, drops all bytes up to the wrong one and leaves exactly those behind it |
| `RedisDecoders.ErrorsAreFaults` | codec/RedisDecoder.cpp:37-105 | every emitted error is of one of these forms, so for all bytes it is settled what decode takes and emits |
| `RedisDecoders.RoundTrip` | codec/RedisDecoder.cpp:59-111 | decoding inverts encoding for every non-empty list of byte strings, any leading CRLF pairs and any trailing bytes |
| `RedisDecoders.DecodedRequestRoundTrips` | codec/RedisDecoder.cpp:108-111 | encoding and decoding a decoded request is the identity |
| `ByteStreams.DecodeAllSplits` | codec/RedisDecoder.cpp:15-112 | cutting a stream in two changes neither the values nor the leftover |
| `ByteStreams.ChunkingIndependence` | codec/RedisDecoder.cpp:15-112 | for every split into chunks the values, errors included, and the leftover are those of the whole stream |
| `ByteStreams.LeftoverWaits` | codec/RedisDecoder.cpp:43-45 | the leftover holds no further value |
| `ByteStreams.RequestsDecode` | codec/RedisDecoder.cpp:15-112 | requests sent back to back with any noise between them are decoded one by one with nothing left |
| `ByteStreams.DecodedValues` | codec/RedisDecoder.cpp:47-57 | no stream ever yields an empty request |
| `IOBufs.Cursor.ReadTerminatedString` | codec/RedisDecoder.cpp:124-135 | the string before the first terminator is returned and passed over, across buffers; none when there is no terminator |
| `DecodeLoops.SkipPairs` | codec/RedisDecoder.cpp:165-187 | one turn of the outer loop skips the pairs of the current buffer or the one that begins at its end, and stops at anything else |
| `DecodeLoops.SkipNoise` | codec/RedisDecoder.cpp:163-188 | for every chain of buffers, empty and one-byte ones included, the cursor advances by exactly the noise of the flattened bytes |
| `DecodeLoops.ReadLengthField` | codec/RedisDecoder.cpp:115-161 | the cursor version of the length field equals the one on flattened bytes, and the cursor stands behind it |
| `DecodeLoops.ReadString` | codec/RedisDecoder.cpp:61-106 | one turn of the loop equals one bulk string of the flattened bytes, with the same error and the same bytes used |
| `DecodeLoops.ReadAllStrings` | codec/RedisDecoder.cpp:59-106 | the loop collects the strings of the request in order, or stops with the first error or wait |
| `DecodeLoops.DecodeMessage` | codec/RedisDecoder.cpp:15-112 | result, trimmed queue and `needed` are those of the decoder on the flattened bytes, in every branch, those of the errors included |
| `DecodeLoops.Receive` | codec/RedisDecoder.cpp:15-112 | appending a chunk and decoding until false ends and yields what decoding leftover plus chunk yields |
| `DecodeLoops.ReceiveAll` | codec/RedisDecoder.cpp:15-112 | a connection fed chunk by chunk yields the values and the leftover of the whole stream |
| `OrderedAdapters.OrderedRedisMessageAdapter.Read` | pipeline/OrderedRedisMessageAdapter.h:17-23 | a request gets the next key and an unfulfilled slot at the end of the queue |
| `OrderedAdapters.OrderedRedisMessageAdapter.Write` | pipeline/OrderedRedisMessageAdapter.cpp:5-35 | a reply is refused by a CHECK, bypasses with key -1, or fills its slot and flushes the fulfilled head |
| `OrderedAdapters.OrderedRedisMessageAdapter.Flush` | pipeline/OrderedRedisMessageAdapter.cpp:23-34 | exactly the fulfilled head of the queue is fired, in order, and the start key moves past it |
| `OrderedAdapters.RunIsCanonical` | pipeline/OrderedRedisMessageAdapter.cpp:11-34 | no CHECK fails if and only if every answer is for an arrived, unanswered request; then pending entry i has key startKey+i, the head is unfulfilled, and what was sent is 0..startKey-1 in order |
| `OrderedAdapters.OutputIsOrdered` | pipeline/OrderedRedisMessageAdapter.cpp:21-34 | the keyed output is always the replies to requests 0..n-1 in order, up to the first request without an answer |
| `OrderedAdapters.OrderOfAnswersIsIrrelevant` | pipeline/OrderedRedisMessageAdapter.cpp:11-34 | the state depends on which answers have come, not on their order |
| `OrderedAdapters.PermutedRunsAgree` | pipeline/OrderedRedisMessageAdapter.cpp:11-34 | any legal reordering of the same arrivals and answers sends the same replies |
| `RedisHandlers.RedisHandler.Read` | pipeline/RedisHandler.cpp:25-50 | the messages written for a request of any kind, and whether the process survives |
| `RedisHandlers.RedisHandler.HandleCommand` | pipeline/RedisHandler.h:93-104 | an unknown command is not handled; a wrong argument count is, with one error; else exactly the value the handler returned is written under the key of the request, or, for the async marker, nothing, which without async support is fatal |
| `RedisHandlers.NamesFoldCase` | pipeline/RedisHandler.cpp:44 | two command names are the same to the table if and only if they differ at most in the case of letters; names without upper-case letters stand for themselves |
| `RedisHandlers.ExactlyOneReply` | pipeline/AsyncRedisHandler.h:28-41 | every message the decoder can emit gets one keyed reply, unless a handler that ran returned the async marker, which is a later reply or, without async support, fatal |
| `RedisHandlers.StreamIsAnswered` | pipeline/RedisHandler.cpp:25-50 | whatever the bytes of a stream, no message they decode to is swallowed: each gets its reply at once, or later exactly when a handler that ran asks for it |
| `Pipelines.RunAgrees` | pipeline/RedisPipelineFactory.h:29-42 | for every handler table, chunking and interleaving, the process survives if and only if every completion is for an open request or bypasses with an encodable value, and every reply whose turn has come is encodable; then buffer, queue and output are those the events call for |
| `Pipelines.EachGetsItsReply` | pipeline/RedisHandler.h:93-104 | in every legal run: a protocol error is echoed, unknown commands and wrong argument counts get their texts, and a command that runs gets the very value its handler returned, or the completion that came for it when the handler put it off |
| `Pipelines.EndToEnd` | pipeline/RedisPipelineFactory.h:29-42 | the keyed bytes written are always the encodings of the replies to a prefix of the requests of the whole input, in arrival order, ending at the first request without a reply |
| `Pipelines.InterleavingIsInvisible` | pipeline/RedisPipelineFactory.h:29-42 | equal input and equal completions give equal output, whatever the chunks and the order |
| `Pipelines.BypassesGoOut` | pipeline/OrderedRedisMessageAdapter.cpp:5-9 | the messages that bypass the order go out exactly once each, in the order they came |
| `Pipelines.ClientSeesEveryReply` | pipeline/RedisPipelineFactory.h:29-42 | once all requests are answered, any splitting of the bytes into replies is exactly one reply per request, in order |
| `Pipelines.UnencodableReplyWaits` | codec/RedisValue.cpp:67-71 | with two requests open, an unencodable reply to the second is harmless until the first is answered, and then fatal |
| `Pipelines.TwoOpenRequests` | pipeline/AsyncRedisHandler.h:28-41 | a handler table and bytes that leave two requests open, as the row above needs |
| `Connections.RedisConnection.Receive` | pipeline/RedisPipelineFactory.h:29-42 | decoding a chunk in place and passing each message through reorder buffer, handler and encoder is the chunk event of the model, death included, and writes exactly the encodings of what is fired |
| `Connections.RedisConnection.Complete` | pipeline/AsyncRedisHandler.h:28-41 | a later reply through reorder buffer and encoder is the completion event of the model |
| `Connections.RedisConnection.Serve` | pipeline/RedisPipelineFactory.h:29-42 | a whole connection lives exactly on legal runs; when nothing bypasses the order, all bytes on the socket are the encoded replies to requests 0..n-1, up to the first without a reply |
| `Transactions.TransactionalRedisHandler.ReadMessage` | pipeline/RedisHandler.cpp:25-50 | a transactional handler writes exactly one message per message, but for an empty request, with its key |
| `Transactions.TransactionalRedisHandler.Read` | pipeline/TransactionalRedisHandler.cpp:16-78 | new transaction state, new database and the one reply of every branch |
| `Transactions.TransactionalRedisHandler.Exec` | pipeline/TransactionalRedisHandler.cpp:28-53 | EXEC always resets the state; it commits the queue's batch or leaves the database, and says which |
| `Transactions.TransactionalRedisHandler.ExecuteQueue` | pipeline/TransactionalRedisHandler.cpp:33-42 | the loop runs the queue in order into one batch, up to the first error |
| `Transactions.TransactionalRedisHandler.WriteResult` | pipeline/TransactionalRedisHandler.cpp:80-92 | a non-empty batch is written first; a failed write replaces the result by an error |
| `Transactions.SinceExecIsLongest` | pipeline/TransactionalRedisHandler.h:76-80 | the part of a history that matters is its longest suffix without EXEC |
| `Transactions.StateOverHistories` | pipeline/TransactionalRedisHandler.cpp:20-75 | over every history: in a transaction iff a MULTI came since the last EXEC, error flag up iff a command was rejected since, queue equal to the accepted commands since the first such MULTI |
| `Transactions.ExecRunsTheQueue` | pipeline/TransactionalRedisHandler.cpp:28-53 | EXEC runs the accepted commands iff there was a MULTI and no rejection since the last EXEC; in all other cases, when a command returns an error, and when the write fails, the database is unchanged, and the reply is the text for that case; else the operations of all queued commands are applied and all results returned, in order |
| `Transactions.RunQueueExactly` | pipeline/TransactionalRedisHandler.cpp:33-42 | the loop of EXEC fails if and only if some queued command returns an error, and else collects all results and operations in order |
| `Transactions.MultiReplies` | pipeline/TransactionalRedisHandler.cpp:20-27 | after every history MULTI is answered OK if and only if no MULTI came since the last EXEC, and else with the nesting error |
| `Transactions.CommandReplies` | pipeline/TransactionalRedisHandler.cpp:55-92 | after every history: unknown and miscounted commands get their error; the others are queued if and only if a MULTI came since the last EXEC, and else run at once, where a failed write of a non-empty batch turns the result into the database error |
| `Transactions.OnlyRequestsCount` | pipeline/RedisHandler.cpp:25-42 | protocol errors and other messages between the requests leave transaction and database as they are |
| `Transactions.RejectionOutsideMultiDiscards` | pipeline/TransactionalRedisHandler.cpp:30-31 | a rejected command, MULTI, EXEC: discarded because of previous errors, and the database is unchanged |
| `Transactions.TransactionEffect` | pipeline/TransactionalRedisHandler.cpp:28-75 | whatever the commands read, MULTI c1..cn EXEC writes what they all write, and replies what they all reply, on the database before it, if none of them fails there; else it writes nothing and replies that an error was encountered |
| `Transactions.TransactionMeansItsCommands` | pipeline/TransactionalRedisHandler.cpp:28-75 | when none fails and none writes a key that what a later one writes depends on, the database is that of c1..cn run one at a time and the n results are in order; the replies are those of c1..cn too when what a later one replies depends on no such key |
| `Transactions.ReadersSeeTheOldDatabase` | pipeline/TransactionalRedisHandler.cpp:33-48 | without that condition the database differs: a key toggled twice |
| `Transactions.ReadMissesQueuedWrite` | pipeline/TransactionalRedisHandler.cpp:33-48 | and the replies differ where the database does not: a write and a read of one key |
| `Databases.ApplyAppend` | pipeline/TransactionalRedisHandler.cpp:80-92 | two batches written in turn equal one batch |
| `TaskKeys.TaskOfKey` | infra/ScheduledTask.h:17-35 | a key decodes to the task it was made of |
| `TaskKeys.KeyLayout` | infra/ScheduledTask.h:30-35 | a key is eight bytes that spell the timestamp to base 256, followed by the data key |
| `TaskKeys.KeyOfTask` | infra/ScheduledTaskQueue.cpp:83-94 | every task key is the key of the task it decodes to |
| `TaskKeys.KeyOrder` | infra/ScheduledTask.h:15-35 | the byte order of keys is the order of (timestamp, data key) |
| `TaskKeys.BoundIsExclusive` | infra/ScheduledTaskQueue.cpp:76-82 | below the encoded bound lie exactly the tasks strictly before it |
| `TaskQueues.ScheduledTaskQueue.ScanPendingTasks` | infra/ScheduledTaskQueue.cpp:73-98 | the scan returns exactly the first `limit` stored tasks strictly below the bound, all of them when limit is 0, with their values |
| `TaskQueues.ScanOrder` | infra/ScheduledTaskQueue.cpp:73-98 | a scan is in (timestamp, data key) order and holds only due tasks |
| `TaskQueues.ScanIsUnique` | infra/ScheduledTaskQueue.cpp:73-98 | store, bound and limit determine the scan |
| `TaskQueues.ScheduledTaskQueue.ScheduleWithWriteBatch` | infra/ScheduledTaskQueue.h:93-110 | every task is put into the batch and counted |
| `TaskQueues.ScheduledTaskQueue.Schedule` | infra/ScheduledTaskQueue.h:131-143 | the task is stored if the write succeeds and counted either way |
| `TaskQueues.ScheduledTaskQueue.BatchProcessing` | infra/ScheduledTaskQueue.cpp:43-71 | one batch scans, writes what the processor scheduled and then the deletes of completed tasks, and counts these off |
| `TaskQueues.BatchEffect` | infra/ScheduledTaskQueue.cpp:43-71 | for every processor, a batch removes exactly the completed tasks, leaves other due tasks as they are, and changes later ones only by the processor's puts |
| `TaskQueues.ScheduledTaskQueue.Drain` | infra/ScheduledTaskQueue.cpp:29-36 | for every processor on which the loop is not stuck, the loop ends; what was handed over, what is left due and the counter are those of the loop on lists, and later tasks are as if only the rescheduling had happened; with a processor that completes all, every due task is handed over exactly once in order and none is left |
| `TaskQueues.BatchOnList` | infra/ScheduledTaskQueue.cpp:43-71 | a batch on the store is a batch on the sorted list of due tasks: the first `limit` are handed over, and after it the list is the rest |
| `TaskRounds.EndsExactly` | infra/ScheduledTaskQueue.cpp:33-34 | for every processor, batch size and list of due tasks, the loop ends if and only if it does not come to a full batch of which nothing is completed |
| `TaskRounds.StarveExactly` | infra/ScheduledTaskQueue.cpp:33-34 | when it does, the due tasks never handed over are exactly those behind that batch |
| `TaskRounds.EndHandsAllOver` | infra/ScheduledTaskQueue.cpp:33-34 | when it ends, every due task has been handed over |
| `TaskRounds.CompletesAllDrains` | infra/ScheduledTaskQueue.cpp:33-34 | with a processor that completes all, it ends if and only if the batch size is not 0 or something is due, with each due task handed over once in order and none left |
| `TaskRounds.NothingCompletedSpins` | infra/ScheduledTaskQueue.cpp:60-63 | the failing side: a processor that completes nothing spins on any full batch and all tasks behind it starve |
| `TaskQueues.ZeroBatchSizeSpins` | infra/ScheduledTaskQueue.cpp:33-34 | with batch size 0 a batch is empty, and the loop goes on unchanged, if and only if nothing is due |
| `TaskCounters.CounterIsSafe` | infra/ScheduledTaskQueue.cpp:43-71 | under every interleaving, with duplicate keys, failed writes, rescheduling and restarts, the counter never underflows and covers the stored tasks; those with the largest timestamp only until a restart |
| `TaskCounters.StepKeeps` | infra/ScheduledTaskQueue.h:93-143 | every atomic step keeps counter >= stored + in unwritten batches + completed but not counted off |
| `TaskCounters.RestartCovers` | infra/ScheduledTaskQueue.h:169-172 | after a restart the counter covers the store if and only if no task has the largest timestamp |
| `TaskCounters.LargestTimestampIsMissed` | infra/ScheduledTaskQueue.h:169-172 | such a run: one task with the largest timestamp is stored, and after a restart the counter is 0 |
| `TaskCounters.NothingIsLost` | infra/ScheduledTaskQueue.cpp:43-71 | over every run, at every point the last write of each task is stored, or was handed to a processor that has completed it, if and only if no processor completes a task written again since its scan |
| `TaskCounters.ResultsLoseTheRewritten` | infra/ScheduledTaskQueue.cpp:47-59 | writing the results loses exactly the completed tasks that a write since the scan, or the batch itself, names, whatever the values |
| `TaskCounters.RescheduledInPlaceIsLost` | infra/ScheduledTaskQueue.cpp:49-58 | a processor that completes a task and schedules it anew under the same key, with any value, loses it |
| `TaskCounters.CommittedMeanwhileIsLost` | infra/ScheduledTaskQueue.cpp:45-58 | so is a task that a scheduler writes, with any value, under a scanned key before the results are written |
| `TaskCounters.BatchProcessingIsSteps` | infra/ScheduledTaskQueue.cpp:43-71 | what the batch method does to store and counter is one scan, the reschedulings, one write and one count-off of the concurrent model |
| `TaskCounters.ScheduleIsSteps` | infra/ScheduledTaskQueue.h:131-143 | what the schedule method does is one counted put and one commit of the concurrent model |
| `ConsumerHelpers.OffsetsRoundTrip` | infra/kafka/ConsumerHelper.h:45-70 | encoded offsets are decoded back on the whole range the encoder accepts |
| `ConsumerHelpers.OffsetsText` | infra/kafka/ConsumerHelper.h:45-51 | committed offsets are 41 bytes: twenty digits of the kafka offset, a colon, twenty digits of the file offset |
| `ConsumerHelpers.ConsumerHelper.CommitNextProcessKafkaAndFileOffsets` | infra/kafka/ConsumerHelper.h:102-112 | data and offsets are written together or not at all, and the cached offset follows |
| `ConsumerHelpers.ConsumerHelper.LoadCommittedKafkaAndFileOffsets` | infra/kafka/ConsumerHelper.cpp:53-71 | the stored offsets, or none when missing or malformed, and the cache accordingly |
| `ConsumerHelpers.TopicsCollide` | infra/kafka/ConsumerHelper.h:124-126 | two different topics have the same offset key for some partitions and suffixes if and only if one extends the other by a tilde and a printed partition, up to its end or another tilde |
| `ConsumerHelpers.OffsetKeysDiffer` | infra/kafka/ConsumerHelper.h:124-140 | when no topic extends the other, so in particular without tildes, two links get the same offset key if and only if topic, partition and suffix are the same |
| `ConsumerHelpers.TildeInTopicCollides` | infra/kafka/ConsumerHelper.h:124-126 | such topics: t and t~1 |
| `ConsumerHelpers.CommitThenLoad` | infra/kafka/ConsumerHelper.cpp:19-35 | what was committed is loaded, and every other key holds the batch |
| `StoreConsumers.StoreConsumer.Initialize` | infra/kafka/store/Consumer.cpp:55-98 | init with its checks, in every branch |
| `StoreConsumers.StoreConsumer.Open` | infra/kafka/store/Consumer.cpp:69-93 | the seek loop stands at the initial offset of the file, or init fails |
| `StoreConsumers.StoreConsumer.ConsumeBatch` | infra/kafka/store/Consumer.cpp:100-142 | the consumer after a batch and the records handed over, with its fatal cases |
| `StoreConsumers.StoreConsumer.ReadLoop` | infra/kafka/store/Consumer.cpp:114-141 | the loop hands over the next records up to time, batch size or end of file |
| `StoreConsumers.InitFromPosition` | infra/kafka/store/Consumer.cpp:65-93 | from a committed position all offset checks pass; init fails if and only if the position is inside a file that cannot be downloaded |
| `StoreConsumers.InitAtOffset` | infra/kafka/store/Consumer.cpp:58-93 | with an initial offset given, init succeeds if and only if it lies in the stored file, or at its start when that cannot be downloaded, and the consumer then stands at it |
| `StoreConsumers.StrandedInsideAFile` | infra/kafka/store/Consumer.cpp:65-93 | such a run: of a file with two records one is consumed and committed, and a restart that cannot download the file fails |
| `StoreConsumers.ConsumeKeeps` | infra/kafka/store/Consumer.cpp:100-142 | from a consistent consumer no CHECK fails, and the records handed over are the next ones of the log |
| `StoreConsumers.ConsumeCount` | infra/kafka/store/Consumer.cpp:100-142 | the number of records handed over is the minimum of the time's budget, 10000 and what is left in the file that holds the next offset; it is 0 only for these reasons or while a new file cannot be downloaded |
| `StoreConsumers.ConsumerReachesTheEnd` | infra/kafka/store/Consumer.cpp:100-142 | as many batches as records are left, each with some time, hand over the whole rest of the log in order |
| `StoreConsumers.ConsumerPosition` | infra/kafka/store/Consumer.cpp:125-135 | the offsets to commit, current file inside a file and next file at its end, are a valid position |
| `StoreConsumers.RunKeeps` | infra/kafka/store/Consumer.cpp:55-142 | the invariant of every run: stored position valid, database equal to the replay of the commits so far, unwritten batch equal to the records from there to the consumer |
| `StoreConsumers.ExactlyOnce` | infra/kafka/store/Consumer.cpp:55-142 | for handlers that read the database and the batch, after any run of uploads, batches, commits, failed commits, crashes and restarts the database is the initial one with the records from the first to the stored offset processed once each, in order, in some row of consecutive batches, each computed on what the one before left; restarts pass the checks |
| `StoreConsumers.CutsAreInvisible` | infra/kafka/store/Consumer.h:96-105 | for handlers that look at the record only, where the batches are cut does not show in the data |
| `StoreConsumers.EachRecordOnce` | infra/kafka/store/Consumer.cpp:55-142 | so over every run the data is the initial data with the operations of each record applied exactly once, in order |
| `OneOffFlags.RedisPipelineBootstrap.CanApplyOneOffFlags` | pipeline/RedisPipelineBootstrap.cpp:120-155 | true exactly for a version that is set, not past and newer than the stored one |
| `OneOffFlags.RedisPipelineBootstrap.PersistVersionTimestamp` | pipeline/RedisPipelineBootstrap.cpp:157-164 | the version is stored when it can be applied |
| `OneOffFlags.RedisPipelineBootstrap.InitializeKafkaConsumer` | pipeline/RedisPipelineBootstrap.cpp:464-497 | the links made, the overrides the loop applies, how many, and whether one of its CHECKs ends it |
| `OneOffFlags.StoredVersionGrows` | pipeline/RedisPipelineBootstrap.cpp:157-164 | the stored version changes only to a strictly larger one |
| `OneOffFlags.OverrideHappensOnce` | pipeline/RedisPipelineBootstrap.cpp:614-622 | with a clock that does not go back, once a completed startup has overridden an offset no later startup of that version does |
| `OneOffFlags.OverridesExactly` | pipeline/RedisPipelineBootstrap.cpp:464-497 | for any configurations, a startup overrides an offset if and only if some configuration asks for it while the version allows it and none up to it meets a CHECK, a key linked twice included; it completes if and only if none meets a CHECK and it gets to the persisting |
| `OneOffFlags.ReachedConfigs` | pipeline/RedisPipelineBootstrap.cpp:471-497 | at the end every configuration that was reached without a CHECK and fires has its override stored: -2 from the beginning, else the initial offset, for an object store with file offset 0; one that does not fire keeps the offset it had |
| `OneOffFlags.OtherKeysStay` | pipeline/RedisPipelineBootstrap.cpp:464-497 | offsets of consumers that are not configured are not touched |
| `OneOffFlags.UncompletedChangeNothing` | pipeline/RedisPipelineBootstrap.cpp:614-622 | after any startups that did not complete, the next one overrides if and only if it would have in their place |
| `OneOffFlags.UncompletedOverrideRepeats` | pipeline/RedisPipelineBootstrap.cpp:614-622 | a startup that overrode something and did not complete overrides again when repeated before the version's time has passed |
| `OneOffFlags.OverriddenTwice` | pipeline/RedisPipelineBootstrap.cpp:471-477 | such a startup: one offset is overridden, the next configuration is fatal, and the restart does both again |
| `OneOffFlags.LinkedKeysSpareVersion` | infra/kafka/ConsumerHelper.h:124-126 | no linked offset key is the key of the stored version |
| `OneOffFlags.DifferentLinksAreAccepted` | infra/kafka/ConsumerHelper.h:128-140 | different links, of which no topic extends another, are all accepted |
| `KeyEscapes.EscapeKeyStr` | pipeline/DatabaseManager.cpp:57-81 | the two-pointer loop appends the percent-encoding of each byte |
| `KeyEscapes.EscapeText` | pipeline/DatabaseManager.cpp:68-77 | bytes 33 to 125 but the percent sign stand for themselves; every other byte becomes a percent sign and its two upper-case hexadecimal digits |
| `KeyEscapes.EscapedIsPlain` | pipeline/DatabaseManager.cpp:68-73 | only bytes 33 to 125 come out, so no `~` |
| `KeyEscapes.UnescapeEscape` | pipeline/DatabaseManager.cpp:57-81 | percent-decoding undoes the escaping |
| `KeyEscapes.JoinSplitsUniquely` | pipeline/DatabaseManager.cpp:56-81 | escaped parts joined by `~` split in one way only |
| `SmyteIds.FieldsAreRecovered` | infra/SmyteId.h:40-51 | time, unique part, machine and shard are recovered from an id that fits int64 |
| `SmyteIds.TimestampIsRecovered` | infra/SmyteId.h:100-102 | the timestamp is recovered if and only if the offset is not negative or a multiple of 1024 |
| `SmyteIds.NegativeOffsetBorrows` | infra/SmyteId.h:46-48 | the failing side: offset -1 puts the timestamp one millisecond early |
| `SmyteIds.IdOrder` | infra/SmyteId.h:40-51 | ids sort by timestamp, offset mod 1024 and shard |
| `SmyteIds.NearbyOffsetsDiffer` | infra/SmyteId.h:46-48 | any 1024 consecutive offsets of a shard get distinct ids, whatever the timestamps |
| `SmyteIds.BinaryForm` | infra/SmyteId.h:60-83 | the eight-byte form is read back and sorts like the number |

## Left out

- RocksDB, librdkafka, folly, wangle, Avro and Google Cloud Storage themselves: replaced by maps, sequences and results given as inputs.
- DecodeLoops.ReadString: lengths are unbounded integers, so the wrap-around of `stringLength + 2` near the largest int64 is not modelled, and neither is the memory reserved for the announced number of strings.
- Decimal.ParsePrint: the integer parser stands for `folly::to<int64_t>`, whose own code is not part of this model; white space is that of the C locale.
- TaskCounters.CounterIsSafe: the counter is an unbounded integer, so overflow above 64 bits is not modelled.
- TaskQueues.ScheduledTaskQueue.BatchProcessing: the processor writes to the queue's column family only by scheduling and completing tasks, and a failed write, which ends the process, is not a result.
- TaskQueues.ScheduledTaskQueue.Drain: tasks scheduled by other threads meanwhile are covered by the concurrent model of the counter and the store, not by the loop; the processor schedules nothing that is due already, and does the same when it is given the same tasks.
- TaskCounters.NothingIsLost: a write is replaced, not lost, when the same task is written again; only the last write of a task can be lost.
- StoreConsumers.ExactlyOnce: `processBatch` lives in subclasses, so it is built from its documented contract: records fill a write batch, looking at the database and the batch so far, the batch is committed with the offsets, and a failed commit ends the process. Nothing else writes to the database meanwhile.
- Transactions.TransactionMeansItsCommands: command bodies write only through the batch; built-in commands that write directly, such as SETMETA, are outside the claim.
- OneOffFlags.RedisPipelineBootstrap.CanApplyOneOffFlags: the version key holds what the bootstrap wrote; a malformed value, which throws, is excluded. The use of the flag for creating a missing database is not modelled, nor is the CHECK for an unknown consumer name.
- Messages with key -1 (monitor output and GOAWAY) bypass the order; they are modelled in the reorder buffer and the encoder, and left aside in the claims about the order of replies.
- Connections.RedisConnection.Receive: a chunk is decoded before its messages are handled, where the source handles each message before it decodes the next; no handler touches the buffer.
- Bodies of the built-in commands, monitor broadcasting, connection counting and column-family setup: no effect on the claims.
- `scheduleOpaque`, `Serializer`, `Producer`, `OffsetManager`, `EventCallback`, the lag flags and the plain Kafka consumer: easier variants or plumbing.
- Threads, timers and logging; interleavings are modelled as steps.
