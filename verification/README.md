# Heracles: a verified model of the event pipeline

Heracles is an event-metrics server. Clients number events and send them in reports; a handler
collects reports in time slots, flushes a slot once it has lingered long enough, computes
statistics per metric and tag and stores one record for each; queries merge the records of a
time window. This project models that pipeline in Dafny and proves what it keeps, from the
bytes on the wire to the answer of a query.

| file | what it models |
|---|---|
| `Bytes`, `Seqs`, `Lex` | fixed-width integers, truncating division, big endian, bytewise order, decimal text |
| `StoreKey`, `KeyRange`, `Layout`, `Index` | record keys, whose keys lie in a scanned range, record values, the ordered database with its range scan and skip scan |
| `Groups`, `Aggregate`, `Means`, `GroupLines`, `LineOrder`, `Store`, `Grouping` | merging records, what merged and grouped lines report, which stay ordered, the store object, grouped and ungrouped queries |
| `EventStats` | removal of repeated messages, selection in place, percentiles |
| `SlotMachine`, `Acceptance`, `EQueue`, `EventHandler` | the life of a time slot as a state machine, which reports get in, the queue and the handler as objects |
| `Lossless`, `EndToEnd`, `RecordKeys`, `Answers`, `Writers`, `Samples`, `Runs`, `OrderedRuns`, `Retries`, `RetryCounts` | from accepted events to query answers, over whole runs |
| `Framing`, `Rpc` | the server's stream reader, the client's blocking connection, calls and replies |
| `Client` | the reporting client: batching and message ids |
| `ConnPool`, `TinyTask`, `ThreadPool` | resource managers |

How to read it. Code that changes state is a class whose methods are proved against
specification functions; what is promised is then proved about those functions. Concurrency is a
state machine: a run is any sequence of steps that can happen, and a theorem about runs holds for
every interleaving. Time, randomness of the network (how many bytes a read returns), success of
creating a thread or a connection and the order in which parallel tasks write are parameters or
steps, so theorems quantify over them. Machine integers are unbounded integers with the
narrowing written out.

The main results:

* **Lossless aggregation.** `Runs.RunAnswers`: whatever the handlers of a service do, with the
  records of their processed slots written in any order, every query over the index returns the
  count, sum, average, minimum and maximum of the deduplicated events it asks for (`Direct`, a
  plain fold over the accepted events) if and only if no slot has, for one metric, first
  deliveries tagged both "" and "T". An empty tag is stored as "T", so such records share a key
  and one is written over the other.
* **What an answer says.** `Writers.AnswerPercentiles`: besides, every percentile of an answer is
  the truncated mean of those of the records asked for, which are order statistics of their
  events (`RecordKeys.SlotsSource`, `EventStats.StatAtPositions`). `GroupLines.GroupedLines`: a
  grouped query has exactly one line per time, or per tag, telling of the lines of that time or
  tag.
* **Who gets in.** `Acceptance.AcceptedExactly`: in every run the accepted events are exactly those
  of the reports that were in time when checked and were inserted, each in the slot of its time.
* **No slot is flushed twice.** `SlotMachine.FlushedOnceIff`: with a clock that never goes back,
  in every run each slot time is flushed at most once, in ascending order, if and only if the
  linger time is never raised and the horizon (clock less linger time) moves by at most one
  second between the unlocked age check and the locked insertion. `Runs.AlwaysExactIff`: the same
  condition, together with values that are 32-bit numbers, is exactly what exact answers need. A
  slot flushed twice has its first record written over, and a wider value is cut.
* **Ordered answers.** `OrderedRuns.AlwaysOrderedIff`: over all runs that write at most n records
  of events with values from lo to hi, min <= p10 <= p50 <= p90 <= max and min <= avg <= max hold
  in every answer if and only if n times lo and n times hi are 32-bit numbers, because the
  percentiles are summed in 32 bits. `LineOrder.GroupOrderedIff`: the lines of groups, divided as
  unsigned numbers, are ordered if and only if values are not negative or the number of lines
  divides 2^32.
* **Retries.** `Retries.RetriesChangeNothing` and `Retries.ReportsCountOnce`: a run with any
  number of repeated deliveries stores the same records as a run that inserts no report twice.
  `RetryCounts.CountedOnceIff`: no query counts a report more than once, in all runs, if and only
  if the step is left alone.
* **The index is a filter.** `Index.ScanIsFilterIff`: the range scan returns the lines of a naive
  filter over all records, for all databases, tags and entities, exactly when the window does not
  reach behind the epoch (or its limit still covers everything) and the metric is not the
  beginning of another metric's key. `Index.MetricsAgreeIff`: the same for the assertion on the
  metric of every line.
* **Any cut of the stream.** `Framing.ReadsAnyCutIff`: every cut that the server's reads can make
  of any byte stream is read as if the stream had been read at once, if and only if a message
  limit up to 2^32 - 2048 is configured. Without one, a message of almost 4 GiB is lost because
  lengths are kept in 32 bits.
* **Message ids.** `Client.IdsApartIff`: calls given the same id are at least 2^30 calls apart in
  every run, and 2^30 is the best possible distance.
* **Managers.** `ConnPool.NeverLentTwiceIff`, `TinyTask.NeverStuckIff`, `Client.NeverTripsIff`:
  each safety property together with the exact condition on what is configured or given back.
  (Nothing in the repository calls `modify_spawn_size` yet; `TinyTask` says what it would do.)

Where the code is wider than its promise the model follows the code. The percentile sums of a
group are divided as unsigned 64-bit numbers (`Aggregate.UnsignedMeanRightIff`), 64-bit values are
collected in 32-bit vectors (`EventStats.AverageBetweenIff`), a query metric may hold the separator
(`KeyRange.SeparatorReachesOther`), and a comment in
`source/Business/StoreLevelDB.h` gives the key order as timestamp before metric, while the code
writes the metric first.

## Model

| member | source | states |
|---|---|---|
| StoreKey.KeyRoundTrip | source/Business/StoreLevelDB.cpp:156-161 | a written key splits back into the record written if and only if no field holds the separator and neither metric nor tag is empty |
| StoreKey.InsertKeyRoundTrip | source/Business/StoreLevelDB.cpp:158-161 | for times whose stamp has ten digits, the key that passes through the 4096-byte C string buffer reads back as the record if and only if the record is storable: no separator or NUL in a field, a metric and a tag, and a key of at most 4095 bytes |
| StoreKey.LongKeysCollide | source/Business/StoreLevelDB.cpp:158-161 | whatever the entity of a record with a key of 4095 bytes or more is extended with, it is written under the same key |
| StoreKey.KeysInjective | source/Business/StoreLevelDB.cpp:156-161 | different storable records have different keys |
| StoreKey.UpperExact | source/Business/StoreLevelDB.cpp:198-201 | a record sorts at or after the upper end of the scan if and only if it is not newer than the query time |
| StoreKey.LowerExact | source/Business/StoreLevelDB.cpp:202-205 | which records sort at or before the lower end, including limits that have become eleven digits long |
| StoreKey.RangeIsWindowIff | source/Business/StoreLevelDB.cpp:198-205 | the scanned range is the window asked for, for every storable time, if and only if the window does not reach behind the epoch or its long limit still covers everything |
| StoreKey.RangeIsSqlWindowIff | source/Business/StoreSql.cpp:191 | the scanned range is the SQL condition for every storable time if and only if the interval is positive and its window fits, or the query time is zero; with interval zero SQL selects nothing and the scan everything |
| StoreKey.WindowBehindEpochMissesRecords | source/Business/StoreLevelDB.cpp:203-205 | a concrete query whose window reaches behind the epoch misses a record inside it |
| KeyRange.RangeMetric | source/Business/StoreLevelDB.cpp:229-237 | every well-formed key inside the range has the queried metric, unless the metric splits at its separators into two or three parts (four for an unlimited interval) of which none of the first three is empty |
| KeyRange.RangeMetricIff | source/Business/StoreLevelDB.cpp:229-237 | every well-formed key inside the range has the queried metric if and only if the metric does not split in that way or the range is empty |
| KeyRange.StoredRangeMetricIff | source/Business/StoreLevelDB.cpp:156-161 | the same for keys the store writes, where the second part must also be a stamp |
| KeyRange.SeparatorReachesOther | source/Business/EventRepos.cpp:185-190 | the query for metric "a#9999999998" at time 5, which is not refused, reaches the stored record (a, 1, T, e), so the assertion on its metric fails |
| Layout.DecodeEncode | source/Business/StoreLevelDB.h:29-71 | decoding an encoded value recovers every signed field |
| Layout.EncodeDecode | source/Business/StoreLevelDB.h:49-69 | every 38-byte string is the encoding of what it decodes to |
| Layout.FieldsAt | source/Business/StoreLevelDB.h:29-69 | where each field lies in the packed value, byte by byte, big endian and with its sign |
| Index.PutSorted | source/Business/StoreLevelDB.cpp:178-179 | a put keeps the keys strictly ascending |
| Index.ScanIsFilter | source/Business/StoreLevelDB.cpp:198-243 | seek and walk returns exactly the lines of a naive filter over all entries, malformed ones included, in order, whenever the range is that of the query |
| Index.ScanIsFilterIff | source/Business/StoreLevelDB.cpp:198-243 | for any metric, the scan is the naive filter for all ordered databases of stored keys, all tags and all entities if and only if the window fits or, for a metric with the separator, no stored key of another metric can lie in the range |
| Index.MetricsAgreeIff | source/Business/StoreLevelDB.cpp:219-237 | the assertion on the metric holds in all ordered databases, and in all that hold stored keys, each if and only if the metric cannot be read as the beginning of such a key |
| Index.PutMatching | source/Business/StoreLevelDB.cpp:178-179 | a record under a new key changes the total of every query by its own line and nothing else |
| Index.SkipOnlySame | source/Business/StoreLevelDB.cpp:721-728 | seeking behind a metric moves strictly forward and jumps over keys of that metric only |
| Store.StoreLevelDB.SelectMetrics | source/Business/StoreLevelDB.cpp:701-733 | the skip scan lists exactly the metrics of all well-formed keys, ascending, each once, and terminates |
| Store.StoreLevelDB.InsertEvStat | source/Business/StoreLevelDB.cpp:138-188 | which records are refused, and the database after an insert |
| Store.ReadBack | source/Business/StoreLevelDB.cpp:229-269 | a stored record is read back with every number exactly when its tag and entity are asked for |
| Store.ReadExact | source/Business/StoreLevelDB.cpp:229-269 | from any entry a line is read if and only if its key splits into a record with the tag and entity asked for and its value is the encoding of a record marked D, and the line has the numbers of that value |
| Store.StoreLevelDB.VisitAt | source/Business/StoreLevelDB.cpp:219-296 | one entry of the scan: whether the assertion on its metric holds, and the line read merged with the narrowing of each accumulator |
| Store.StoreLevelDB.SelectByNone | source/Business/StoreLevelDB.cpp:525-631 | the scan loop computes the summary of exactly the visited lines, which tells of them field by field, and its assertion holds if and only if every well-formed key in the range has the queried metric |
| Store.StoreLevelDB.SelectGrouped | source/Business/StoreLevelDB.cpp:190-355 | the same summary and the same assertion, the two iteration counters agree, and by timestamp one line per time visited, by tag one per tag, in order, each telling of the lines of that time or tag |
| Store.CollectGroup | source/Business/StoreLevelDB.cpp:301-334 | the line of a group is computed from the exact totals of its records |
| GroupLines.GroupedLines | source/Business/StoreLevelDB.cpp:271-341 | by timestamp: one line for every time visited and no other, ascending, without a tag, with count, sum, average, extremes and percentiles of the lines of that time; by tag the same for tags |
| Means.SummaryTells | source/Business/StoreLevelDB.cpp:343-352 | for any lines the summary has the sums of their counts and sums, their extremes, and as percentiles and average the truncated means of theirs, as far as 32 and 64 bits go; without a count the undivided sums |
| Means.PercentileMeans | source/Business/StoreLevelDB.cpp:619-623 | percentile sums of 32 bits: each percentile of the summary is the truncated mean of that percentile of the lines |
| Means.GroupTells | source/Business/StoreLevelDB.cpp:301-334 | the same for a group, whose label is its key and whose percentile sums are divided as unsigned numbers |
| Means.QuotientIsMean | source/Business/StoreLevelDB.cpp:325-327 | for sums that are not negative the unsigned quotient is the truncated mean |
| Store.StoreLevelDB.SelectEvStat | source/Business/StoreLevelDB.cpp:635-665 | the moment a query looks back from, which of the three paths answers it, and when the assertion on the metric holds |
| Store.QueryTime | source/Business/StoreLevelDB.cpp:643-647 | the moment looked back from is never after now less the linger time nor after a positive start, and is one of the two |
| Groups.BuildPartitions | source/Business/StoreLevelDB.cpp:271-278 | grouping is a partition: ascending keys, under each key its lines in order, nothing lost or added |
| Aggregate.GroupsAddUp | source/Business/StoreLevelDB.cpp:298-341 | group totals add up to the total of all lines, whatever the grouping key |
| Grouping.SameSummary | source/Business/StoreLevelDB.cpp:656-665 | the three ways of grouping give the same summary for the same condition |
| Grouping.GroupsMakeSummary | source/Business/StoreLevelDB.cpp:298-352 | for any lines, counts and sums of the reported group lines add up to the reported summary in its 32- and 64-bit arithmetic; minima and maxima fold to it when every line counts something and the count fits |
| Aggregate.SummaryOrdered | source/Business/StoreLevelDB.cpp:343-352 | merging ordered lines whose sums fit gives an ordered summary: min <= p10 <= p50 <= p90 <= max and min <= avg <= max survive truncated averaging |
| Aggregate.GroupOrdered | source/Business/StoreLevelDB.cpp:323-332 | the same for a group whose percentile sums are not negative or whose number of lines divides 2^32 |
| LineOrder.SummaryOrderedIff | source/Business/StoreLevelDB.cpp:283-352 | all summaries of n ordered lines with values from lo to hi, whose count and sum fit, are ordered if and only if n times lo and n times hi are 32-bit numbers; n equal lines of lo or hi show it |
| LineOrder.GroupOrderedIff | source/Business/StoreLevelDB.cpp:323-332 | all lines of groups of n ordered lines with values from lo up, whose sums fit, are ordered if and only if lo is not negative or n divides 2^32; n lines of -1 show it |
| Aggregate.UnsignedMeanRightIff | source/Business/StoreLevelDB.cpp:325-327 | dividing an int32 sum by a size_t gives the mean for all sums from a lower bound up if and only if that bound is not negative |
| EventStats.DedupKeepsFirst | source/Business/EventHandler.cpp:387-395 | the events kept are exactly the first ones of their message ids |
| EventStats.DedupIds | source/Business/EventHandler.cpp:366-399 | no id is lost, none stays twice, the size is the number of ids |
| EventStats.DedupRetry | source/Business/EventHandler.cpp:366-399 | delivering events again changes nothing, whatever came before and after |
| EventHandling.RemoveRepeated | source/Business/EventHandler.cpp:366-399 | the two passes with a shrinking id set compute first-occurrence removal, and the asserted size is right |
| EventHandling.GroupByTag | source/Business/EventHandler.cpp:352-360 | events are grouped by tag in order |
| EventStats.NthElement | source/Business/EventHandler.cpp:421-435 | selection in place meets the contract of nth_element and only permutes |
| EventStats.NthIsKth | source/Business/EventHandler.cpp:421-436 | the value at position k of any such permutation is the k-th order statistic of the original values |
| EventStats.Percentiles | source/Business/EventHandler.cpp:417-436 | five selections on one array, each on what the previous one left, give five order statistics of the original values |
| EventStats.PercentilePositions | source/Business/EventHandler.cpp:426-434 | the positions computed as products with the doubles 0.1, 0.5 and 0.9 are floor(len/10), floor(len/2) and floor(9*len/10) for up to 2^32 values, for any rounding that keeps order and short numbers |
| EventStats.StatAtPositions | source/Business/EventHandler.cpp:417-436 | minimum, maximum and percentiles stored are the values of the sorted vector at its ends and at the floating-point positions |
| EventStats.StatUnique | source/Business/EventHandler.cpp:407-437 | the statistics are determined by the events, not by the permutation left behind |
| EventStats.Calculate | source/Business/EventHandler.cpp:352-437 | count, sum, average and percentiles of one tag |
| EventStats.StatOrdered | source/Business/EventHandler.cpp:415-436 | stored lines are ordered, and count and sum are exact, for int32 values |
| EventStats.AverageBetweenIff | source/Business/EventHandler.cpp:340-359 | for a range of int64 values whose sum is an int64 the average always lies between minimum and maximum if and only if the range, clipped to where two values can be summed, does not straddle two blocks of 2^32 |
| SlotMachine.NiceStepBounds | source/Business/EventHandler.h:50-52 | a slot is stamped strictly after its events, at the least multiple of the step for times after the epoch |
| SlotMachine.AddDataItems | source/Business/EventHandler.cpp:218-232 | events go to the end of the vector of their metric, in the order reported |
| SlotMachine.AddOpenFind | source/Business/EventHandler.cpp:206-216 | the slot of a report is extended or created, every other slot stays what it was |
| SlotMachine.ExpiredExact | source/Business/EventHandler.cpp:242-254 | the slots flushed are exactly the expired ones |
| Acceptance.FlushExact | source/Business/EventHandler.cpp:237-255 | a flush moves exactly the slots whose time plus linger time has passed to the end of the queue, in order |
| Acceptance.CheckExact | source/Business/EventHandler.cpp:187-197 | a report of this service that is not older than the linger time becomes pending, any other leaves everything as it was |
| Acceptance.AcceptedExactly | source/Business/EventHandler.cpp:184-235 | in all runs an event is accepted if and only if a report with it was in time when checked and was then inserted, and it is in the slot of the report's time |
| Acceptance.SettingsInForce | source/Business/EventHandler.cpp:135-150 | in all runs the settings in force are those configured last |
| SlotMachine.SafeStep | source/Business/EventHandler.cpp:184-255 | every step keeps what makes a second flush of a slot impossible |
| SlotMachine.FlushedOnceIff | source/Business/EventHandler.cpp:184-255 | in all runs each slot time is flushed at most once, ascending, if and only if the linger time is never raised and the horizon moves by at most a second between check and insertion |
| SlotMachine.SlowInsertFlushesTwice | source/Business/EventHandler.cpp:192-200 | a run of two one-event reports in which an insertion two seconds after its check reopens a flushed slot, and both halves are processed |
| SlotMachine.RaisedLingerFlushesTwice | source/Business/EventHandler.cpp:135-139 | a run in which raising the linger time lets an event into a slot that has been flushed, and both halves are processed |
| SlotMachine.CompleteRun | source/Business/EventHandler.cpp:204-332 | in all runs every slot carries exactly the events inserted for it, per metric and in order, and every flushed slot is in exactly one place |
| SlotMachine.ExactlyOnePlace | source/Business/EventHandler.cpp:204-332 | an accepted event is in the slot of its time, and that slot is once in exactly one of open slots, queue, batches and processed slots |
| SlotMachine.RefusedAfterFlush | source/Business/EventHandler.cpp:192-197 | a report whose slot has been flushed is refused |
| Retries.RetryOpenOrRefused | source/Business/EventHandler.cpp:192-216 | a repeated delivery finds its slot still open or is refused |
| Retries.RetriesChangeNothing | source/Business/EventHandler.cpp:192-403 | the run with repeated deliveries left out is a run too, processes the same slots and writes the same records, percentiles included, so every query gets the same answer |
| Retries.ReportsCountOnce | source/Protocol/source/MonitorTask.proto:129 | with the step unchanged, a run with any number of repeated deliveries stores what a run stores that inserts no report twice |
| RetryCounts.CountedOnceIff | source/Business/EventHandler.cpp:192-216 | in all runs no query counts more events than the different reports inserted have, if and only if the step is not changed: a report repeated after a change of step from 10 to 7 lands in another slot and is counted twice |
| Queue.EQueue.Push | source/Utils/EQueue.h:28-32 | appends to the FIFO |
| Queue.EQueue.Pop | source/Utils/EQueue.h:112-144 | takes the front element, or nothing exactly when there is none |
| Queue.EQueue.PopBatch | source/Utils/EQueue.h:70-110 | takes a prefix of the exact size the do-while loop gives, one even for a maximum of zero |
| Queue.EQueue.ShrinkFront | source/Utils/EQueue.h:167-178 | keeps the newest elements and tells how many were dropped |
| EventHandling.EventHandler.AddEvent | source/Business/EventHandler.cpp:184-201 | a report is accepted if and only if it is of this service and not older than the linger time, and then its events are in the slot of its time; the call is a check and an insertion of the slot machine |
| EventHandling.EventHandler.DoAddEvent | source/Business/EventHandler.cpp:204-235 | the search, creation and filling of a slot computes the specified map |
| EventHandling.EventHandler.LingerCheckRun | source/Business/EventHandler.cpp:237-255 | the slots whose time plus linger time has passed move to the queue, oldest first, and no other; the call is a flush of the slot machine |
| EventHandling.EventHandler.ProcessMetric | source/Business/EventHandler.cpp:451-482 | one record per tag of the deduplicated events is stored |
| EventHandling.EventHandler.ProcessEvent | source/Business/EventHandler.cpp:441-487 | the records of all metrics of a slot are stored, in order |
| EventHandling.EventHandler.RunOnceTask | source/Business/EventHandler.cpp:268-282 | an auxiliary task stores the records of all slots of its batch; the call runs the batch to its end in the slot machine |
| EventHandling.EventHandler.HandOffBatches | source/Business/EventHandler.cpp:306-319 | batches of bounded size are handed off in order until the queue is short, also for a step size of zero; the call is a run of hand-offs |
| EventHandling.EventHandler.RunOnce | source/Business/EventHandler.cpp:298-331 | one turn of the main loop: what was queued is the batches, then at most one processed slot, then what is left; the call is a legal run of the slot machine that processes that slot |
| Lossless.StatIsTotal | source/Business/EventHandler.cpp:407-437 | a stored line carries the exact count, sum, minimum and maximum of its events |
| Lossless.GroupRecordsTotal | source/Business/EventHandler.cpp:441-487 | what the records of a slot contribute to a query is the total of the deduplicated events of its metric and tag |
| Lossless.StoreAllTotal | source/Business/StoreLevelDB.cpp:138-188 | records with different keys make every query see the sum of their contributions |
| EndToEnd.DirectOneMore | source/Business/EventHandler.cpp:441-487 | processing one more slot adds exactly the first deliveries of that slot to the direct answer |
| EndToEnd.AllRecordsTotal | source/Business/EventHandler.cpp:352-487 | the records of the processed slots add up to the direct answer |
| RecordKeys.SlotsSource | source/Business/EventHandler.cpp:441-487 | every record written carries count, sum, average, extremes and percentiles of exactly the deduplicated events accepted for its slot, metric and tag |
| RecordKeys.RecordSteps | source/Business/EventHandler.cpp:441-482 | every record is stamped with the time and, in eight bits, the step of a processed slot |
| RecordKeys.AllRecordsClash | source/Business/StoreLevelDB.cpp:145-148 | the records of a handler have different keys if and only if no slot has, for one metric, both the empty tag and "T" |
| Answers.StoreAllLoses | source/Business/StoreLevelDB.cpp:178-179 | the store never counts more than was written, and less as soon as a queried record is written over |
| Writers.AnswerExact | source/Business/StoreLevelDB.cpp:525-631 | count, sum, average, minimum and maximum of every query equal those computed directly from the deduplicated events of all handlers |
| Writers.AnswerPercentiles | source/Business/StoreLevelDB.cpp:525-631 | every number of an answer is told by the records asked for, with percentiles that are the truncated means of theirs |
| Answers.AnswerTells | source/Business/StoreLevelDB.cpp:525-631 | over any database an answer tells of the lines visited, field by field |
| Writers.AnswersExactIff | source/Business/StoreLevelDB.cpp:145-148 | all queries are answered exactly if and only if no tags clash |
| Writers.AnswerOrdered | source/Business/StoreLevelDB.cpp:343-352 | with values from lo to hi and at most n records, every answer is ordered when n times lo and n times hi are 32-bit numbers, whether or not tags clash |
| Writers.FittingAnswerOrdered | source/Business/StoreLevelDB.cpp:343-352 | in every answer whose sums fit their accumulators min <= p10 <= p50 <= p90 <= max and min <= avg <= max |
| Runs.ProcessedOnce | source/Business/EventHandler.cpp:204-332 | the processed slots of a run have different times and carry exactly what was accepted |
| Runs.RunAnswers | source/Business/EventHandler.cpp:184-487 | over any runs of all handlers of a service: no key is written twice, and all answers are exact, if and only if no tags clash |
| Runs.AlwaysExactIff | source/Business/EventHandler.cpp:184-437 | all answers of all runs are exact, for storable events with values from lo to hi and without clashing tags, if and only if the linger time is never raised, the horizon moves by at most a second between check and insertion, and lo and hi are 32-bit numbers |
| OrderedRuns.AlwaysOrderedIff | source/Business/StoreLevelDB.cpp:283-352 | over all runs of handlers that write at most n records of values from lo to hi, all answers with lines are ordered if and only if n times lo and n times hi are 32-bit numbers; n handlers with one event each show it |
| Framing.HeaderRoundTrip | source/Core/Message.h:24-53 | decoding an encoded header recovers it |
| Framing.HeaderBytes | source/Core/Message.h:41-51 | every 16 bytes are the encoding of what they decode to |
| Framing.AcceptedBytes | source/Network/TcpConnAsync.cpp:72-88 | 16 bytes are taken for a header if and only if they begin with "tk", version 1, and a length within the limit |
| Framing.Buffer.Append | source/Core/Buffer.h:57-65 | appends header and payload |
| Framing.Buffer.Consume | source/Core/Buffer.h:68-87 | takes a prefix of the buffer, of the size asked for or all |
| Framing.Buffer.ConsumeInto | source/Core/Buffer.h:90-108 | copies a prefix into a block and drops it |
| Framing.Buffer.FrontErase | source/Core/Buffer.h:110-119 | drops a prefix |
| Framing.TcpConnAsync.ParseHeader | source/Network/TcpConnAsync.cpp:60-91 | which headers are accepted, and what is taken from the buffer |
| Framing.TcpConnAsync.ParseMsgBody | source/Network/TcpConnAsync.cpp:171-189 | when a body is complete, and what is taken from the buffer |
| Framing.TcpConnAsync.DoRead | source/Network/TcpConnAsync.cpp:94-134 | the mutually recursive reader computes the specified parse and terminates because every header shrinks the buffer |
| Framing.TcpConnAsync.DoReadMsg | source/Network/TcpConnAsync.cpp:191-243 | the same from inside a message |
| Framing.TcpConnAsync.ReadHandler | source/Network/TcpConnAsync.cpp:136-169 | the state after a read while a header is awaited |
| Framing.TcpConnAsync.ReadMsgHandler | source/Network/TcpConnAsync.cpp:246-284 | the state after a read while a body is awaited |
| Framing.ReadTwice | source/Network/TcpConnAsync.cpp:94-284 | reading two pieces one after the other is reading them at once |
| Framing.AnyCut | source/Network/TcpConnAsync.cpp:94-284 | with a limit, every cut of every stream gives the result of reading it at once, and nothing complete is left over |
| Framing.AllMessages | source/Network/TcpConnAsync.cpp:94-284 | of messages cut anywhere, those before the first oversized one are dispatched in order and unchanged; the connection stays open if and only if none is oversized |
| Framing.AllMessagesUnlimited | source/Network/TcpConnAsync.cpp:83-88 | without a limit, messages of at most 2^32 - 2048 bytes, cut anywhere, are all dispatched in order and unchanged |
| Framing.StreamAccounted | source/Network/TcpConnAsync.cpp:60-284 | for every stream, well-formed or not, dispatched messages, awaited header and buffer are exactly the bytes received; only an unacceptable header closes |
| Framing.ReadsAnyCutIff | source/Network/TcpConnAsync.cpp:108-211 | every cut the reads can make, each waiting for what is missing and returning at most a block, gives the result of reading at once if and only if a limit between 1 and 2^32 - 2048 is configured |
| Rpc.TcpConnSync.DoWrite | source/Client/TcpConnSync.cpp:169-199 | the block loop sends the buffer in order; with 32-bit lengths it sends the length modulo 2^32 |
| Rpc.TcpConnSync.SendNetMessage | source/Client/TcpConnSync.h:44-53 | the limit on sending, and the bytes sent |
| Rpc.TcpConnSync.DoRead | source/Client/TcpConnSync.cpp:98-131 | reading succeeds if and only if a whole acceptable message arrives, and takes exactly that message, whatever sizes the reads return, for messages of at most 2^32 - 2048 bytes |
| Rpc.TcpConnSync.DoReadMsg | source/Client/TcpConnSync.cpp:133-167 | the same for the body |
| Rpc.RequestRoundTrip | source/RPC/RpcRequestMessage.h:88-110 | a request is understood as the call made if and only if it has a payload |
| Rpc.ResponseRoundTrip | source/RPC/RpcResponseMessage.h:118-140 | a response to another call is refused whatever its status; of those to this call OK gives the payload unchanged and anything else its status |
| Rpc.RpcHeaderAt | source/RPC/RpcRequestMessage.h:25-55 | where each field of the call header lies, byte by byte, big endian |
| Rpc.ValidatedExact | source/RPC/RpcInstance.cpp:13-46 | bytes are understood as a call if and only if they are a header with magic number and version and a payload |
| Rpc.JudgeExact | source/Client/RpcClientImpl.cpp:145-167 | bytes are an answer to a call if and only if they are a status, a header with the magic number, this service and opcode, and a payload; OK gives the payload, anything else the status |
| Rpc.RpcInstance.ValidateRequest | source/RPC/RpcInstance.cpp:13-46 | validation succeeds exactly on well-formed requests with a payload and sets service, opcode and payload |
| Rpc.RpcInstance.ReplyRpcMessage | source/RPC/RpcInstance.cpp:49-62 | the message sent is taken by whoever made this call, and nobody else, for a reply with exactly this payload, and is found whole at the front of whatever bytes it begins |
| Rpc.CallRpc | source/Client/RpcClientImpl.cpp:115-167 | a call sends the whole request and comes to a send error, a receive error, a format error, a service status or the payload of a good reply to itself; only the first two give the connection up |
| Rpc.CallFailures | source/Client/RpcClientImpl.cpp:128-143 | only a call that may not be sent is a send error; it is a receive error if and only if what arrives does not begin with an acceptable header or ends before the message |
| Rpc.RequestArrives | source/RPC/RpcInstance.cpp:13-46 | a request with a payload, cut anywhere, reaches the server as one message validated as the call made |
| Rpc.ReplyArrives | source/Client/RpcClientImpl.cpp:145-167 | the reply comes back with its payload unchanged and leaves what follows it |
| Client.HeraclesClient.ReportEvent | source/Client/HeraclesClient.cpp:418-470 | the new state and the report queued, step by step as in the source |
| Client.RunConserves | source/Client/HeraclesClient.cpp:418-470 | in all runs queued reports followed by the current slot are the recorded events, in order, each under the second the clock read |
| Client.RunReports | source/Client/HeraclesClient.cpp:418-470 | in all runs queued reports followed by the slot are exactly the calls made while enabled with a metric, in order, with the metric, tag, value and clock of the call and its message id |
| Client.ReportsBounded | source/Client/HeraclesClient.cpp:434-448 | while the size is never lowered each queued report holds between one event and the configured size |
| Client.NeverTripsIff | source/Client/HeraclesClient.cpp:356-437 | for a sequence of configured sizes, the assertion on the slot size holds in all runs that set them in order if and only if the sequence never goes down |
| Client.RunIdsApart | source/Client/HeraclesClient.cpp:430-460 | two calls of a run with the same message id are at least 2^30 calls apart |
| Client.IdsApartIff | source/Client/HeraclesClient.cpp:430-460 | a distance is guaranteed in all runs if and only if it is at most 2^30 |
| Client.HeraclesClient.RunOnce | source/Client/HeraclesClient.cpp:552-576 | the oldest report is sent first and only the oldest waiting ones are dropped beyond the limit |
| ConnPool.RequestLends | source/Connect/ConnPool.h:229-261 | after the wait a request returns nothing only when a new connection does not come up, and never a connection in use |
| ConnPool.SafeRun | source/Connect/ConnPool.h:148-219 | in all runs idle and lent connections are disjoint and duplicate-free, at most the capacity, and nobody sleeps while one could be had |
| ConnPool.NeverLentTwiceIff | source/Connect/ConnPool.h:202-219 | no connection is lent twice at once in any run if and only if only lent connections are given back |
| ConnPool.UnhealthyGone | source/Connect/ConnPool.h:202-219 | in all runs a connection given back unhealthy is neither idle nor lent any more, and no request gets it |
| ConnPool.LentInOrder | source/Connect/ConnPool.h:208-244 | in all runs idle connections are lent again in the order they came back, trimmed ones left out |
| ConnPool.WaitsWhenFull | source/Connect/ConnPool.h:263-265 | a request has to wait if and only if as many connections as the capacity are lent |
| ConnPool.Connections.RequestConn | source/Connect/ConnPool.h:148-158 | a request sleeps when nothing is available, else takes a connection nobody has |
| ConnPool.Connections.DoRequestConn | source/Connect/ConnPool.h:229-261 | the oldest idle connection, else a new one |
| ConnPool.Connections.FreeConn | source/Connect/ConnPool.h:202-219 | a healthy connection becomes idle, and something is available for everybody woken |
| TinyTask.FitsRun | source/Utils/TinyTask.h:91-111 | in all runs without an effective change of size every batch fits the limit together with the live threads |
| TinyTask.NeverStuckIff | source/Utils/ThreadMng.h:83-97 | a runner configured with n > 0, asked for a sequence of sizes at any times, never waits for a thread slot if and only if n is not a multiple of 256 and only n modulo 256 or zero is asked for |
| TinyTask.ZeroSticks | source/Business/EventRepos.cpp:43-49 | a configured multiple of 256 becomes a limit of zero and the first task waits for ever |
| TinyTask.LoweredSticks | source/Utils/TinyTask.h:69-83 | lowering the size while a larger batch has been popped makes the runner wait for ever |
| TinyTask.RaisedSticks | source/Utils/TinyTask.h:69-83 | raising the size makes the runner wait for ever when a batch is popped between its two writes |
| TinyTask.Runner.RunOnce | source/Utils/TinyTask.h:98-110 | every task of a batch gets its thread without waiting, oldest first, and all are joined; only a limit of zero waits |
| TinyTask.Runner.ModifySpawnSize | source/Utils/TinyTask.h:69-83 | zero is ignored, any other size ends up in both places |
| TinyTask.ThreadMng.AddTask | source/Utils/ThreadMng.h:83-97 | when a task is added and when the call would wait for ever |
| ThreadPool.TargetBounds | source/RPC/Executor.cpp:70-79 | the target lies between base and hard limit for every queue length if and only if they are in that order, and it grows with the queue |
| ThreadPool.TargetExact | source/RPC/Executor.cpp:70-79 | the base while at most one step waits; beyond that one thread more for every full step waiting, or the hard limit when those are more |
| ThreadPool.RightTargetUnique | source/RPC/Executor.cpp:70-79 | no other number of threads meets that description |
| ThreadPool.AdjustThreads | source/RPC/Executor.cpp:55-90 | the step-by-step computation gives the exact target and resizes the pool to it |
| ThreadPool.Pool.constructor | source/Utils/ThreadPool.cpp:44-76 | the size kept equals the number of workers if and only if all threads could be created |
| ThreadPool.Pool.SpawnTask | source/Utils/ThreadPool.cpp:212-236 | how many workers are added, and that the size kept stays equal to their number |
| ThreadPool.Pool.GracefulStop | source/Utils/ThreadPool.cpp:153-184 | exactly one worker is removed, or none |
| ThreadPool.Pool.ReduceTask | source/Utils/ThreadPool.cpp:238-261 | at most fifty and at most the number asked for are removed; zero means exactly that number |
| ThreadPool.Pool.ResizeThreadPool | source/Utils/ThreadPool.cpp:102-114 | zero is returned if and only if the pool has exactly the number of workers asked for |
| ThreadPool.Pool.GracefulStopTasks | source/Utils/ThreadPool.cpp:186-209 | all workers are removed and the size kept is zero |
| ThreadPool.Converges | source/RPC/Executor.cpp:86-87 | with a steady target the pool size after any number of timer ticks |

## Left out

- Sorting and limiting of grouped results (`source/Business/Sort.h`, `source/Business/StoreLevelDB.cpp:667-682`): the descending comparators are not strict orders, so the standard library gives no result to model when the sorted column has ties.
- The SQL store beyond the time window of its queries: it builds SQL text.
- Opening databases, month suffixes and table rollover: one service's database is a single ordered sequence of entries.
- Routing of reports and queries to handlers (`source/Business/EventRepos.cpp:163-201`): of its parameter checks, those that matter to a handler (a positive time, at least one event, positive settings) are conditions of the slot machine's steps; the rest is version and emptiness tests.
- Store.StoreLevelDB.VisitAt: a failed assertion is reported and the scan goes on; what the assertion macro does when it fails is decided by a library outside the repository.
- Store.StoreLevelDB.SelectByNone: the counter of visited lines is unbounded; the program keeps it in an int, which a scan of more than 2^31 records would overflow.
- Store.StoreLevelDB.SelectGrouped: the paths by timestamp and by tag are one method with the grouping key as a parameter, because their loops are the same; the lines of a group carry tag and time although the program fills in only the one grouped by.
- EventStats.NthElement: selection in place stands for the library's `nth_element`, whose permutation is unspecified; nothing but its contract is used.
- Writers.AnswerExact: percentiles are not part of it, because the summary averages stored percentiles; what holds of them is stated by Writers.AnswerPercentiles and OrderedRuns.AlwaysOrderedIff. It also asks for values that are int32 and at most 2^31 - 1 accepted events, so that the 32-bit accumulators hold the answer.
- Index.ScanIsFilter: asks for a query time up to 8999999999, so that stamps have ten digits; a query time never exceeds the clock (`source/Business/StoreLevelDB.cpp:643-648`), so this holds until the year 2255.
- Errors of LevelDB writes and of sockets other than missing bytes: they end the operation without an effect that could be stated.
- Socket timeouts and cancelled operations of the server connection.
- Framing.TcpConnAsync.ReadHandler: the return codes that ask for another parse of an incomplete header cannot occur on these paths and have no branch.
- The server's concurrent writer: the order of its blocks depends on the scheduling of the I/O library; the synchronous client writer is modelled instead.
- Delivery of reject statuses: rejects carry no service and opcode, which the client checks first.
- Trying to get a connection with a timeout, and the trimming of idle connections by age: trimming is modelled as removing any idle connection.
- ThreadPool.Pool.ResizeThreadPool: the outcome of waiting for a stopped thread is a parameter; immediate stop and join at shutdown, which do not maintain the size, are not modelled.
- Rpc.CallRpc: the timer that turns a failure into a timeout status is not modelled.
- Redis and MySQL connectors, configuration loading, logging, TLS, timers, HTTP pages.
