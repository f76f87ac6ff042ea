# laitos: a Dafny model of its stateful cores

laitos is a personal web server suite. It has no single algorithm at its centre; it has several small
components whose correctness spans functions, files or whole runs. This project models those components and
proves what they promise:

- **Reports over DNS.** A monitored computer flattens a status report into one string (`CompactReport`), turns
  it into letters and digits (`Dtmf`), and cuts it into DNS labels under a length budget (`DnsQuery`). The DNS
  daemon takes the name off the wire (`DnsWire`), glues the labels together, decodes them with a digit state
  machine and splits the text into fields again. `ReportDelivery` proves the whole path, for reports that fit a
  query and for reports that are cut off. `KeyPad` says what every sequence of key presses means to the decoder, and
  that every text can be typed.
- **The message processor.** `StoreAndForward` is its state machine: a bounded report history per host and expiry,
  compared with an unbounded history. `CommandMemory` compares its memory of the latest command per host with a
  log of everything that happens to it, and `CommandReplies` says what is answered. `ReportMerge` is the fair merge of the reports of all hosts, and
  `FairMerge` says when it returns the latest ones. `MessageProcessor` is the object with its methods.
- **Buffers, caches and limiters.** `LatestCommands` is the result cache of the DNS daemon as interleaved steps
  of any number of callers, and `CachePurges` and `CacheFreshness` hold its purges and the age of its results against
  the clock; `RateLimit`, `RingBuffer`, `RecurringCommands` and `ByteLog` are compared with
  histories of hits, pushes and writes over whole runs.
- **Transformations.** `Supervisor` (program flags and daemon shedding), `Blacklist` (sub-domain lookup), `OAuth`
  (signature base string) and `RetryingWriter` (chunked writes with retries).

`dafny verify dfyconfig.toml` checks everything.

## How the model is built

- Code that works in loops or on fields is a method or a class, proved equal to a function of its inputs; the
  theorems are lemmas about those functions and about runs of them.
- Automatic induction is switched off on every lemma; where a proof is by induction, the induction is written out.
- Strings are sequences of characters. Where the code works on bytes (`DnsWire`, `ByteLog`, `OAuth`), so does
  the model; a name extracted from a packet has one character per byte. Lengths of domain names are lengths in
  bytes, so domain names are ASCII.
- Integers are unbounded, except that the two numeric fields of a report are 64-bit, with the clamping of
  `strconv.Atoi`.
- Clock readings are inputs. `RateLimit` needs them in order; `StoreAndForward` takes every reading of a call as
  a separate value (arrival, one per subject during the expiry scan, one before a replay).
- The command processor is an input too: whatever a command returns is a parameter of the step that runs it.
- The iteration order of a Go map is an arbitrary choice in the model, so results hold for every order.
- The encoder and the decoder take their tables as parameters. `Dtmf.TablesMatch` proves that the tables of the
  original fit each other; besides that, the round-trip theorems only use that codes are letters and digits.

## Where the code gives less than its comments

- A label length of 45 or 47 to 57 on the wire is itself a visible character and is not turned into a full stop.
  `DnsWire.ExtractedExactly` and `DnsWire.QueryIntact` say exactly when a name survives.
- A write that crosses the end of the byte log is stored correctly only if it runs over the end by as much as
  fitted before it. `ByteLog.FaithfulExactly` states this as an equivalence on the lengths of the writes.
- The message processor says it returns the latest reports from all subjects, but it takes them round-robin, so a
  later report can be left behind for an early one (`ReportMerge.FairBeforeLatest`). `FairMerge.LatestExactly` says
  exactly when that cannot happen, in terms of the stored lists and the limit.
- Launch attempts beyond the last shedding copy original flags over the reduced ones, which can lose the
  configuration file (`Supervisor.LateRetryLosesConfig`). `Supervisor.LateRetriesExactly` says exactly when the
  reduced flags survive.
- The DNS result cache looks a command up and marks it under separate lock holds, so overlapping callers can run
  it twice (`LatestCommands.OverlapRunsTwice`). `LatestCommands.RunsTwiceExactly` says exactly in which states.
- A supervisor with repeated or several unknown daemon names indexes beyond its shed sequence or starts nothing in
  some attempt; `Supervisor.EveryAttemptLaunches` says exactly for which names every attempt starts a daemon.
- The retrying writer says it makes three attempts at each portion, but all portions share one counter of failed
  attempts.
- `SetOutgoingCommand` with an empty command does not remove the entry; it stores an empty command.
- `DeserialiseFromCompact` reports truncation for too many components as well as for too few.

## Model

| member | source | states |
|---|---|---|
| `Dtmf.CutWords` | toolbox/dtmf.go:50-91 | the first loop of the decoder cuts the digits into the words of the key-press machine |
| `Dtmf.PressKey` | toolbox/dtmf.go:53-86 | one key press ends and starts words as the switch does |
| `Dtmf.TranslateWords` | toolbox/dtmf.go:92-110 | the second loop translates the words, with the asterisk as shift key and unknown words skipped |
| `Dtmf.DTMFDecode` | toolbox/dtmf.go:35-111 | the decoded message is the translation of the words, whatever white space surrounds the digits |
| `KeyPad.WordsOfItems` | toolbox/dtmf.go:40-91 | the words of an input are those of its items: presses of one letter key, digit words that begin with 1, spaces and shifts, each ended by 0 or by what may follow it |
| `KeyPad.EveryInputTyped` | toolbox/dtmf.go:40-91 | every sequence of keys consists of such items |
| `KeyPad.MeaningOfInput` | toolbox/dtmf.go:34-111 | for every input: other characters are ignored, each item says the character of the table, in upper case behind an odd number of shifts, and unknown words say nothing |
| `KeyPad.TypedTextDecodes` | toolbox/dtmf.go:13-111 | every text of letters, numerals, symbols and spaces is read back from the keys that type it, with 0 only where it is needed and shifts around capitals |
| `Dtmf.MachineOnDigits` | toolbox/dtmf.go:50-110 | reading mixed text character by character agrees with decoding each maximal digit run on its own |
| `Dtmf.TablesMatch` | daemon/phonehome/dns_query_builder.go:16-27 | every code word, without its closing 0, is a word of the decoding table for the same character, and its proper prefixes mean decimal digits |
| `Dtmf.EncodeToDTMF` | daemon/phonehome/dns_query_builder.go:37-50 | letters stay, table characters become their codes, other characters are dropped |
| `Dtmf.MachineOnCode` | daemon/phonehome/dns_query_builder.go:11-27 | a code word is read back as its character whatever follows it |
| `Dtmf.DecodeEncode` | daemon/phonehome/dns_query_builder.go:29-50 | decoding undoes encoding on the encodable part of every text |
| `Dtmf.EncodedAlphabet` | daemon/phonehome/dns_query_builder.go:29-36 | encoded text is letters and digits only |
| `Dtmf.DecodeTruncated` | toolbox/dtmf.go:13-111 | every prefix of an encoding reads as a prefix of the text with at most one decimal digit behind it, and no character whose code is complete is missing |
| `DnsQuery.WriteLabels` | daemon/phonehome/dns_query_builder.go:65-81 | the loop writes the labels under the length budget |
| `DnsQuery.GetDNSQuery` | daemon/phonehome/dns_query_builder.go:57-84 | the query is the prefix, the labels of the encoded command and the domain |
| `DnsQuery.LabelsCarryLongestPrefix` | daemon/phonehome/dns_query_builder.go:61-81 | the labels carry the longest prefix of the encoded command that fits the capacity |
| `DnsQuery.LabelSizes` | daemon/phonehome/dns_query_builder.go:66-80 | labels are 1 to 60 characters long, and all but the last are 60 |
| `DnsQuery.DeliveredInFull` | daemon/phonehome/dns_query_builder.go:61-81 | the whole command is delivered exactly if it and its dots fit |
| `DnsQuery.QuerySize` | daemon/phonehome/dns_query_builder.go:61-83 | at most 249 characters for domains up to 246, no command label for longer domains |
| `DnsQuery.LintLabels` | daemon/dnsd/query.go:175-180 | labels are trimmed and empty ones dropped |
| `DnsQuery.LintExactly` | daemon/dnsd/query.go:174-180 | exactly the labels that are not blank, trimmed and in their order |
| `DnsQuery.CommandNamesOnly` | daemon/dnsd/query.go:171-185 | nothing is read but from names of 2 to 253 characters with the prefix and at least three labels |
| `DnsQuery.DecodeRuns` | daemon/dnsd/query.go:192-208 | the loop over digit runs computes the character-by-character reading |
| `DnsQuery.DecodeDTMFCommandInput` | daemon/dnsd/query.go:162-209 | length and prefix checks, at least three labels, and the reading of all but the last two joined |
| `DnsQuery.ReadQuery` | daemon/dnsd/query.go:171-208 | for every domain of two labels the reader decodes exactly the delivered part of the encoded command, digit runs across labels included |
| `DnsQuery.QueryRoundTrip` | daemon/dnsd/query.go:158-209 | every command that fits is recovered without its unencodable characters |
| `DnsQuery.EncodableRoundTrip` | daemon/dnsd/query.go:158-209 | every encodable command that fits is recovered unchanged |
| `DnsQuery.QueryTruncatedWith` | daemon/phonehome/dns_query_builder.go:52-84 | for every command and any fitting pair of tables the reader gets a prefix and at most one decimal digit, and every character delivered in full |
| `DnsQuery.QueryTruncated` | daemon/phonehome/dns_query_builder.go:52-84 | the same with the tables of the original |
| `DnsWire.RecoverFullStopSymbols` | daemon/dnsd/query.go:103-110 | every byte in place becomes its recovered form |
| `DnsWire.ExtractTextQueryInput` | daemon/dnsd/query.go:138-156 | the name before the first type and class field, recovered, or nothing for short, unmatched or long input |
| `DnsWire.ExtractedBounded` | daemon/dnsd/query.go:138-156 | no packet yields more than 255 characters, and none shorter than 14 bytes any |
| `DnsWire.FirstMagic` | daemon/dnsd/query.go:142-147 | the first match is the real type and class field of a well-formed question |
| `DnsWire.ExtractedName` | daemon/dnsd/query.go:103-156 | what is extracted from every well-formed text question, byte for byte |
| `DnsWire.ExtractedExactly` | daemon/dnsd/query.go:103-156 | the name is the labels joined by full stops exactly if no later label length is a visible character |
| `DnsWire.VisibleLengthWitness` | daemon/dnsd/query.go:106-107 | a label of 50 characters spoils the name |
| `DnsWire.QueryIntact` | daemon/dnsd/query.go:138-156 | a command query crosses the wire intact exactly if its last command label and the domain labels have invisible lengths |
| `DnsWire.QueryOverTheWire` | daemon/dnsd/query.go:138-209 | then the packet decodes to the delivered part of the command |
| `CompactReport.SubjectReportRequest.DeserialiseFromCompact` | toolbox/message_processor_struct.go:104-142 | each present component replaces its field, missing ones leave it alone; truncated unless nine components, nothing decoded for an empty host |
| `CompactReport.AtoiDecimal` | toolbox/message_processor_struct.go:92-134 | numbers survive printing and parsing |
| `CompactReport.RoundTripExactly` | toolbox/message_processor_struct.go:73-142 | deserialising undoes serialising exactly if no text contains the field separator and neither result nor comment the line separator |
| `CompactReport.CutCountsSeparators` | toolbox/message_processor_struct.go:100-105 | the number of whole fields before a cut is the number of field separators before it |
| `CompactReport.ReadTruncated` | toolbox/message_processor_struct.go:100-137 | from any prefix, as many fields are exact as there are separators before the cut, the cut text field is a prefix plus what follows the cut, a cut number is what its remaining numerals make, later fields are untouched, and truncation is reported exactly if a field is missing |
| `CompactReport.TruncationReported` | toolbox/message_processor_struct.go:105-137 | the truncation error is returned exactly for inputs without eight field separators |
| `ReportDelivery.KeptSerialised` | toolbox/message_processor_struct.go:73-96 | encoding drops the same characters from a serialised report as from its fields |
| `ReportDelivery.TransmittedUnchanged` | toolbox/message_processor_struct.go:73-96 | a report of encodable characters is transmitted as it is |
| `ReportDelivery.ReportDelivered` | daemon/phonehome/phonehome.go:193-196 | end to end, for every report without field separators: the reader gets every character of the command whose code was delivered, as many fields are exact as there are separators before that point, and the cut field is a prefix with at most one decimal digit |
| `ReportDelivery.FieldDelivered` | daemon/phonehome/phonehome.go:193-196 | a field whose code and separator are within the delivered part of the query arrives exactly |
| `ReportDelivery.ReportFromPacket` | daemon/dnsd/query.go:138-209 | the same delivery from the packet itself, if its label lengths are invisible |
| `ReportDelivery.ReportDeliveredInFull` | daemon/phonehome/phonehome.go:193-196 | a report whose command fits arrives whole |
| `StoreAndForward.ReportsAreLatest` | toolbox/message_processor.go:120-152 | in every reachable state a host is known exactly if it reported since it was first seen or last expired, and its list is the latest of those reports up to the limit |
| `StoreAndForward.TotalCounts` | toolbox/message_processor.go:148-152 | the scan counter is the number of accepted reports |
| `StoreAndForward.ReporterSurvives` | toolbox/message_processor.go:342-356 | the host that just reported survives the scan exactly if the clock did not jump by the expiry time |
| `StoreAndForward.CommandsHaveReports` | toolbox/message_processor.go:342-356 | hosts with a remembered command are among hosts with reports |
| `StoreAndForward.ListsAscending` | toolbox/message_processor.go:126-147 | with a clock that does not run backwards every stored list is in ascending order of time |
| `StoreAndForward.ExpiresExactly` | toolbox/message_processor.go:148-152 | any host is removed by a report exactly if a scan is due and its latest report is older than the expiry time |
| `StoreAndForward.HostName` | toolbox/message_processor.go:120-126 | a host is known by its name in lower case without the white space around it |
| `StoreAndForward.PendingIsLatest` | toolbox/message_processor.go:95-103 | the pending command of a host is the one set last, in any case of letters, until the host expires |
| `StoreAndForward.ExpiredHasNonePending` | toolbox/message_processor.go:342-356 | a host that expires loses its pending command |
| `CommandMemory.LogJustified` | toolbox/message_processor.go:174-253 | in every run the log tells of every host its latest report and its remembered execution; hosts expire only past the expiry time, executions are erased only past their retention time, and a command runs only if it is not remembered |
| `CommandMemory.RerunNeedsForgetting` | toolbox/message_processor.go:170-253 | between two executions of the same command for a host lies another command, an erasure past the retention time or an expiry past the expiry time |
| `CommandMemory.ErasedAtReading` | toolbox/message_processor.go:191-204 | every erasure happens at the clock reading of a call of its host |
| `CommandMemory.RepeatIsReplayed` | toolbox/message_processor.go:174-204 | a command repeated within the retention time, with no other command and no expiry in between, is answered from the memory and not executed |
| `CommandMemory.ReplayIsLatestRun` | toolbox/message_processor.go:185-204 | every replay carries the outcome of the latest execution and answers the command that was asked for |
| `CommandMemory.OverdueErased` | toolbox/message_processor.go:188-204 | a replay past the retention time, and no other, erases the run that it answers with |
| `CommandReplies.ExecutedByCall` | toolbox/message_processor.go:223-244 | every execution in a run belongs to a call of its host, with the command, arrival, output and duration of that call |
| `CommandReplies.ExecutionReplied` | toolbox/message_processor.go:174-250 | a call runs its command exactly if there is one, it is not remembered and not recursive; and then the reply carries its command, arrival, output and duration |
| `CommandReplies.MemoryReply` | toolbox/message_processor.go:185-204 | a report without a command, or with the remembered one, is answered with command, arrival, output and duration of the call whose execution is the host's latest and was not forgotten, and not at all if there is none |
| `CommandReplies.RefusalReplied` | toolbox/message_processor.go:174-217 | a recursive command is answered with the refusal and changes nothing; without a command processor there is no answer |
| `CommandReplies.RecursiveExactly` | toolbox/message_processor.go:37-38 | a command is recursive exactly if it contains the trigger, an opening brace and a quote with white space in between |
| `MessageProcessor.MessageProcessor.constructor` | toolbox/message_processor.go:369-377 | empty maps and the default limit |
| `MessageProcessor.MessageProcessor.SetOutgoingCommand` | toolbox/message_processor.go:95-103 | the pending command is stored under the lower-case host name |
| `MessageProcessor.MessageProcessor.RemoveExpiredSubjects` | toolbox/message_processor.go:342-356 | exactly the stale hosts disappear from the three maps |
| `MessageProcessor.MessageProcessor.RecordReport` | toolbox/message_processor.go:126-155 | the new report is appended, the oldest one evicted at the limit, the scan runs when it is due |
| `MessageProcessor.MessageProcessor.ProcessCommandRequest` | toolbox/message_processor.go:174-253 | replay, erase, refuse or run |
| `MessageProcessor.MessageProcessor.StoreReport` | toolbox/message_processor.go:120-168 | the new state, the pending command for the host and the answer to its command request; nothing for an empty host name |
| `MessageProcessor.MessageProcessor.GetLatestReportsFromSubject` | toolbox/message_processor.go:261-283 | the reversed tail of the host's list |
| `MessageProcessor.MessageProcessor.GetLatestReports` | toolbox/message_processor.go:291-336 | the fair merge over the stored reports |
| `MessageProcessor.ReverseByHalves` | toolbox/message_processor.go:277-280 | the swapping loop reverses |
| `ReportMerge.SortLatestFirst` | toolbox/message_processor.go:331-334 | a permutation sorted by descending time |
| `ReportMerge.Round` | toolbox/message_processor.go:310-329 | one round takes at most one report per subject, in any order, and keeps the picks fair |
| `ReportMerge.GetLatestReports` | toolbox/message_processor.go:291-336 | exactly min(limit, total) reports, latest first, the latest ones of each subject, and no subject with reports left gave two fewer than another |
| `ReportMerge.FairBeforeLatest` | toolbox/message_processor.go:285-330 | two reports from two subjects can leave out a later report for an early one |
| `FairMerge.NextSubjects` | toolbox/message_processor.go:310-325 | the subjects that a round has still to ask are exactly those with reports left that have given the fewest |
| `FairMerge.FairExactly` | toolbox/message_processor.go:305-330 | the numbers of reports taken are fair exactly if some visiting order leads to them |
| `FairMerge.TakenBetween` | toolbox/message_processor.go:305-330 | every visiting order takes all of the rounds that fit the limit and nothing beyond the next one |
| `FairMerge.MergeIsOutcome` | toolbox/message_processor.go:291-336 | what the merge picks is an outcome of a visiting order within the limit |
| `FairMerge.LatestExactly` | toolbox/message_processor.go:285-336 | no visiting order leaves behind a report later than one it takes, exactly if nothing beyond the full rounds is later than something within them, or within the next round if the limit goes into it |
| `FairMerge.LatestInRuns` | toolbox/message_processor.go:120-336 | that equivalence holds in every reachable state of a run whose clock does not run backwards |
| `LatestCommands.ReachableStates` | daemon/dnsd/latest_cmd.go:43-92 | in every reachable state a marker in progress has a caller running that command, and every cached or returned result comes from an execution of its command |
| `LatestCommands.MarkerResolves` | daemon/dnsd/latest_cmd.go:67-84 | in every interleaving that caller fills the marker in with its second step at the latest, and can take a next step until then |
| `LatestCommands.AtMostOncePerPurge` | daemon/dnsd/latest_cmd.go:37-84 | a command whose callers do not overlap runs at most once between purges, whatever other callers do |
| `LatestCommands.SingleCallerRunsOnce` | daemon/dnsd/latest_cmd.go:43-84 | with one caller every command runs at most once between purges |
| `LatestCommands.RunsTwiceExactly` | daemon/dnsd/latest_cmd.go:43-84 | from any state, some continuation without a purge or a new call runs a command twice exactly if two callers wait to mark or to execute it, or have still to look and find nothing |
| `LatestCommands.MarkedRuns` | daemon/dnsd/latest_cmd.go:45-71 | once a command is marked or cached, only callers that were about to mark or execute it run it before the next purge, each at most once, however many callers arrive |
| `LatestCommands.MarkedRunsOnce` | daemon/dnsd/latest_cmd.go:67-84 | a caller that marks a command alone is the only one to run it before the next purge |
| `LatestCommands.CachedWithinTTL` | daemon/dnsd/latest_cmd.go:37-66 | within the TTL a cached result is returned without another execution |
| `LatestCommands.OverlapRunsTwice` | daemon/dnsd/latest_cmd.go:45-71 | two overlapping callers can run a command twice without a purge |
| `CachePurges.PurgesApart` | daemon/dnsd/latest_cmd.go:29-35 | with one caller and a clock that does not run backwards, two purges are more than the TTL apart |
| `CachePurges.PurgedBetween` | daemon/dnsd/latest_cmd.go:43-84 | between two executions of a command by one caller there is a purge |
| `CachePurges.ThreeRunsTakeTTL` | daemon/dnsd/latest_cmd.go:10-84 | three executions of a command by one caller take more than the TTL |
| `CacheFreshness.RenewedResult` | daemon/dnsd/latest_cmd.go:29-84 | with one caller, the result of a call that finds the TTL since the latest purge over comes from an execution in that call |
| `CacheFreshness.ResultsSinceStamp` | daemon/dnsd/latest_cmd.go:29-84 | with one caller, every cached or returned result was executed since the latest purge |
| `CacheFreshness.FreshResult` | daemon/dnsd/latest_cmd.go:10-84 | so a result returned without an execution was executed since the latest purge, and the call found the TTL since that purge not over |
| `RateLimit.Rescale` | misc/ratelimit.go:33-42 | a limit per second becomes the same rate over the largest of the factors that divides it |
| `RateLimit.RateLimiter.Initialise` | misc/ratelimit.go:26-43 | useless limits are refused, others keep their rate |
| `RateLimit.RateLimiter.Add` | misc/ratelimit.go:46-70 | the new window, and whether the hit is accepted |
| `RateLimit.RateBound` | misc/ratelimit.go:10-14 | in any run, a span of m units contains at most (m + 1) times the limit of accepted hits per actor |
| `RateLimit.RefusedOnlyWhenBusy` | misc/ratelimit.go:45-70 | a hit is refused only if its actor had the full limit accepted less than one unit ago |
| `RingBuffer.RingBuffer.Push` | lalog/ring_buffer.go:26-29 | the element becomes the latest of the history |
| `RingBuffer.RingBuffer.Clear` | lalog/ring_buffer.go:35-37 | the history is empty again |
| `RingBuffer.RingBuffer.IterateReverse` | lalog/ring_buffer.go:44-62 | the function is fed non-empty elements from the latest to the oldest until it declines |
| `RingBuffer.FedExactly` | lalog/ring_buffer.go:39-62 | a beginning of the non-empty elements, up to and including the first at which the function declines |
| `RingBuffer.FeedDown` | lalog/ring_buffer.go:46-53 | one of its loops: the slots are fed downwards until the function declines |
| `RingBuffer.RingBuffer.GetAll` | lalog/ring_buffer.go:65-77 | oldest first, the non-empty strings among the last pushes since the last clearing |
| `RecurringCommands.RecurringCommands.RunAllCommands` | daemon/common/recurring_cmds.go:87-114 | results of the pre-configured, then of the transient commands are pushed |
| `RecurringCommands.RecurringCommands.AddArbitraryTextToResult` | daemon/common/recurring_cmds.go:156-159 | the text is pushed |
| `RecurringCommands.RecurringCommands.GetResults` | daemon/common/recurring_cmds.go:162-168 | the latest results are returned and cleared |
| `RecurringCommands.DeliveredOnce` | daemon/common/recurring_cmds.go:156-168 | all results fetched in a run are a subsequence of the pushes, each push at most once |
| `RecurringCommands.DeliveredCompletely` | daemon/common/recurring_cmds.go:156-168 | every non-empty push is fetched exactly if no fetch finds one overwritten |
| `RecurringCommands.TimelyFetchesLoseNothing` | daemon/common/recurring_cmds.go:27-28 | nothing is lost if at most MaxResults pushes fall between fetches |
| `ByteLog.ByteLogWriter.Enlarge` | lalog/byte_log_writer.go:43-66 | doubling terminates and pads the buffer to the length it needs |
| `ByteLog.ByteLogWriter.EnsureSize` | lalog/byte_log_writer.go:36-67 | size and buffer large enough for the write, within the capacity |
| `ByteLog.ByteLogWriter.Absorb` | lalog/byte_log_writer.go:70-93 | the buffer, position and size after a write |
| `ByteLog.ByteLogWriter.Retrieve` | lalog/byte_log_writer.go:96-121 | the rotated buffer, optionally with other than printable bytes replaced |
| `ByteLog.RunKeepsLength` | lalog/byte_log_writer.go:36-121 | in every run the position stays in range and min(written, MaxBytes) bytes are kept |
| `ByteLog.FaithfulExactly` | lalog/byte_log_writer.go:69-121 | the log holds the latest bytes after every write, for all bytes, exactly if each crossing write runs over the end by as much as fitted before it |
| `Supervisor.RemoveFromFlags` | launcher/supervisor.go:83-109 | what the loop with its two switches keeps |
| `Supervisor.RemovedExactly` | launcher/supervisor.go:79-109 | on every list of flags: values before the first flag go, a deleted flag takes its values along unless it carries one itself |
| `Supervisor.ParseFlags` | launcher/supervisor.go:83-87 | every list of flags has the shape that the previous row speaks of |
| `Supervisor.RemovedOptions` | launcher/supervisor.go:79-109 | on lists of options, removal is filtering |
| `Supervisor.ShedOne` | launcher/supervisor.go:155-164 | one round drops a daemon and tells whether it was there |
| `Supervisor.BuildShedSequence` | launcher/supervisor.go:147-169 | the nested loops build the shed sequence |
| `Supervisor.ShedExactly` | launcher/supervisor.go:125-169 | one non-empty entry fewer than daemons exactly if the names are distinct and at most one is not in the shed order |
| `Supervisor.RoundsNested` | launcher/supervisor.go:150-169 | each entry is the previous one without the remaining daemon that comes earliest in the shed order |
| `Supervisor.NeverShed` | launcher/supervisor.go:64-77 | a daemon outside the shed order stays in every entry |
| `Supervisor.Supervisor.Initialise` | launcher/supervisor.go:136-170 | the daemon flags are removed and the shed sequence is built |
| `Supervisor.Supervisor.GetLaunchParameters` | launcher/supervisor.go:289-325 | flags and daemons of every attempt, or none where the index would be out of range |
| `Supervisor.EveryAttemptLaunches` | launcher/supervisor.go:312-315 | every attempt has daemons to start exactly if the names are distinct and at most one is not in the shed order |
| `Supervisor.AutoUnlockStays` | launcher/supervisor.go:64-77 | autounlock, if asked for, is among the daemons of every attempt |
| `Supervisor.FirstLaunch` | launcher/supervisor.go:289-324 | the normal start passes on every option but those for daemons and supervisor, in their order, and starts all daemons without a supervisor |
| `Supervisor.RetryLaunch` | launcher/supervisor.go:296-324 | every retry passes on the options for the configuration file alone, or after the last shedding as many original flags, without a supervisor and with the daemons of the attempt |
| `Supervisor.DaemonsOfAttempt` | launcher/supervisor.go:312-320 | for names that can be shed, all daemons at first and after the last shedding, and in between one fewer each time |
| `Supervisor.RetriesAreReduced` | launcher/supervisor.go:303-311 | retries up to one after the last shedding keep no flag but the configuration |
| `Supervisor.LateRetriesAreNot` | launcher/supervisor.go:316-320 | later ones get as many of the original flags, from the beginning, as there are reduced ones |
| `Supervisor.LateRetriesExactly` | launcher/supervisor.go:303-320 | on lists of options they keep the configuration alone exactly if no option for it comes after another option |
| `Supervisor.LateRetryLosesConfig` | launcher/supervisor.go:316-320 | a list of two options for which the configuration file is lost |
| `OAuth.PercentEncode` | inet/oauth.go:48-60 | unreserved bytes stay, others become two upper-case hex digits |
| `OAuth.DecodeEncoded` | inet/oauth.go:47-60 | percent encoding is reversible |
| `OAuth.EncodeParameters` | inet/oauth.go:114-120 | keys and values encoded, one entry per parameter, for every map order |
| `OAuth.PercentEncodedByte` | inet/oauth.go:47-60 | letters, numerals and four marks stay, any other byte becomes a percent sign and two upper-case hex digits |
| `OAuth.LessExactly` | inet/oauth.go:133-133 | the comparison of keys is the byte order: a proper prefix, or the smaller byte where they first differ |
| `OAuth.SortParameters` | inet/oauth.go:124-139 | all pairs, in the byte order of the encoded keys |
| `OAuth.ParameterPairs` | inet/oauth.go:182-182 | the encoded pairs in canonical order |
| `OAuth.SignatureBase` | inet/oauth.go:179-186 | upper-cased method, encoded URL and encoded parameter string over the canonical order of the parameters, for every map order |
| `OAuth.CanonicalUnique` | inet/oauth.go:122-139 | the canonical order does not depend on map iteration |
| `OAuth.BaseStringRead` | inet/oauth.go:176-186 | a reader gets the upper-cased method, the URL and every parameter as key and value, in the byte order of the encoded keys |
| `OAuth.BaseStringInjective` | inet/oauth.go:176-186 | the base string determines the upper-cased method, the URL and the parameters |
| `Blacklist.IsInBlacklist` | daemon/dnsd/dnsd.go:380-415 | true exactly for over-long names, listed names and names with a listed parent of at least four characters |
| `Blacklist.NormalisedName` | daemon/dnsd/dnsd.go:385-386 | case and surrounding white space of a name do not matter |
| `Blacklist.CollectCandidates` | daemon/dnsd/dnsd.go:391-406 | the loop terminates and collects the name and its stripped forms |
| `Blacklist.AnyListed` | daemon/dnsd/dnsd.go:410-415 | true exactly if a candidate is listed |
| `Blacklist.StrippedAreParents` | daemon/dnsd/dnsd.go:393-406 | the stripped candidates are the suffixes at label boundaries before the first empty label |
| `Blacklist.ParentsOfPlainNames` | daemon/dnsd/dnsd.go:376-406 | in names without empty labels every label boundary counts |
| `Blacklist.SubdomainsBlocked` | daemon/dnsd/dnsd.go:376-379 | sub-domains of a blocked name of at least four characters are blocked |
| `RetryingWriter.SendPortion` | daemon/sockd/quirky.go:73-90 | a portion is sent whole, or an error is left and nothing more will be sent; it ends early only by an attempt that broke the connection or failed after part of its data |
| `RetryingWriter.WriteWithRetry` | daemon/sockd/quirky.go:61-98 | for every behaviour of the connection the sent bytes are a prefix of the buffer; no error means all of it was sent and counted, nothing but a partly sent portion goes uncounted, and for a non-empty buffer the converse holds; an error comes only after three failed attempts or one that broke the connection or failed after part of its data |

## Left out

- Sockets, HTTP, SMTP, process launching, the browser and VM controls and the toolbox apps: plumbing around other
  systems, with nothing to prove against.
- Passwords, filters and app dispatch of the command processor: commands are a step that returns some result.
- Concurrent calls of the message processor: its methods run one after another here. The code checks and updates
  the command memory under separate lock holds, so the replay theorems are about sequential runs.
- Unicode case folding: lower and upper case are ASCII.
- Sub-second parts of the time in a report: the compact format drops them, and the model's reports have none.
- Logging, including the nil map that the rate limiter would write to if the clock were below one unit after the epoch.
- Overflow of the ring buffer counter and of the rescaled limit.
- Negative capacities of the byte log, which make the original panic, and the forwarding of its bytes.
- The base URI of a signature request and the collection of its parameters: both are inputs.
- Response packets of the DNS daemon and extraction of names from address queries.
- LatestCommands.AtMostOncePerPurge: needs that the callers of the command do not overlap;
  `LatestCommands.RunsTwiceExactly` is the equivalence.
- CachePurges.PurgesApart: needs a single caller; two callers that both find the TTL over purge one after the other.
- CommandMemory.RepeatIsReplayed: covers a processor that may run commands; without one nothing is executed.
- StoreAndForward.CommandsHaveReports: needs that no call lasts as long as the expiry time; otherwise the host is
  removed and its command remembered in the same call.
