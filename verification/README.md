# A verified model of the IPFIXcol2 core

This project models the parts of the IPFIXcol2 collector in which most can go wrong, and proves what
they are for. `dafny verify dfyconfig.toml` checks it.

**NetFlow v9 translator.** A template is compiled to an IPFIX template and a coalesced list of copy and
timestamp instructions; records are run through that list. `Nf9Parsers` has the three iterators,
`Nf9Templates` the compiler and its meaning, `Nf9Trec` the compiled records and a decoder for templates as
sections 3.2, 3.4.1 and 3.4.2.2 of RFC 7011 define them, `Nf9Table` the two-level cache, `Nf9Spec` what
converting a message means without cache, buffer and fixed-width counters, `Nf9Converter` the converter as
it runs (buffer with reserve, commit, rollback and back-patching). `Nf9Theorems` has a strict collector that
knows only RFC 7011 and what it reads out of one message, `Nf9Runs` whole runs with rejected messages among
them, `Nf9Bytes` what these come to in the bytes of headers and fields, `Nf9Acceptance` exactly which
messages are converted, `Nf9Forms` templates as the protocols write them, and `Nf9Examples` single templates
and messages, some of which the converter does not treat as one might expect. `SeqTrack` compares the 32-bit
sequence trackers of converter and parser with unbounded ones.

**NetFlow v5 translator.** `Nf5Spec`, `Nf5Theorems`, `Nf5Bytes` and `Nf5Converter` do the same for the fixed
template with its refresh timer.

**Ring buffer.** `RingModel` is the ring with indices that never overflow, one step per atomic operation,
mutex region or access to shared data; it refines a FIFO queue in every interleaving and makes progress.
`RingBuffer` is the same with 32-bit indices that do overflow; each of its methods is one step.
`RingWriters` adds any number of writers that take the spin lock.

**Pipeline.** `Pipeline` is one state machine of all threads (inputs, parsers, intermediate plugins, output
manager, outputs, configurator) for any number of each, over FIFO queues. `PipelineLines` proves order,
garbage safety and reference counting, `PipelineInput` that nothing is lost before the shared rings and
`PipelineDelivery` what gets from there to each output. `PipelineTerm` proves the termination protocol and
`PipelineStop` what a request to stop leads to, `PipelinePeriodic` the merge of periodic messages and
`PipelineRounds` what it comes to over runs. `PipelineCode` has the imperative code behind the steps,
`ParserPlugin` that of the parser instance and what it does to sessions over any sequence of messages.

**Tables and allocators.** `SortedTable` and `ParserTables` (session and stream tables of the parser),
`Extensions` (registration and layout of Data Record extensions), `MsgIpfix` (sets and records of a
message), `OdidRange` (the filter of Observation Domain IDs). `Arith` and `Bytes` are helpers.

A class has the fields of the structure it stands for, and its methods are proved against functions of
the old state; theorems are about those functions and hold for all inputs, runs or reachable states. The
steps of the state machines are as fine as the synchronization of the source: other threads may do
anything between two of them.

## Where code and promise differ

- The 16-bit size of an emitted template is exact if and only if its encoding is shorter than 2^16 bytes
  (`Nf9Trec.TemplateRoundTrip`); a template of 8192 fields with enterprise numbers loses all but 4 bytes
  (`Nf9Trec.OversizedTemplate`).
- The limit 65515 for the content of a set is compared with the size of the set including its header, so
  that sets of 65516 to 65519 bytes are rejected although they fit a message (`Nf9Examples.FittingSetRejected`);
  exactly which Data FlowSets are converted is `Nf9Theorems.DsetExact`.
- A message that is rejected leaves its templates in the converter, though no collector has seen them. The
  next message may be converted with one of them and be unreadable (`Nf9Examples.RejectedTemplateIsMissed`);
  exactly which runs can be read is `Nf9Runs.RunFaithful`.
- Periodic rounds are counted in 32 bits by the configurator and in 64 bits by every thread: a parser
  passes round r if and only if r < 2^32 (`PipelinePeriodic.ParserPasses`). Round 2^32 is reached and dropped
  (`PipelineRounds.RoundDropped`), and no run passes anything from there on (`PipelineRounds.NothingBeyond`).
- A number in a filter expression may be negative as `strtoul` reads it: exactly which are accepted is
  `OdidRange.NumberForms`, and `0--18446744073709551615` is 0-1 (`OdidRange.HugeUpperBound`). An expression
  of commas only is accepted and admits nothing.
- A session that sent a malformed message is to be blocked until its connection is closed
  (`src/core/plugin_parser.c:178-179`). The code blocks the domains known at that time
  (`ParserPlugin.DeniedExactly`); the same connection is heard again under another one
  (`ParserPlugin.NewDomainHeard`).

## Model

| member | source | states |
|---|---|---|
| Nf9Parsers.SetsIter.Next | src/core/netflow2ipfix/netflow9_parsers.c:73-109 | one call returns the next set, the end, or the first of the three errors, exactly as the walk over the remaining bytes says |
| Nf9Parsers.SetsTile | src/core/netflow2ipfix/netflow9_parsers.c:73-109 | returned sets are whole sets, form a prefix of the body and, at the end of content, all of it |
| Nf9Parsers.SetsComplete | src/core/netflow2ipfix/netflow9_parsers.c:73-109 | every concatenation of sets is read back exactly, so success means that the body is a sequence of sets |
| Nf9Parsers.DsetIter.Next | src/core/netflow2ipfix/netflow9_parsers.c:125-163 | the next record, the end, or the error of a set too small for one record |
| Nf9Parsers.RecsTile | src/core/netflow2ipfix/netflow9_parsers.c:147-163 | exactly floor(content / record size) contiguous records, with less than one record of padding |
| Nf9Parsers.TsetIter.Next | src/core/netflow2ipfix/netflow9_parsers.c:204-303 | the next accepted (Options) Template record with its field and scope counts, the end, or the first error in order |
| Nf9Parsers.TsetIter.Check | src/core/netflow2ipfix/netflow9_parsers.c:218-287 | the checks on one template record agree with the specification, error by error |
| Nf9Parsers.TsetIter.DataSize | src/core/netflow2ipfix/netflow9_parsers.c:272-288 | the loop over field lengths computes the record size without leaving 32 bits |
| Nf9Parsers.TmpltsTile | src/core/netflow2ipfix/netflow9_parsers.c:204-303 | template records stay inside the set, with less than 8 (or 10) bytes left over at the end of content |
| Nf9Parsers.TmpltsComplete | src/core/netflow2ipfix/netflow9_parsers.c:204-303 | any accepted records followed by such padding are read back exactly |
| Nf9Parsers.RecLocal | src/core/netflow2ipfix/netflow9_parsers.c:204-303 | what a template record says does not depend on the bytes after it |
| Nf9Forms.TemplateRead | src/core/netflow2ipfix/netflow9_parsers.c:204-303 | the bytes of a template with any ID and fields are read back as it, and accepted exactly with an ID from 256, a field, and records of 1 to 65511 bytes |
| Nf9Forms.OptionsRead | src/core/netflow2ipfix/netflow9_parsers.c:204-303 | so is an Options Template of n scope and m option fields, with scope count n and n + m fields |
| Nf9Forms.AcceptedForm | src/core/netflow2ipfix/netflow9_parsers.c:204-303 | every accepted record has that form |
| Nf9Forms.SpecifierOf | src/core/netflow2ipfix/netflow9.c:606-698 | the IPFIX specifier of every NetFlow field, in numbers |
| Nf9Templates.TablesAgree | src/core/netflow2ipfix/netflow9.c:406-441 | the two lookup tables say exactly which IPFIX specifier, if any, stands for a NetFlow field |
| Nf9Templates.NfIdRecoverable | src/core/netflow2ipfix/netflow9.c:628-690 | the NetFlow field ID can be recovered from the IPFIX ID and enterprise number |
| Nf9Templates.TsMeaning | src/core/netflow2ipfix/netflow9.c:932-939 | the two wrap-arounds of the timestamp conversion are one: seconds * 1000 - uptime + timestamp modulo 2^64 |
| Nf9Templates.CompileTemplate | src/core/netflow2ipfix/netflow9.c:577-724 | compilation succeeds exactly for convertible templates and emits the encoding of their specifiers and the sum of their lengths |
| Nf9Templates.CompileLengths | src/core/netflow2ipfix/netflow9.c:577-724 | the coalesced instructions read the NetFlow record length and write the IPFIX record length |
| Nf9Templates.CompileCorrect | src/core/netflow2ipfix/netflow9.c:577-724 | meaning preservation: the coalesced program writes what converting every field on its own writes |
| Nf9Trec.InstrVec.Add | src/core/netflow2ipfix/netflow9_templates.c:136-155 | the growing vector appends one instruction and keeps the others |
| Nf9Trec.ConvTmpltProcess | src/core/netflow2ipfix/netflow9.c:577-724 | the compiler as it runs yields the record of the specification, refused or converted |
| Nf9Trec.ProcessField | src/core/netflow2ipfix/netflow9.c:606-698 | one round of the loop over field definitions |
| Nf9Trec.DropCondition | src/core/netflow2ipfix/netflow9.c:577-724 | exactly which templates are refused: no scope, an inconvertible field, or a record too long for a message |
| Nf9Trec.RecordConversion | src/core/netflow2ipfix/netflow9.c:953-994 | for every compiled template and record: consumes and writes exactly the announced lengths and equals field-by-field conversion |
| Nf9Trec.FieldAtOffset | src/core/netflow2ipfix/netflow9.c:932-994 | each field, read at the offset the IPFIX template gives, is the conversion of the bytes at the NetFlow offset |
| Nf9Trec.TemplateRoundTrip | src/core/netflow2ipfix/netflow9.c:531-724 | decoding the emitted template gives the translated one, if and only if its encoding is shorter than 2^16 bytes, which 8191 fields guarantee; the worst-case buffer is never exceeded |
| Nf9Trec.SpecifiersFaithful | src/core/netflow2ipfix/netflow9.c:606-698 | no specifier has the variable-length marker 65535, and every NetFlow ID is recoverable |
| Nf9Trec.OversizedTemplate | src/core/netflow2ipfix/netflow9.c:710-713 | a template of 8192 fields whose 16-bit size truncates to 4 bytes |
| Nf9Trec.EncodedSizeIs | src/core/netflow2ipfix/netflow9.c:706-714 | the size of the emitted template follows from the NetFlow one, and up to 8191 fields it is below 2^16 |
| Nf9Table.L1Table.Find | src/core/netflow2ipfix/netflow9_templates.c:53-65 | the two-level table looks up like a map with 16-bit keys |
| Nf9Table.L1Table.Insert | src/core/netflow2ipfix/netflow9_templates.c:67-91 | insertion updates that map at one key, creating the second level when needed |
| Nf9Spec.DefineCoherent | src/core/netflow2ipfix/netflow9.c:742-800 | every table entry stays the compilation of its own stored template |
| Nf9Spec.DsetOutcome | src/core/netflow2ipfix/netflow9.c:1008-1083 | what a Data FlowSet comes to: skipped, counted with a divisor that is never 0, or converted; and exactly when it fails |
| Nf9Spec.MsgBounds | src/core/netflow2ipfix/netflow9.c:1099-1153 | the table stays coherent, sets fit 16-bit lengths, and no more records are counted than there are bytes |
| Nf9Converter.MsgBuffer.Reserve | src/core/netflow2ipfix/netflow9.c:293-315 | growth makes room and keeps the committed prefix |
| Nf9Converter.MsgBuffer.Commit | src/core/netflow2ipfix/netflow9.c:325-331 | the committed bytes grow by what was written behind them |
| Nf9Converter.MsgBuffer.PosSet | src/core/netflow2ipfix/netflow9.c:391-397 | rollback cuts the committed bytes |
| Nf9Converter.MsgBuffer.PatchSetHdr | src/core/netflow2ipfix/netflow9.c:918-922 | back-patching a set header changes its four bytes only |
| Nf9Converter.MsgBuffer.FillHeader | src/core/netflow2ipfix/netflow9.c:1257-1263 | the message header is filled in front of the unchanged sets |
| Nf9Converter.KnownTemplate | src/core/netflow2ipfix/netflow9.c:487-508 | cache agreement: an entry with the same type and bytes is what recompiling would store |
| Nf9Converter.Converter.TmpltFromTable | src/core/netflow2ipfix/netflow9.c:487-508 | answered from the table exactly when type and bytes match, appending what recompiling would append |
| Nf9Converter.Converter.TmpltFromData | src/core/netflow2ipfix/netflow9.c:742-800 | compiles, stores and appends; a refused template is stored and not appended |
| Nf9Converter.Converter.ProcessTset | src/core/netflow2ipfix/netflow9.c:816-924 | a Template FlowSet changes table, buffer and counters as specified; an empty set takes its header back |
| Nf9Converter.Converter.ProcessDrec | src/core/netflow2ipfix/netflow9.c:953-994 | the interpreter appends exactly the execution of the instructions on the record |
| Nf9Converter.Converter.ProcessDset | src/core/netflow2ipfix/netflow9.c:1008-1083 | a Data FlowSet changes buffer and counters as specified |
| Nf9Converter.Converter.ProcessMsg | src/core/netflow2ipfix/netflow9.c:1099-1153 | all FlowSets of a message; the 16-bit counters never wrap |
| Nf9Converter.Converter.TrackSequence | src/core/netflow2ipfix/netflow9.c:1202-1231 | the expected NetFlow number after a message |
| Nf9Converter.Converter.Process | src/core/netflow2ipfix/netflow9.c:1177-1272 | a whole message in place equals the specification; on failure wrapper and next sequence number are unchanged |
| Nf9Theorems.TranslationLen | src/core/netflow2ipfix/netflow9.c:706-714 | the emitted template announces the length the converter writes, which is not zero |
| Nf9Theorems.DefineReceived | src/core/netflow2ipfix/netflow9.c:816-924 | the bytes of a Template Set decode to the translations of its accepted templates, in order, when each is shorter than 2^16 bytes |
| Nf9Theorems.DsetDirect | src/core/netflow2ipfix/netflow9.c:1008-1083 | running the instructions over a Data FlowSet is the field-by-field translation of its records |
| Nf9Theorems.TsetUnderstood | src/core/netflow2ipfix/netflow9.c:816-924 | a converted Template FlowSet teaches a collector exactly the translations of its accepted templates if and only if each of them is shorter than 2^16 bytes |
| Nf9Theorems.DsetExact | src/core/netflow2ipfix/netflow9.c:1008-1083 | a Data FlowSet with an accepted template is converted if and only if it has a record and records * length + 4 is at most 65515; then with so many records and bytes |
| Nf9Examples.FittingSetRejected | src/core/netflow2ipfix/netflow9.c:1056-1069 | a Data FlowSet of 65512 bytes is rejected, although the message would have 65532 bytes |
| Nf9Acceptance.ConvertedExactly | src/core/netflow2ipfix/netflow9.c:1099-1272 | a message is converted if and only if it is a whole NetFlow v9 message, all FlowSets can be read, every new set is at most 65515 bytes long, and the result at most 65535 |
| Nf9Examples.TemplateBytes | src/core/netflow2ipfix/netflow9.c:577-724 | a Template Record of 4 fields and the 28 bytes it becomes |
| Nf9Examples.OptionsBytes | src/core/netflow2ipfix/netflow9.c:531-724 | an Options Template with 2 scope fields and the 18 bytes it becomes |
| Nf9Theorems.BodyReceived | src/core/netflow2ipfix/netflow9.c:1099-1153 | a receiver reads the direct translation out of the sets of a converted message if and only if it holds the right template at each Data Set |
| Nf9Theorems.BodyDirect | src/core/netflow2ipfix/netflow9.c:1099-1153 | what the converter wrote is the direct translation under the latest definition of every template ID |
| Nf9Theorems.MessageWellFormed | src/core/netflow2ipfix/netflow9.c:1243-1271 | version 10, length field equal to the committed size, and sets that tile the rest exactly |
| Nf9Theorems.MessageFaithful | src/core/netflow2ipfix/netflow9.c:1177-1272 | end to end: a receiver reads the direct translation of the NetFlow message, records and templates, if and only if it holds the templates in force |
| Nf9Bytes.SwitchTimes | src/core/netflow2ipfix/netflow9.c:932-939 | FIRST_SWITCHED or LAST_SWITCHED equal to the uptime in the header becomes 1000 times the export time in the emitted header; d milliseconds later is d greater modulo 2^64 |
| Nf9Bytes.MessageTranslates | src/core/netflow2ipfix/netflow9.c:1177-1272 | byte for byte what a receiver that holds the templates reads: every record of every Data FlowSet, each field at its place, copied or moved in time |
| Nf9Runs.MessageDefines | src/core/netflow2ipfix/netflow9.c:1099-1153 | after any message, converted or rejected, the stored definitions are those before it, changed in order by the template records that were read |
| Nf9Runs.RunNumbered | src/core/netflow2ipfix/netflow9.c:1233-1265 | over every run, whatever is rejected: each emitted message carries the number of Data Records in all earlier emitted ones modulo 2^32, and the direct translation of its own under the latest stored definitions |
| Nf9Bytes.RunTranslates | src/core/netflow2ipfix/netflow9.c:1177-1272 | over every run, whatever is rejected: each emitted message carries, byte for byte, the records of the message it was made from |
| Nf9Runs.ParserExpects | src/core/parser.c:1259-1340 | over every run, whatever is rejected, the number of each emitted message is the one the parser expects after those before |
| Nf9Runs.RunFaithful | src/core/netflow2ipfix/netflow9.c:1177-1272 | over whole runs, with rejected messages: a strict collector, which checks every number against the records it has read, accepts all messages and recovers all records and their templates if and only if it has heard every definition in force |
| Nf9Runs.AgreeReads | src/core/netflow2ipfix/netflow9.c:1099-1153 | a receiver that holds the translation of every definition can read the next message, and holds them all afterwards |
| Nf9Runs.CleanReadable | src/core/netflow2ipfix/netflow9.c:1177-1272 | so it can read every run in which rejected messages change no definition |
| Nf9Runs.CleanWithoutTemplates | src/core/netflow2ipfix/netflow9.c:1099-1153 | which is so when rejected messages have no Template FlowSet in front of what is wrong with them |
| Nf9Examples.RejectedTemplateIsMissed | src/core/netflow2ipfix/netflow9.c:1243-1250 | a rejected message leaves a template behind, and the collector cannot read the next message |
| SeqTrack.SerialOrder | src/core/netflow2ipfix/netflow9.c:1163-1175 | the sign bit of the 32-bit difference orders numbers less than 2^31 apart correctly |
| SeqTrack.TrackStepExact | src/core/netflow2ipfix/netflow9.c:1202-1231 | exactly when one step of the 32-bit tracker is the step of the unbounded one |
| SeqTrack.TrackerFaithful | src/core/netflow2ipfix/netflow9.c:1163-1231 | over any run within the window the tracker is the unbounded maximum modulo 2^32 |
| SeqTrack.TrueIsMaximum | src/core/netflow2ipfix/netflow9.c:1163-1231 | the unbounded tracker is one more than the largest number seen |
| Nf9Runs.MessagesTracked | src/core/netflow2ipfix/netflow9.c:1177-1231 | over every run of messages, rejected or not, the expected number is that of the unbounded tracker for the numbers in bytes 12 to 16 of their headers |
| SeqTrack.StreamInfo.Check | src/core/parser.c:1259-1281 | the check of the parser: first, newer, expected or older message |
| SeqTrack.StreamInfo.Process | src/core/parser.c:1259-1340 | check and, for fully parsed messages only, advance by the Data Records |
| SeqTrack.ParserFaithful | src/core/parser.c:1259-1340 | the tracker of the parser equals the unbounded one modulo 2^32, also across messages that fail to parse |
| SeqTrack.InOrderExpected | src/core/parser.c:1259-1340 | what an exporter sends in order is always the expected number |
| RingModel.WriterRefines | src/core/ring.c:320-374 | a push takes effect at the advance of the writer index and appends to the queue; nothing else does |
| RingModel.StoreIsFree | src/core/ring.c:320-374 | the slot being written holds no queued message and not the one the reader still uses |
| RingModel.ReaderRefines | src/core/ring.c:395-454 | a pop takes the oldest message; synchronizing, waiting and stealing change no queue |
| RingModel.RunRefines | src/core/ring.c:376-454 | over every interleaving: what was there and pushed is what was popped and is left, in order |
| RingModel.PoppedArePrefix | src/core/ring.c:376-454 | from the empty ring the popped sequence is always a prefix of the pushed one |
| RingModel.NeverBothBlocked | src/core/ring.c:326-345 | no reachable state has both sides blocked, for every size from 1 |
| RingModel.BlockedRunBound | src/core/ring.c:411-454 | however the threads interleave, a blocked writer sees at most a bounded number of reader steps and max(1, size/8) pops |
| RingModel.WriterReleased | src/core/ring.c:411-454 | a reader that keeps popping releases a blocked writer, and every pop until then succeeds |
| RingModel.StealSucceeds | src/core/ring.c:430-453 | a waiting reader gets a message within two steps when there is one, by stealing the writer index at worst |
| RingModel.PushGoesOn | src/core/ring.c:320-374 | a push ends after at most five steps of the writer, unless it finds no free slot |
| RingModel.WaitsWhenFull | src/core/ring.c:326-345 | a writer waits only if all slots are taken, but for at most max(1, size/8) that were released since the last synchronization |
| RingBuffer.WrapDiff | src/core/ring.c:326-345 | unsigned 32-bit differences of overflowing indices are the true differences |
| RingBuffer.Buffer.BeginCheck | src/core/ring.c:320-329 | the check for space without the mutex |
| RingBuffer.Buffer.BeginSync | src/core/ring.c:331-343 | one round of the synchronization of a full ring |
| RingBuffer.Buffer.Store | src/core/ring.c:385-386 | the message is stored in the slot |
| RingBuffer.Buffer.CommitAdd | src/core/ring.c:351-365 | the atomic advance of the writer index, and whether to synchronize |
| RingBuffer.Buffer.CommitSync | src/core/ring.c:366-373 | the writer publishes its index and learns the free space |
| RingBuffer.Buffer.Advance | src/core/ring.c:395-410 | the previous message is released, and whether to synchronize |
| RingBuffer.Buffer.PopSync | src/core/ring.c:411-418 | the reader publishes the free space and learns the writer index |
| RingBuffer.Buffer.PopCheck | src/core/ring.c:420-425 | whether the reader owns a message |
| RingBuffer.Buffer.PopWait | src/core/ring.c:427-440 | after a signal or timeout the published index is taken over |
| RingBuffer.Buffer.PopSteal | src/core/ring.c:442-452 | the writer index is stolen and published |
| RingBuffer.Buffer.Load | src/core/ring.c:420-425 | the oldest message is returned |
| RingWriters.MultiIsRun | src/core/ring.c:376-392 | with the spin lock, every interleaving of any number of writers with the reader is a run of the ring with one writer |
| RingWriters.WriterOrder | src/core/ring.c:376-392 | over every run the visible messages of a writer are those it pushed, in its order, up to one still under way |
| PipelineLines.Shrink | src/core/context.c:1002-1023 | a line of messages keeps order and garbage discipline when anything but garbage, or its oldest message, leaves it |
| PipelineLines.Extend | src/core/plugin_parser.c:248-284 | a parser keeps them by passing garbage last |
| PipelineLines.ParserTakeKeeps | src/core/plugin_parser.c:95-114 | a parser step, including its destruction, keeps order, garbage discipline and reference counts |
| PipelineLines.ParserPushKeeps | src/core/context.c:322-343 | merging inputs into the first shared ring keeps them |
| PipelineLines.StageTakeKeeps | src/core/context.c:966-1000 | an intermediate thread that drops terminate or periodic messages keeps them |
| PipelineLines.StageDropKeeps | src/core/context.c:1002-1023 | so does dropping data because processing is disabled or the plugin destroys it |
| PipelineLines.DestsPending | src/core/plugin_output_mgr.c:158-227 | every output that a message is for is pushed to exactly once, every other one not at all |
| PipelineLines.DestsCount | src/core/plugin_output_mgr.c:158-227 | the number of pushes is the number of these outputs |
| PipelineLines.ManagerTakeKeeps | src/core/plugin_output_mgr.c:158-227 | setting the counter and fanning out keeps the counter equal to the outputs that still count |
| PipelineLines.OutReleaseKeeps | src/core/message_base.h:117-121 | a release finds the counter positive and keeps it equal to the outputs yet to release |
| PipelineLines.OutFreeKeeps | src/core/context.c:1086-1090 | destroying the message after the last release keeps everything |
| PipelineLines.DyingIsLast | src/core/context.c:1086-1090 | a message being destroyed is in no ring, hand or pending push of any other output |
| PipelineLines.RunInv | src/core/context.c:844-1100 | order, garbage discipline and reference counts hold in every state of every interleaving |
| PipelineLines.GarbageSafe | src/core/plugin_parser.c:95-153 | when a garbage callback runs, no IPFIX or Session message its parser passed earlier is alive |
| PipelineLines.DestroyedOnce | src/core/message_base.h:105-121 | every message is destroyed at most once, and then is in no ring, hand or pending push |
| PipelineInput.InOrder | src/core/context.c:881-935 | over every run: an input reads what it is sent, its parser takes what the input produces, and what the parser makes of that is passed, numbered and in order; nothing is lost or added |
| PipelineInput.EndedHandledAll | src/core/context.c:881-904 | a parser that has ended has handled all that its input produced, and made garbage and a terminate message last |
| PipelineDelivery.Delivered | src/core/plugin_output_mgr.c:158-227 | over every run: what an output has taken and what is on its way to it are exactly the messages that the output manager handled and the filter admits, in order |
| PipelineDelivery.FilteredOut | src/core/plugin_output_mgr.c:185-203 | over every run: each IPFIX Message in the ring or hand of an output has a domain in the list of its filter, or outside the list if the filter excludes |
| PipelineDelivery.AllDelivered | src/core/context.c:966-1035 | over every run in which nothing is dropped: all data and garbage that parsers passed and the filter admits come to an output once each and in order |
| PipelineDelivery.GarbageDelivered | src/core/context.c:1002-1023 | over every run, whatever is dropped: all garbage comes to every output once each and in order |
| PipelineTerm.StageTakeTerm | src/core/context.c:966-985 | counting a terminate message, dropping or passing it, keeps the protocol invariant |
| PipelineTerm.ManagerTakeTerm | src/core/context.c:966-985 | so does the output manager, which passes the last one to all outputs |
| PipelineTerm.OutFreeTerm | src/core/message_terminate.c:76-82 | destroying the last terminate message sends the last notification, when all threads before have ended |
| PipelineTerm.ConfigTakeKeeps | src/core/configurator/configurator.cpp:377-468 | handling any request keeps it |
| PipelineTerm.ConfigSendKeeps | src/core/configurator/configurator.cpp:553-587 | so do the loops that send terminate and periodic messages, interrupted anywhere by other threads |
| PipelineTerm.RunTerm | src/core/context.c:844-1100 | the protocol invariant holds in every state of every interleaving, for any number of inputs, stages and outputs |
| PipelineTerm.TokensConserved | src/core/configurator/configurator.cpp:377-399 | terminate messages alive plus notifications sent or handled are always as many as were sent, in the end one per input |
| PipelineTerm.Completion | src/core/configurator/configurator.cpp:377-399 | the configurator never aborts, and reports completion only after every thread has taken its final terminate message |
| PipelineStop.RequestsInOrder | src/core/configurator/cpipe.c:105-177 | over every run requests are handled in the order in which they were sent, and none is lost |
| PipelineStop.StopFollows | src/core/configurator/configurator.cpp:377-468 | over every run: the first request to stop, slow or fast, leads to one terminate message for every input, and to the status that the requests ask for; done means that all inputs are accounted for |
| PipelineStop.NeverStuck | src/core/configurator/configurator.cpp:377-399 | over every run: after a request to stop some thread can always go on until the configurator is done |
| PipelinePeriodic.ParserPasses | src/core/configurator/configurator.cpp:573-587 | a parser passes round r exactly if r < 2^32, because the configurator counts in 32 bits and threads in 64 |
| PipelineRounds.RoundDropped | src/core/configurator/configurator.cpp:573-587 | a run in which the round 2^32 is at the head of a parser ring and is dropped |
| PipelinePeriodic.FirstTake | src/core/context.c:987-1000 | the first shared thread counts to the largest number received from any input |
| PipelinePeriodic.LaterStagesForward | src/core/context.c:987-1000 | every later thread receives exactly the number it waits for and discards none |
| PipelineRounds.TakenInOrder | src/core/context.c:1050-1100 | over every run every output takes the rounds 0, 1, 2, ... exactly once each |
| PipelinePeriodic.PassedInOrder | src/core/context.c:987-1000 | over every run every shared thread passes 0, 1, 2, ... exactly once each |
| PipelineRounds.NothingBeyond | src/core/context.c:987-1000 | over every run every shared thread has passed 0, 1, 2, ... and nothing from 2^32 on |
| PipelinePeriodic.RunPer | src/core/context.c:881-1000 | the merge invariant holds in every state of every interleaving |
| PipelineCode.StageCtx.Take | src/core/context.c:966-1000 | the head of the loop of an intermediate thread, with its unsigned counters, is the step of the state machine |
| PipelineCode.MsgHeader.CntDec | src/core/message_base.h:110-121 | the decrement tells the last release, as in the state machine |
| PipelineCode.OutputMgrProcess | src/core/plugin_output_mgr.c:158-227 | exactly one push to every output without a filter, with a filter that lists the domain, or with one that excludes others, in order; messages other than IPFIX go to all; the counter is their number |
| PipelineCode.FindDests | src/core/plugin_output_mgr.c:185-214 | the mask has exactly these bits and fits 64 bits |
| ParserPlugin.Plugin.RemoveSession | src/core/plugin_parser.c:189-226 | a session is blocked and its closing requested, or else its records are removed and become garbage, if there are any |
| ParserPlugin.Plugin.ProcessIpfix | src/core/plugin_parser.c:247-284 | by case: a blocked record drops the message and changes nothing; a message that was read is passed, its garbage behind it; a malformed one over UDP is dropped; one over another transport, or a failure, gives the session up |
| ParserPlugin.Plugin.ProcessSession | src/core/plugin_parser.c:126-172 | a Transport Session message is always passed; closing removes exactly the records of the session, which are passed behind it as garbage |
| ParserPlugin.UdpKeepsAll | src/core/plugin_parser.c:262-284 | over UDP no sequence of parsed, denied and malformed messages removes or blocks a record |
| ParserPlugin.BrokenGivenUp | src/core/plugin_parser.c:174-226 | a malformed message over another transport, or a failure, leaves no open record of its session: all are blocked, or gone without a feedback pipe; other sessions keep theirs |
| ParserPlugin.DeniedExactly | src/core/parser.c:1224-1227 | after that exactly those domains of the session are denied that were known before, or that the message was of |
| ParserPlugin.StaysDenied | src/core/parser.c:1224-1227 | a denied domain stays denied until its session is closed |
| ParserPlugin.NewDomainHeard | src/core/plugin_parser.c:174-226 | a session that was blocked is heard again under another domain |
| PipelineCode.Configurator.TerminationHandle | src/core/configurator/configurator.cpp:377-468 | one request changes state and counter, sends terminate messages and switches threads off, as the state machine and the origin of the request say |
| PipelineCode.Configurator.StopAll | src/core/configurator/configurator.cpp:479-491 | no thread processes data any more |
| PipelineCode.Configurator.StopPartly | src/core/configurator/configurator.cpp:506-545 | exactly the threads up to the origin of the request stop processing data |
| PipelineCode.Configurator.TerminationSendMsg | src/core/configurator/configurator.cpp:553-571 | one terminate message to every input, and the counter set |
| PipelineCode.Configurator.PeriodicSendMsg | src/core/configurator/configurator.cpp:573-587 | one periodic message to every input, with a round number that overflows at 32 bits |
| OdidRange.NumberForms | src/core/odid_range.c:147-176 | exactly which numbers are accepted, with and without sign |
| OdidRange.NumberShape | src/core/odid_range.c:147-176 | whatever is accepted is spaces, an optional sign, digits, spaces |
| OdidRange.TokenIsDelimited | src/core/odid_range.c:363-381 | every token is a non-empty piece between commas |
| OdidRange.DelimitedIsToken | src/core/odid_range.c:363-381 | every non-empty piece between commas is a token |
| OdidRange.HugeUpperBound | src/core/odid_range.c:147-176 | the expression 0--18446744073709551615 denotes 0-1 |
| OdidRange.ItemMeans | src/core/odid_range.c:186-267 | what a, a-, -b and a-b denote, for all digit strings with spaces around, and exactly when they are rejected |
| OdidRange.OnlyDash | src/core/odid_range.c:186-267 | a dash between blanks is rejected |
| OdidRange.PrintedTokens | src/core/odid_range.c:363-381 | the tokens of a list of such items, printed with commas, are the items |
| OdidRange.SortUnique | src/core/odid_range.c:277-317 | a sorted arrangement of the nodes is unique, whatever the sorting algorithm |
| OdidRange.SortKeepsMeaning | src/core/odid_range.c:312-317 | the sorted nodes contain exactly what some token denotes, regardless of order, overlap or repetition |
| OdidRange.Range.Add | src/core/odid_range.c:186-267 | one token becomes one node, or is rejected, exactly as it denotes an interval |
| OdidRange.Range.Parse | src/core/odid_range.c:347-386 | accepted are exactly the non-empty expressions all of whose tokens denote an interval; otherwise the filter is empty |
| OdidRange.Range.In | src/core/odid_range.c:388-417 | the early-exit scan answers true if and only if some token of the expression denotes the value |
| OdidRange.Filtered | src/core/odid_range.c:347-417 | from the text to the answer: a list of items is accepted exactly if every item is, and then admits exactly the values that some item covers |
| Nf5Spec.TsetDecodes | src/core/netflow2ipfix/netflow5.c:51-78 | the emitted set decodes to one template with ID 256, 22 fields and 60 bytes a record |
| Nf5Spec.OffsetIs | src/core/netflow2ipfix/netflow5.c:84-111 | every field begins where the lengths before it add up to |
| Nf5Spec.DurationKept | src/core/netflow2ipfix/netflow5.c:397-458 | absolute timestamps keep last - first modulo 2^64, for every header |
| Nf5Spec.RecordDecodes | src/core/netflow2ipfix/netflow5.c:397-458 | read under the emitted template, a record gives the original fields, both timestamps and the sampling |
| Nf5Theorems.SetsOfMessage | src/core/netflow2ipfix/netflow5.c:303-320 | the bytes written are the size that was computed before |
| Nf5Theorems.OneCollected5 | src/core/netflow2ipfix/netflow5.c:461-550 | a converted message is accepted by the strict collector, which reads its records |
| Nf5Theorems.RunFaithful5 | src/core/netflow2ipfix/netflow5.c:461-550 | over whole runs: sequence numbers are the first accepted one plus all records sent since, modulo 2^32, and all records are recovered |
| Nf5Theorems.RunRefreshes | src/core/netflow2ipfix/netflow5.c:505-535 | the template is in the first message and later in exactly those in which refresh is enabled and the serial time reaches the last one plus the interval |
| Nf5Bytes.Accepted5 | src/core/netflow2ipfix/netflow5.c:461-550 | exactly which messages are converted, in numbers |
| Nf5Bytes.MessageBytes5 | src/core/netflow2ipfix/netflow5.c:397-550 | all bytes of a converted message: header, and each record field by field; times relative to the export time in whole milliseconds |
| Nf5Bytes.SwitchTimes5 | src/core/netflow2ipfix/netflow5.c:397-458 | a flow that began or ended at the uptime in the header has the export time, and the distance of the two is kept modulo 2^64 |
| Nf5Bytes.TimeReachedExact | src/core/netflow2ipfix/netflow5.c:505-535 | the refresh timer is right for times less than 2^31 seconds apart |
| Nf5Bytes.Template5 | src/core/netflow2ipfix/netflow5.c:51-78 | the 22 information elements and lengths |
| Nf5Converter.Converter5.Prepare | src/core/netflow2ipfix/netflow5.c:251-267 | the loop over the table computes the template bytes, 22 fields and 60 bytes |
| Nf5Converter.Converter5.AddRecord | src/core/netflow2ipfix/netflow5.c:433-455 | one record is appended part by part |
| Nf5Converter.Converter5.AddDset | src/core/netflow2ipfix/netflow5.c:397-458 | the Data Set fills the rest of the buffer exactly, or nothing without records |
| Nf5Converter.Converter5.Process | src/core/netflow2ipfix/netflow5.c:461-550 | a whole message in place equals the specification; on failure the wrapper is unchanged |
| SortedTable.InsertKeeps | src/core/parser.c:452-490 | insertion keeps the table strictly sorted, adds exactly one element, and changes no other lookup |
| SortedTable.SortedUnique | src/core/parser.c:414-420 | a strictly sorted arrangement is unique, whatever the sorting algorithm |
| SortedTable.Search | src/core/parser.c:430-440 | lookup finds a key if and only if it is present |
| ParserTables.KeyOrder | src/core/parser.c:392-408 | the order of keys is by session first, then by domain |
| ParserTables.Parser.FindRec | src/core/parser.c:430-440 | finds the record of a session and domain if and only if there is one |
| ParserTables.Parser.GetRec | src/core/parser.c:452-490 | finds the record or inserts exactly one in its place |
| ParserTables.StreamCtx.FindInfo | src/core/parser.c:319-338 | finds the entry of a stream if and only if there is one |
| ParserTables.StreamCtx.GetInfo | src/core/parser.c:350-383 | finds the entry or inserts exactly one in its place |
| ParserTables.Parser.SessionRemove | src/core/parser.c:1428-1469 | removes exactly the records of the session in order, which become the garbage |
| ParserTables.Parser.SessionBlock | src/core/parser.c:1471-1500 | marks exactly the records of the session |
| ParserTables.Parser.SessionFor | src/core/parser.c:1502-1522 | calls back for the sessions of the table, with the effect of every callback, although it may block or remove the session it is called for |
| ParserTables.SessionsDistinct | src/core/parser.c:1502-1522 | those are all sessions, each exactly once and in order |
| ParserTables.RemovalExact | src/core/parser.c:1428-1469 | removal loses all records of the session and no other one |
| ParserTables.EffectPerSession | src/core/parser.c:1502-1522 | after the loop the records of every session are kept, blocked or gone, as its one callback chose |
| Extensions.Context.Producer | src/core/context.c:471-496 | when a producer is registered, and the error otherwise |
| Extensions.Context.Consumer | src/core/context.c:498-523 | when a dependency is registered, and the error otherwise |
| Extensions.CheckDependencies | src/core/configurator/extensions.cpp:80-128 | exactly one producer, not behind any consumer |
| Extensions.Manager.RegisterInstance | src/core/configurator/extensions.cpp:130-147 | the table holds exactly the registrations of the instances |
| Extensions.Manager.Resolve | src/core/configurator/extensions.cpp:149-187 | succeeds exactly for at most 64 extensions with satisfied dependencies, and then lays them out in 64-bit arithmetic |
| Extensions.Manager.UpdateInstance | src/core/configurator/extensions.cpp:189-217 | every instance gets the size, offset and mask of the one layout; the size of a producer stays |
| Extensions.ExtensionsDisjoint | src/core/configurator/extensions.cpp:160-186 | aligned pairwise disjoint ranges within the total size, and different single-bit masks, when the sum of aligned sizes is below 2^64 |
| Extensions.LayoutExact | src/core/configurator/extensions.cpp:160-186 | ranges are disjoint and within the total size if and only if the sum of aligned sizes is below 2^64 |
| Extensions.PositiveSizes | src/core/context.c:471-496 | every extension that was laid out has a size above 0 |
| Extensions.ProducerFirst | src/core/configurator/configurator.cpp:322-341 | with the positions of startup, the one producer of every extension comes strictly before all its consumers |
| Extensions.OnePlaceOneKind | src/core/configurator/configurator.cpp:322-341 | two instances at one position both only depend on extensions |
| Extensions.Startup | src/core/configurator/configurator.cpp:317-341 | instances are registered at their positions; it succeeds if and only if there are at most 64 extensions, each with one producer and no consumer in front of it |
| MsgIpfix.Message.GetSets | src/core/message_ipfix.c:109-124 | the array that is returned holds the descriptions of all sets |
| MsgIpfix.Message.AddSetRef | src/core/message_ipfix.c:144-170 | one more set description; those before survive the move to the growing array |
| MsgIpfix.Message.GetDrec | src/core/message_ipfix.c:132-142 | the offset of a record inside the allocated memory, or nothing behind the last |
| MsgIpfix.Message.AddDrecRef | src/core/message_ipfix.c:172-194 | one more record; those before survive reallocation |
| MsgIpfix.ExtensionBytesApart | src/core/message_ipfix.c:132-142 | no extension bytes of a record are those of another extension or another record |

## Left out

- RunFaithful: the translation of every template is shorter than 2^16 bytes (EncodedSizeIs gives that size; 8191 fields always fit). Otherwise the emitted template is cut and its set cannot be understood (TsetUnderstood). RunNumbered does without.
- MessageFaithful: the same.
- BodyReceived: the same.
- DefineReceived: the same; TsetUnderstood is exact.
- TrackerFaithful: the true numbers of messages stay within 2^31 of the expected one, in either direction; TrackStepExact says exactly when a single step is right without that.
- ParserFaithful: the same window; numbers are those of the IPFIX messages given to the parser.
- OutputMgrProcess: at most 64 outputs, as the destination mask has 64 bits.
- Take: the 64-bit counter of periodic messages does not reach its maximum.
- AddDrecRef: fewer than 2^31 records in a message, as doubling the 32-bit count needs; messages have at most 65535 bytes.
- Resolve: the order of std::map is a parameter; the layout is right in any order.
- ProcessIpfix: what reading the sets of a message comes to is an input, as templates and sets belong to libfds; its effect on the streams and templates of the record is not modelled.
- AllDelivered: requires that no message is dropped, as plugins and the end of processing may drop any data; GarbageDelivered does without.
- NeverStuck: some thread can always go on; that a thread which can is scheduled in the end is left to the system.
- Sort: stands for qsort, whose code is not part of this model; a sorted arrangement is proved unique. Search stands for bsearch in the same way.
- Template records are values, not pointers: that a replaced record is freed while nothing refers to it is not modelled.
- Stream contexts are part of their records; the template manager, snapshots and set iterators of libfds are not part of this model.
- Memory of a ring is a sequence of messages; a ring of size 0 (which would block forever) is outside, and the collector demands at least 128.
- Several writers without the multi-writer mode, which the source forbids.
- Sequential consistency is assumed; timed waits may return at any time; lost or spurious signals make no difference in the model.
- Plugin callbacks are arbitrary within this: an intermediate plugin passes a message on in order or destroys it, and passes on periodic messages if it subscribes to them; messages that plugins create themselves are not modelled. Input plugins may produce any messages at any time until they end, also in their destructor.
- Flags that disable processing are fields of the configurator only. In the state machine any thread may stop processing at any time, also between the two places at which an intermediate thread reads its flag.
- Why parsing an IPFIX message succeeds or fails is open: the parser may pass any message, garbage or nothing, in the order its code fixes.
- Allocation failures, failures of pthread functions, sockets, pipes, signals, timers, dynamic loading, XML configuration, logging and the command line.
- Warnings, such as those about unexpected sequence numbers or record counts, and the message count at the end of ipx_ring_destroy.
- The initial value of the extension mask in records behind the first 64, whose memory is not zeroed.
- The size of the base part of a Data Record is a parameter, as fds_drec belongs to libfds.
- Plugins, tools, the ClickHouse output, session naming, version checks and directory creation.
