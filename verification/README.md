# Verification of ckVision's algorithms and protocols

A Dafny model of the parts of the repository that decide, parse, schedule and draw, with
proofs of what each of them promises. `dafny verify dfyconfig.toml` checks the whole project.

## What is modelled

- **Native log envelopes.** `JsonGrammar` states the grammar of RFC 8259 as syntax trees with
  their texts. `JsonScanner` and `JsonParser` are the reader as functions, proved sound and
  complete for that grammar with the depth limit. `Reader` is the reader as the class that moves
  a position and fills bounded buffers. `Utf8` is the UTF-8 check against section 4 of RFC 3629,
  and `JsonUtf8` shows that decoding keeps texts well formed. `JsonDepth` tells by the grammar when
  the depth limit is exceeded. `Envelope` scans an object for selected names, `NativeRecord` gives
  the record made of them, `NativeJson` is the decoder with its eight buffers, and `RecordMeaning`
  tells without the decoder which envelopes become records and what these say. `Timestamp`,
  `TimestampOrder` and `TimestampLaws` are its timestamps, against section 5.6 of RFC 3339, and
  `Numerals` is decimal numerals by printing. `JsonPrinter` is the printer of the latency
  benchmark, the inverse of the reader.
- **The helper feed.** `Framing` gives the framing of a helper's output twice, as a machine over
  bytes, gaps and the end, and as one pass over lines, and proves them equal. `ProcessJsonFeed` is
  the feed with its budgets, its staging and its mailboxes, which may refuse at any time.
  `LogMailbox` is the mailbox ring itself, with every loss reported where it happened.
- **The include-cycle search** (`CheckLayers`), **the pointer chase** with Sattolo's shuffle
  (`PointerChase`), **the frame-end matcher** (`FrameEndMatcher`), **the sample file**
  (`SampleFile`) and **the report texts** (`ReportFormat`).
- **The worker protocols** (`RenderService` with its views, `BenchmarkService`, `ExportWriter`) as
  state machines. A step is one lock region, one access of an atomic flag, one notification or one
  post. Condition variables may wake up spuriously, and a notification wakes one waiter or none if
  nobody waits. Statements about runs hold for every sequence of enabled steps.
- **The export snapshot**: the copy by itself, as a machine over turns, restarts, feeds and stops
  (`ExportCopy`), and the monitor that runs it (`LogExport`). **The renderer**: its palette (`FramePalette`), its
  blending and resolving (`Coverage`) and its polygon fill over exact reals (`Polygon`).

`Arithmetic` and `Wrappers` hold what several modules share.

## Where code and documentation differ

- `examples/spin/renderer.hpp:54-57` says that an exhausted colour budget never costs the frame
  its geometry. It can: a colour whose nearest entry is the background is drawn as the background.
  `FramePalette.ShownAsBackground` gives the exact condition, `FramePalette.FullTableHidesColor`
  an instance.
- `examples/sysinfo/benchmark.hpp:149-153` promises one cycle through every slot. The slots are 32
  bits wide, so this holds exactly up to 2^32 slots (`PointerChase.MakePointerChase`). Also, the
  ring that is walked links each slot of the shuffled order to the next one, which is one cycle for
  any permutation; that the shuffled array itself is a single cycle is `PointerChase.Shuffle`.
- `examples/sysinfo/benchmark_service.cpp:33-34` clears the cancel flag after it releases the lock,
  so a stale cancel can end a new run, and a new cancel can be lost.
  `BenchmarkService.UncancelledUnlessStale` and `BenchmarkService.CancelIsSureUnlessUncleared` say
  exactly when.
- `docs/logmonitor-example.md:47-48` says that a source is held while its snapshot is copied. It is
  not, in two ways, and then the export may mix rows of different moments. A source that waits to be
  restarted gets its lane back and is fed (`examples/logmonitor/logmonitor_app.cpp:387-388`); and
  a source may be stopped at any time (`examples/logmonitor/logmonitor_app.cpp:232-239`), which
  finishes its stream at once: the unfinished record may get more text, and the oldest records may
  be evicted for it, which moves all others (`src/widgets/log_model.cpp:183-199`).
  `ExportCopy.RightOnEverySchedule` says exactly when an export is right on every schedule, and
  `ExportCopy.SafeRowByRow` says it row by row: each row that the first turn leaves for a later one
  must be of a source that does not wait to be restarted, and one that finishing leaves as it is. In
  every other case `LogExport.LogMonitor.Spoil` or `LogExport.LogMonitor.SpoilByStop` makes it
  wrong; `RestartHappens` and `StopHappens` reach such cases from the start.

## Model

| member | source | states |
|---|---|---|
| `Reader.Reader.Whitespace` | examples/logmonitor/native_json.cpp:18 | skips exactly the insignificant whitespace of section 2 of RFC 8259 from the position on |
| `Reader.Reader.Eat` | examples/logmonitor/native_json.cpp:19 | skips whitespace and consumes one expected byte, or reports that something else follows |
| `Reader.Reader.HexFour` | examples/logmonitor/native_json.cpp:87-99 | reads four hexadecimal digits of either case as their value, and fails exactly when the next four bytes are not such digits |
| `Reader.Reader.UnicodeScalar` | examples/logmonitor/native_json.cpp:35-48 | a `\u` escape, with the second half that a high surrogate needs, stands for one scalar and yields its UTF-8 encoding; every unpaired surrogate fails |
| `Reader.Reader.StringTurn` | examples/logmonitor/native_json.cpp:24-53 | one turn of the string loop: a character and what it stands for, the closing quote, or an error |
| `Reader.Reader.String` | examples/logmonitor/native_json.cpp:20-55 | decodes a string exactly when one stands at the position, stops just past its closing quote, and leaves in the bounded buffer the first bytes of the unbounded decoding, with `clipped` exactly when some did not fit |
| `Reader.Reader.Number` | examples/logmonitor/native_json.cpp:72-82 | reads a number exactly when the grammar has one there, as far as it goes |
| `Reader.Reader.Scalar` | examples/logmonitor/native_json.cpp:70-82 | reads the three literals or a number |
| `Reader.Reader.Value` | examples/logmonitor/native_json.cpp:56-83 | reads one value as the parser of the grammar does, and raises `limited` exactly when the nesting was too deep |
| `Reader.Reader.Container` | examples/logmonitor/native_json.cpp:60-69 | reads a whole object or array, whose opening bracket is at the position |
| `Reader.Reader.Items` | examples/logmonitor/native_json.cpp:63-68 | the loop over elements or members ends where the parser of the grammar ends, or fails as it does |
| `Reader.Reader.Item` | examples/logmonitor/native_json.cpp:64-67 | one element or member with its separator: either the loop goes on from just behind it, or the outcome is settled |
| `JsonParser.AcceptsExactlyJson` | examples/logmonitor/native_json.cpp:56-83 | for every text, `value(1)` with trailing whitespace reaches the end exactly when the text is a JSON text by sections 2 to 7 of RFC 8259 whose values nest at most 16 deep and whose surrogate escapes are properly paired |
| `JsonParser.ParseValue` | examples/logmonitor/native_json.cpp:56-83 | the parser moves forward, stays in the text and terminates |
| `JsonParser.ValueSound` | examples/logmonitor/native_json.cpp:56-83 | what is accepted as a value is the text of a syntax tree within the depth limit |
| `JsonParser.ValueComplete` | examples/logmonitor/native_json.cpp:56-83 | every syntax tree within the depth limit is accepted wherever it is spelled and properly followed |
| `JsonScanner.StringSound` | examples/logmonitor/native_json.cpp:20-55 | a string that is decoded is the spelling of a list of grammar characters, and its decoding is their meaning |
| `JsonScanner.StringComplete` | examples/logmonitor/native_json.cpp:20-55 | every spelling of grammar characters is decoded to their meaning |
| `JsonScanner.NumberSound` | examples/logmonitor/native_json.cpp:72-82 | a number that is read is one of the grammar of section 6 |
| `JsonScanner.NumberComplete` | examples/logmonitor/native_json.cpp:72-82 | every number of the grammar is read to its end |
| `JsonGrammar.SignsAreSpelled` | examples/logmonitor/native_json.cpp:18-19 | the signs and blanks of the grammar, as characters |
| `JsonGrammar.Hex4ReadsBack` | examples/logmonitor/native_json.cpp:87-99 | four hexadecimal digits, of either case, are read as the number that they spell, the most significant first |
| `JsonGrammar.ShortsMean` | examples/logmonitor/native_json.cpp:29-34 | the escapes of two characters, and what they stand for |
| `JsonGrammar.PairsAreExactlyTheHighScalars` | examples/logmonitor/native_json.cpp:37-42 | surrogate pairs map one to one onto U+10000 to U+10FFFF |
| `JsonUtf8.StringWellFormed` | examples/logmonitor/native_json.cpp:20-55 | in a well-formed text, every string decodes to well-formed UTF-8 |
| `JsonUtf8.MeaningWellFormed` | examples/logmonitor/native_json.cpp:20-55 | what grammar characters stand for is well formed when their spelling is |
| `JsonUtf8.ValueWellFormed` | examples/logmonitor/native_json.cpp:164-166 | in a well-formed text, the spelling of every value is well formed |
| `Envelope.ScanIsObject` | examples/logmonitor/native_json.cpp:149-174 | an envelope is scanned to its end with some selected values exactly when it is one JSON object within the depth limit that repeats no selected name and has those values |
| `Envelope.MembersSound` | examples/logmonitor/native_json.cpp:151-172 | members that are scanned are spelled by members of the grammar within the depth limit, and the values selected are those of their trees, with no selected name repeated |
| `Envelope.MembersComplete` | examples/logmonitor/native_json.cpp:151-172 | members of the grammar within the depth limit that repeat no selected name are scanned to the closing brace, with their selected values |
| `NativeRecord.TrimmedIsLongest` | examples/logmonitor/native_json.cpp:161-168 | the trim loop leaves the longest well-formed prefix |
| `NativeRecord.ClipKeepsMost` | examples/logmonitor/native_json.cpp:159-168 | a well-formed value is kept whole when it fits in 384 bytes, and otherwise gives up at most three bytes of the buffer |
| `NativeRecord.MembersWellFormed` | examples/logmonitor/native_json.cpp:149-173 | every value selected from a well-formed envelope is well formed |
| `NativeRecord.KeysAreDistinct` | examples/logmonitor/native_json.cpp:11-14 | no name is selected twice, so field names are unique |
| `NativeRecord.MetadataFits` | examples/logmonitor/native_json.cpp:177-194 | names and kept values never exceed the 4096 bytes of a record |
| `NativeRecord.PublishedFields` | examples/logmonitor/native_json.cpp:159-194 | every published field is a well-formed prefix of its value, whole or at most three bytes short of the buffer, and all of them fit the record |
| `NativeRecord.AcceptedExactly` | examples/logmonitor/native_json.cpp:144-176 | an envelope is accepted exactly when it is at most 64 KiB of well-formed UTF-8, one JSON object within the depth limit that repeats no selected name, and has the payload |
| `JsonDepth.TooDeepExactly` | examples/logmonitor/native_json.cpp:56-83 | a value is given up for its depth exactly when its text, grammatical as far as it is read, opens one container more than there is room for and goes on to a further value |
| `JsonDepth.LimitExactly` | examples/logmonitor/native_json.cpp:144-174 | an envelope is given up for its depth exactly when it opens as an object whose members, with no selected name repeated so far, nest too deep |
| `RecordMeaning.AcceptableExactly` | examples/logmonitor/native_json.cpp:144-176 | told with the bounds of 64 KiB and sixteen levels: the accepted envelopes and their selected values |
| `RecordMeaning.ExcessiveExactly` | examples/logmonitor/native_json.cpp:146 | the answer is about limits exactly for envelopes longer than 64 KiB, and well-formed ones that nest too deep |
| `RecordMeaning.IntegerExactly` | examples/logmonitor/native_json.cpp:102-106 | an integer is read exactly from an optional minus sign and a decimal numeral, with any zeros before it, if 64 bits hold it |
| `RecordMeaning.LevelExactly` | examples/logmonitor/native_json.cpp:181-190 | the severity is the one that the kept text names: five names in the Apple log, the numerals 0 to 2, 3, 4, 5, 6 and 7 in the journal; unknown exactly when it names none |
| `RecordMeaning.StampExactly` | examples/logmonitor/native_json.cpp:187-191 | the time is the instant that the kept text denotes, or its count of microseconds times 1000, exactly if 64 bits hold that |
| `RecordMeaning.ClipIsClip` | examples/logmonitor/native_json.cpp:159-168 | what is kept of a value is its longest well-formed prefix within 384 bytes |
| `RecordMeaning.PublicationMeans` | examples/logmonitor/native_json.cpp:177-194 | the fields of a record are exactly the selected names with their kept values, in the order of the keys, and the payload is one; its severity and time are what the fields named for them tell |
| `RecordMeaning.DecodingAnswers` | examples/logmonitor/native_json.cpp:144-196 | a record is published exactly of an acceptable envelope, and says what it should; the answer is about limits exactly of an excessive one |
| `RecordMeaning.OverlongExactly` | examples/logmonitor/native_json.cpp:159-169 | values are cut exactly in acceptable envelopes with a selected value longer than 384 bytes |
| `NativeJson.NativeJsonDecoder.Trim` | examples/logmonitor/native_json.cpp:161-168 | the buffer ends up holding the clipped value, and `metadata_clipped` is raised exactly when the value was longer than the buffer |
| `NativeJson.NativeJsonDecoder.Member` | examples/logmonitor/native_json.cpp:152-169 | one member changes the buffers to those of the fields with its value, and fails as the scan does |
| `NativeJson.NativeJsonDecoder.Members` | examples/logmonitor/native_json.cpp:151-172 | the member loop computes the scan of the whole object |
| `NativeJson.NativeJsonDecoder.Derive` | examples/logmonitor/native_json.cpp:177-194 | severity, time and fields of the record are those of the kept values |
| `NativeJson.NativeJsonDecoder.Decode` | examples/logmonitor/native_json.cpp:144-196 | the answer is the judgement on the whole envelope, which is a record exactly if that is acceptable, with the fields, severity and time that it tells; and `metadata_clipped` says whether any selected value was longer than its buffer |
| `Timestamp.DayNumberCounts` | examples/logmonitor/native_json.cpp:119-122 | day numbers start at the epoch and count the days of the proleptic Gregorian calendar one by one |
| `Timestamp.DayNumberOrders` | examples/logmonitor/native_json.cpp:119-122 | day numbers order dates, and tell them apart |
| `Timestamp.ShapedSound` | examples/logmonitor/native_json.cpp:109-138 | a text of the accepted shape with values in range is the spelling of the timestamp read from it |
| `Timestamp.ShapedComplete` | examples/logmonitor/native_json.cpp:109-138 | every timestamp of section 5.6 of RFC 3339 in the accepted subset has the accepted shape and reads back |
| `Timestamp.ReadingIsInstant` | examples/logmonitor/native_json.cpp:108-143 | a text is accepted with a value exactly when it denotes that instant in nanoseconds and 64 bits hold it; so two accepted texts agree exactly when they denote the same instant |
| `Timestamp.DaysToYear` | examples/logmonitor/native_json.cpp:119-120 | the loop over years sums to the closed formula |
| `Timestamp.DaysToMonth` | examples/logmonitor/native_json.cpp:121 | the loop over months sums to the days before the month |
| `Timestamp.Fraction` | examples/logmonitor/native_json.cpp:123-131 | the fraction loop yields nanoseconds exactly for one to nine digits, or for none |
| `Timestamp.OffsetOf` | examples/logmonitor/native_json.cpp:132-139 | the offset is read to the very end of the text, and is that of the timestamp |
| `Timestamp.Checked` | examples/logmonitor/native_json.cpp:140-142 | the bound check lets through exactly the instants that 64 bits hold, without overflow on the way |
| `Timestamp.NativeTimestamp` | examples/logmonitor/native_json.cpp:108-143 | computes the reading of the text |
| `Numerals.ValueIsNumeral` | examples/logmonitor/native_json.cpp:102-106 | digits are read as the one number whose decimal numeral they are, with any zeros before it |
| `TimestampLaws.NextSecondIsMore` | examples/logmonitor/native_json.cpp:119-143 | a second later by the clock, with carries into minutes, hours and the next day, is 1,000,000,000 nanoseconds more, to the last second of 2262 |
| `TimestampLaws.EpochIsZero` | examples/logmonitor/native_json.cpp:119-143 | the epoch is instant zero |
| `TimestampLaws.OffsetIsDistance` | examples/logmonitor/native_json.cpp:132-140 | a timestamp with an offset east of Greenwich denotes the same instant as one in universal time exactly if its clock is that clock so many hours and minutes later; west of it, the other way round |
| `TimestampLaws.OffsetIsSpelled` | examples/logmonitor/native_json.cpp:132-139 | a plus sign is spelled for the east, a minus sign for the west, Z for no offset |
| `TimestampLaws.FractionIsNumeral` | examples/logmonitor/native_json.cpp:123-131 | a fraction, with zeros for the digits it lacks of nine, is the numeral of its nanoseconds |
| `TimestampOrder.ByteOrderIsTimeOrder` | examples/logmonitor/native_json.cpp:108-143 | texts in universal time of one separator and one fraction width sort by bytes as the instants they denote |
| `Utf8.WellFormedIsOctets` | src/core/utf8.cpp:63-71 | well-formedness as the scan has it is `UTF8-octets` of section 4 of RFC 3629 |
| `Utf8.CheckedByScalar` | src/core/utf8.cpp:51-57 | continuation bytes, minimum and scalar range together accept exactly the characters of the grammar |
| `Utf8.DecodeAt` | src/core/utf8.cpp:24-59 | finds the one character that begins at a position, with its scalar, or none |
| `Utf8.IsValid` | src/core/utf8.cpp:63-71 | accepts exactly the well-formed texts |
| `Utf8.EncodeIsChar` | examples/logmonitor/native_json.cpp:43-48 | every scalar is encoded as a character that spells it |
| `Utf8.CharIsEncoded` | examples/logmonitor/native_json.cpp:43-48 | every character is the encoding of the scalar it spells |
| `Utf8.PrefixNearlyWellFormed` | examples/logmonitor/native_json.cpp:161-167 | every prefix of a well-formed text is well formed but for at most three bytes |
| `JsonPrinter.EscapedWhenNeeded` | benchmarks/pty_latency.cpp:473-488 | a byte is printed as itself exactly if it may stand for itself in a string |
| `JsonPrinter.JsonString` | benchmarks/pty_latency.cpp:473-488 | prints any bytes as a string of the JSON grammar |
| `JsonPrinter.ReadsBackPrinted` | examples/logmonitor/native_json.cpp:20-55 | a printed string, with whatever before and after it, is read back to the printed bytes, and reading stops just past its closing quote |
| `JsonPrinter.ReadBack` | benchmarks/pty_latency.cpp:473-488 | with a buffer that is too small the reader keeps the first of the printed bytes and sets `clipped` |
| `FrameEndMatcher.BracketIsSpelled` | benchmarks/pty_latency.cpp:90 | the bracket is the control sequence that resets mode 2026 |
| `FrameEndMatcher.OneMoreByte` | benchmarks/pty_latency.cpp:318-325 | the matched length is always that of the longest beginning of the bracket that the stream ends with, after any byte |
| `FrameEndMatcher.Matcher.Feed` | benchmarks/pty_latency.cpp:316-328 | returns the offset just past the first bracket that ends within the bytes, none if none does, however the stream was cut before |
| `FrameEndMatcher.PtyHost.Rest` | benchmarks/pty_latency.cpp:373-379 | counts every further bracket in what follows a frame |
| `FrameEndMatcher.PtyHost.AwaitFrame` | benchmarks/pty_latency.cpp:355-383 | over any sequence of reads, frames returned and extra frames together are the bracket occurrences in all bytes read |
| `Framing.FreshIsOnePass` | examples/logmonitor/process_json_feed.cpp:50-69 | the byte-by-byte framing of a whole stream is one pass that cuts it at its newlines: per line nothing, a record, a report for malformed contents or limits, or an oversize report; a report for a gap and a resumption after the next newline; a report for a line that the end cuts short |
| `Framing.ChunksDoNotMatter` | examples/logmonitor/process_json_feed.cpp:114-125 | two loss-free helpers that wrote the same bytes in any chunks give the same records and reports |
| `Framing.ItemsAreWholeLines` | examples/logmonitor/process_json_feed.cpp:50-69 | every record, and every report on contents or length, comes of the bytes of one whole line, with no gap in them and none between them and the newline before |
| `Framing.LineHasItem` | examples/logmonitor/process_json_feed.cpp:50-69 | every whole line that is not empty has one item, in its place behind those of all before it, with the arrival of its first byte |
| `Framing.LineBecomes` | examples/logmonitor/process_json_feed.cpp:60-69 | a line becomes a record exactly if it is an acceptable envelope; a report of oversize exactly if it is longer than 64 KiB, of limits exactly if it is within that, well formed and nests too deep, and of malformed contents otherwise; and it counts as clipped exactly if a selected value of an acceptable one is longer than 384 bytes |
| `Framing.OnePassBecomes` | examples/logmonitor/process_json_feed.cpp:50-69 | the items of a stream, told without the decoder: those that come of lines are what whole lines become, and every whole line has its item in its place |
| `Framing.EndReported` | examples/logmonitor/process_json_feed.cpp:101-111 | the end of a stream is reported exactly if it cuts a line short |
| `Framing.CountersCount` | examples/logmonitor/process_json_feed.cpp:62-66 | the malformed and oversized counters are the numbers of reports of those kinds, and the clipped counter that of the records of lines with values that were cut |
| `Framing.LossesReported` | examples/logmonitor/process_json_feed.cpp:101-112 | over any messages, the reports of a loss are as many as the messages with bytes that carry one; so each loss is reported once exactly when no end carries one |
| `ProcessJsonFeed.Feed.Publish` | examples/logmonitor/process_json_feed.cpp:50-55 | hands on the staged item, or keeps it for a retry |
| `ProcessJsonFeed.Feed.FinishFrame` | examples/logmonitor/process_json_feed.cpp:60-69 | a newline has the effect of the framing machine |
| `ProcessJsonFeed.Feed.Byte` | examples/logmonitor/process_json_feed.cpp:115-123 | one byte in hand goes by, with the effect of the framing machine |
| `ProcessJsonFeed.Feed.Next` | examples/logmonitor/process_json_feed.cpp:97-113 | one message moves from the queue to those taken; it comes to hand, ends the stream, or reports a loss |
| `ProcessJsonFeed.Feed.Read` | examples/logmonitor/process_json_feed.cpp:95-126 | the nested loops stay within 16 KiB, 4 frames and 4 messages, make progress unless the mailbox refuses or all that it holds has been consumed, and only add to what was taken, consumed and handed on |
| `ProcessJsonFeed.Feed.Step` | examples/logmonitor/process_json_feed.cpp:82-132 | whatever is refused, what was handed on and staged is the framing of the bytes consumed, in order; nothing taken, queued, consumed or handed on before is lost or rewritten; a turn stays within its budgets, makes progress unless a mailbox refuses or nothing is left, and closes the feed exactly when all is drained |
| `ProcessJsonFeed.Feed.Stop` | examples/logmonitor/process_json_feed.cpp:159-161 | nothing changes but that the feed is stopped, and closed unless that is refused |
| `ProcessJsonFeed.Feed.NextDeadline` | examples/logmonitor/process_json_feed.cpp:133-140 | a feed that is not closed and asks for no turn has consumed all it took and handed on all it framed |
| `ProcessJsonFeed.Feed.HandsOnOnePass` | examples/logmonitor/process_json_feed.cpp:82-132 | at every moment, what was handed on with what is staged is the one pass over the stream consumed |
| `ProcessJsonFeed.Feed.HandsOnLines` | examples/logmonitor/process_json_feed.cpp:82-132 | at every moment, what was handed on with what is staged is what the whole lines of the stream consumed become, each in its place |
| `ProcessJsonFeed.Feed.ClosedMeansComplete` | examples/logmonitor/process_json_feed.cpp:129-131 | a feed closed without a stop has taken all that its mailbox ever delivers, and has handed on the one pass over it |
| `ProcessJsonFeed.Feed.ClosedMeansReported` | examples/logmonitor/process_json_feed.cpp:101-112 | and has reported each loss that its messages carry once, exactly when the end carries none |
| `ProcessJsonFeed.Run` | examples/logmonitor/process_json_feed.cpp:82-132 | every run, over any messages cut in any way, any refusals and any sequence of turns and stops: what was handed on, with what is staged, is the one pass over a beginning of the stream, and over all of it once the feed has closed of itself; nothing handed on is taken back; and its items are what whole lines become, told without the decoder |
| `ProcessJsonFeed.Feed.FinalTurns` | examples/logmonitor/process_json_feed.cpp:82-132 | once the process is terminal, every turn of a feed whose streams end closes it, brings it nearer to their ends, or was refused by a mailbox; so a feed that has not closed has had no more turns than there were events and messages to come, and refusals |
| `ProcessJsonFeed.RunToEnd` | examples/logmonitor/process_json_feed.cpp:82-132 | from the start: after as many turns as the streams of a terminal process have events and messages, and one for each refusal, one more turn finds the feed closed of itself, with the one pass over the whole stream handed on: what each of its lines becomes, in its place |
| `ProcessJsonFeed.Feed.CountersAgree` | examples/logmonitor/process_json_feed.cpp:62-66 | the counters are the numbers of reports of their kinds, and of records with overlong values, handed on and staged |
| `LogMailbox.MergeLaws` | src/core/log_mailbox.cpp:11-25 | saturating losses add up in any order |
| `LogMailbox.Ring.Pop` | src/core/log_mailbox.cpp:134-136 | the ring gives its packets oldest first |
| `LogMailbox.Ring.Push` | src/core/log_mailbox.cpp:119-122 | the ring takes packets behind all others |
| `LogMailbox.LossSumTotals` | src/core/log_mailbox.cpp:11-25 | a sum of losses is the number of messages lost, of their bytes and of the records among them, as far as 64 bits go; and the number of records is unknown exactly if a piece of a byte stream is lost |
| `LogMailbox.LogMailbox.Offer` | src/core/log_mailbox.cpp:99-128 | with room, an accepted message joins all others and no loss is counted; from a full ring only the oldest packet queued goes, its loss is counted, and that under one policy only; a message that is dropped is a loss counted and yet to be reported; any other answer changes nothing; and each packet goes on reporting what was lost right before it |
| `LogMailbox.LogMailbox.Take` | src/core/log_mailbox.cpp:129-140 | packets come in the order they are kept, and then the end with the loss after the last packet |
| `LogMailbox.LogMailbox.Close` | src/core/log_mailbox.cpp:156-165 | the end takes over the loss not yet reported, once |
| `LogMailbox.LogMailbox.BackpressureLosesNothing` | src/core/log_mailbox.cpp:105-107 | under backpressure the packets taken and queued are all messages accepted, in order |
| `LogMailbox.LogMailbox.EveryMessageIsAccountedFor` | src/core/log_mailbox.cpp:99-128 | every message accepted or dropped is that of one packet taken or queued, or is lost; and the losses counted are the sum of those lost |
| `LogMailbox.LogMailbox.AllLossesReported` | src/core/log_mailbox.cpp:108-128 | when a closed mailbox has been emptied, every message accepted or dropped was taken or is lost, each packet reported exactly what was lost between the one before it and itself, and the end what was lost after the last; together that is all that is lost, once, where it was lost |
| `LogMailbox.WrapIsRemainder` | src/core/log_mailbox.cpp:117 | a position that runs past the end of the ring once is taken by subtraction where the program takes a remainder |
| `CheckLayers.ReadEdges` | tools/check_layers.py:159-172 | reads edges of the top node until one leads to a white node, and reports each gray target as a closed path |
| `CheckLayers.Step` | tools/check_layers.py:161-176 | enters a white node or finishes the top one, keeping the whole invariant and decreasing the measure of white nodes and stack |
| `CheckLayers.Visit` | tools/check_layers.py:153-176 | one tree of the search ends with its root black and every black node kept |
| `CheckLayers.FindCycles` | tools/check_layers.py:148-176 | every list reported is a closed path of edges; without the closing edges of those lists the graph can be ranked; nothing is reported exactly when the graph has no cycle; all nodes end black |
| `CheckLayers.EveryClosedPathIsCut` | tools/check_layers.py:147-176 | every cycle of the graph holds a closing edge of some reported one |
| `CheckLayers.SilentIffAcyclic` | tools/check_layers.py:147-176 | no report exactly when there is no cycle |
| `PointerChase.Xorshift64` | examples/sysinfo/benchmark.cpp:143-148 | the generator never falls into zero, nor leaves it |
| `PointerChase.StepsBack` | examples/sysinfo/benchmark.cpp:143-148 | each step of the generator can be undone, so it permutes its states |
| `PointerChase.StateIsNotZero` | examples/sysinfo/benchmark.cpp:171-173 | the states of a shuffle start at the seed, or at one, and never come to zero |
| `PointerChase.SwapJoins` | examples/sysinfo/benchmark.cpp:172-176 | swapping with a strictly lower partner joins two distinct cycles into one |
| `PointerChase.Shuffle` | examples/sysinfo/benchmark.cpp:165-176 | for every size that 32-bit slots can name and every seed, the shuffled array read as a map is a single cycle through all slots; and it is what the draws of the generator for that seed make of the slots |
| `PointerChase.MakePointerChase` | examples/sysinfo/benchmark.cpp:162-184 | the chase is one cycle through every slot exactly when 32 bits can name them all |
| `PointerChase.SlotsTooNarrow` | examples/sysinfo/benchmark.cpp:166-167 | beyond that, no ring of 32-bit slots is one cycle |
| `PointerChase.WalkPointerChase` | examples/sysinfo/benchmark.cpp:186-191 | follows the ring as often as it is told |
| `PointerChase.WalkFollowsOrder` | examples/sysinfo/benchmark.cpp:186-191 | from any slot, after k steps the walk is k places round the shuffled order, and back where it started exactly at multiples of the size |
| `RenderService.StepKeepsInv` | examples/spin/render_service.cpp:32-93 | every step of workers, submitters, views, waiters and destructor keeps the whole invariant |
| `RenderService.SubmittedIsAccountedFor` | examples/spin/render_service.cpp:32-93 | in every run, submitted jobs are queued, active or finished, each once |
| `RenderService.NoLostWakeUp` | examples/spin/render_service.cpp:32-41 | while the pool is not stopping and jobs are queued, a worker is awake or is owed a wake-up |
| `RenderService.WaitMeansIdle` | examples/spin/render_service.cpp:43-46 | `wait_until_idle` returns before a stop only when every job submitted is finished, and was posted once or found its view gone, and every frame posted is counted |
| `RenderService.EveryRequestIsDispatched` | examples/spin/render_service.cpp:51-95 | at every moment each request accepted is on its way, delivered, or dropped because its view was gone, once; the frame counter is behind the posts by at most one for each worker |
| `RenderService.NobodyIsForgotten` | examples/spin/render_service.cpp:88-90 | no caller stays blocked when the pool is idle, nor after the last wake-up of the destructor |
| `RenderService.InternalStepsRunOut` | examples/spin/render_service.cpp:53-93 | the steps of workers and notifiers run out under every schedule |
| `RenderService.RestMeansDone` | examples/spin/render_service.cpp:53-93 | when they have run out all jobs are finished, and after a stop all workers are gone |
| `RenderService.StopEnds` | examples/spin/render_service.cpp:17-25 | in every run, once the destructor has woken the workers and their steps have run out they are all gone; without a stop none is |
| `RenderService.WokenWhenIdle` | examples/spin/render_service.cpp:84-91 | a blocked caller is woken by chance, by the finish that makes the pool idle, and by the destructor, and by nothing else |
| `RenderService.WholeRunHappens` | examples/spin/render_service.cpp:33-93 | a frame can be asked for, rendered, posted and delivered while a caller waits and is released, and the pool torn down |
| `RenderService.OneRequestPerView` | examples/spin/spin_app.cpp:106-139 | a live view has at most one request on its way, and exactly one while it is marked, unless it asked a stopping pool |
| `BenchmarkService.StepKeepsInv` | examples/sysinfo/benchmark_service.cpp:23-109 | every step of starters, cancellers, waiters, worker and destructor keeps the whole invariant |
| `BenchmarkService.RunsNeverOverlap` | examples/sysinfo/benchmark_service.cpp:61-109 | posts are those of whole runs one after the other, in the order of acceptance, and of one run in progress |
| `BenchmarkService.ResultsFollowPlan` | examples/sysinfo/benchmark_service.cpp:73-98 | the results of a run are those of a prefix of its plan in order, and of all of it if it says that it was not cancelled |
| `BenchmarkService.ResultsSoFar` | examples/sysinfo/benchmark_service.cpp:73-98 | at every moment of a run in progress its results are those of a prefix of its plan, in order |
| `BenchmarkService.ProgressRisesToTheEnd` | examples/sysinfo/benchmark_service.cpp:73-101 | a run reports progress that never falls, posts its end once and posts nothing after it |
| `BenchmarkService.ProgressRisesSoFar` | examples/sysinfo/benchmark_service.cpp:73-98 | at every moment of a run in progress its progress has not fallen, nor gone ahead of the kernels done |
| `BenchmarkService.WaitMeansPosted` | examples/sysinfo/benchmark_service.cpp:46-49 | `wait_until_idle` returns before a stop only when everything about every accepted run is posted |
| `BenchmarkService.NobodyIsForgotten` | examples/sysinfo/benchmark_service.cpp:103-107 | no caller stays blocked when no run is in progress, but for the notification still owed |
| `BenchmarkService.UncancelledUnlessStale` | examples/sysinfo/benchmark_service.cpp:33-35 | a run can end as cancelled without anybody asking after its acceptance exactly when the flag was up when it was accepted |
| `BenchmarkService.StaleFlagHappens` | examples/sysinfo/benchmark_service.cpp:33-42 | such a flag can be reached: one cancel before the first run |
| `BenchmarkService.CancelIsHonoured` | examples/sysinfo/benchmark_service.cpp:42 | a cancel that comes after the starter cleared the flag and before the last look at it keeps the run from ending as complete |
| `BenchmarkService.CancelIsSureUnlessUncleared` | examples/sysinfo/benchmark_service.cpp:28-42 | a cancel before the last look at the flag is sure to end the run as cancelled, on every schedule, exactly when no starter has yet to clear the flag; otherwise a run completes in spite of it |
| `BenchmarkService.UnclearedHappens` | examples/sysinfo/benchmark_service.cpp:31-34 | a moment at which a cancel can be lost is reached right after the first start |
| `BenchmarkService.InternalStepsRunOut` | examples/sysinfo/benchmark_service.cpp:61-109 | the steps of worker and starters run out under every schedule |
| `BenchmarkService.RestMeansDone` | examples/sysinfo/benchmark_service.cpp:61-109 | when they have run out every accepted run is done and nobody waits, and after a stop the worker is gone |
| `BenchmarkService.StopEnds` | examples/sysinfo/benchmark_service.cpp:12-21 | in every run, once the destructor has woken the worker and its steps have run out it is gone; without a stop it is not |
| `BenchmarkService.WokenAtTheEnd` | examples/sysinfo/benchmark_service.cpp:103-107 | a blocked caller is woken by chance, behind the end of a run, and by the destructor, and by nothing else |
| `BenchmarkService.WholeRunHappens` | examples/sysinfo/benchmark_service.cpp:23-109 | a run of one kernel posts its announcement, its result, its count and its end, while a caller waits and is released, and the service is torn down |
| `ExportWriter.HoldsOneThing` | examples/logmonitor/export_writer.cpp:13-38 | in every run at most one of pending, working and published holds |
| `ExportWriter.EachOnceInOrder` | examples/logmonitor/export_writer.cpp:17-44 | every accepted job is written once in order, and its result taken at most once in that order |
| `ExportWriter.AcceptedOrUntouched` | examples/logmonitor/export_writer.cpp:34-39 | a job is accepted exactly when it fits, nothing is under way and the writer is not stopping; a refusal changes neither writer nor job |
| `ExportWriter.InternalStepsRunOut` | examples/logmonitor/export_writer.cpp:17-30 | the steps of the worker run out |
| `ExportWriter.RestMeansWritten` | examples/logmonitor/export_writer.cpp:17-30 | when they have run out every accepted job is written, also after a stop |
| `ExportWriter.GoneMeansWritten` | examples/logmonitor/export_writer.cpp:20-22 | the worker leaves only when every accepted job has been written |
| `ExportWriter.StopEnds` | examples/logmonitor/export_writer.cpp:16-22 | at rest, the worker is gone exactly if the writer was told to stop |
| `ExportWriter.WholeRunHappens` | examples/logmonitor/export_writer.cpp:13-44 | a job can be handed in, written and its result taken, and the writer stopped |
| `ExportWriter.TakesNextResult` | examples/logmonitor/export_writer.cpp:40-44 | take answers exactly when a result is there, and hands over that of the first write whose result has not been taken |
| `LogExport.LogMonitor.StopSource` | examples/logmonitor/logmonitor_app.cpp:232-239 | a stop has no guard: the source no longer waits to be restarted, and its stream is finished, frozen or not, unless its mailbox refuses; a copy of it under way goes on over the rows as finished |
| `LogExport.LogMonitor.Retry` | examples/logmonitor/logmonitor_app.cpp:240-248 | refused while the source is the one of the snapshot; a follower that retries by itself keeps its lane and its rows; any other source is detached, stopped and finished, and waits to be restarted |
| `LogExport.LogMonitor.Restart` | examples/logmonitor/logmonitor_app.cpp:387-389 | a source that waits to be restarted gets its lane back, frozen or not |
| `LogExport.LogMonitor.Close` | examples/logmonitor/logmonitor_app.cpp:249-256 | a snapshot of the closed source goes with it |
| `LogExport.LogMonitor.ClearRetention` | examples/logmonitor/logmonitor_app.cpp:221-224 | refused exactly while the source is frozen, and then nothing changes |
| `LogExport.LogMonitor.BeginExport` | examples/logmonitor/logmonitor_app.cpp:308-313 | one export at a time |
| `LogExport.LogMonitor.Freeze` | examples/logmonitor/logmonitor_app.cpp:321-334 | the source is frozen and detached, and a copy of all its rows or of the selection, whichever way that was made, begins |
| `LogExport.LogMonitor.CopyRows` | examples/logmonitor/logmonitor_app.cpp:342-351 | one quantum copies rows up to 128 records or 64 KiB, fails exactly when the next line would exceed 2 MiB, and computes the turn of a copy |
| `LogExport.LogMonitor.ExportStep` | examples/logmonitor/logmonitor_app.cpp:314-358 | the turn that freezes the source begins a copy of its rows, and every turn from there on, with every restart, feed and stop of the source, is one of that copy; what is submitted, or given up for its length, is what has become of it: the one pass over the rows at the freezing, if the copy is safe at each of its pauses; these are exactly the rows chosen, with both ends of a selection, and what is submitted holds the line of each that is present and of no other; no other source is touched |
| `LogExport.FreezingChooses` | examples/logmonitor/logmonitor_app.cpp:321-334 | a copy is made of exactly the chosen rows: of a selection, those from one of its ends to the other, both included; without one, all; with the heading before them |
| `ExportCopy.WholeHolds` | examples/logmonitor/logmonitor_app.cpp:342-351 | the one pass is the heading, then for each row that is present its name in brackets, a blank, its text and a newline, one after the other, and nothing else |
| `ExportCopy.FinishShows` | src/widgets/log_model.cpp:183-224 | finishing a stream commits the unfinished record, with more text if it held undecoded bytes, and evicts the oldest records for it: whatever rows that changes, it changes in their text |
| `ExportCopy.RightOnEverySchedule` | examples/logmonitor/logmonitor_app.cpp:314-358 | a copy comes out as the one pass over the rows at the freezing, or is given up exactly when that is too long, on every schedule of turns, restarts, feeds and stops, if and only if at no pause of the copy its source waits to be restarted, or would by being finished change the text that comes of it |
| `ExportCopy.SafeRowByRow` | examples/logmonitor/logmonitor_app.cpp:314-358 | for a pass within 2 MiB that is so exactly when every row that the first turn leaves for a later one is of a source that does not wait to be restarted, and one that finishing leaves unchanged in its place |
| `ExportCopy.FirstTurnSettlesIt` | examples/logmonitor/logmonitor_app.cpp:342-351 | the first turn is the last exactly when no row short of the end has 128 records or 64 KiB of text before it, from the first row on, within 2 MiB; and exactly then the copy never pauses |
| `ExportCopy.SafeRun` | examples/logmonitor/logmonitor_app.cpp:342-358 | on every schedule, a safe copy is on its course: at one of its pauses over the rows as they were, or finished at one of them, or at its proper end |
| `ExportCopy.WaitingRun` | examples/logmonitor/logmonitor_app.cpp:342-358 | a copy whose source still waits to be restarted has gone on over the rows as they were |
| `ExportCopy.TurnsEnd` | examples/logmonitor/logmonitor_app.cpp:342-358 | left to itself, a copy ends right within as many turns as it has rows, and one |
| `LogExport.LogMonitor.Spoil` | examples/logmonitor/logmonitor_app.cpp:387-389 | whenever a copy is under way and its source waits to be restarted, a restart, a feed and one more turn submit a text that is not the one pass, or give up one within the limit |
| `LogExport.LogMonitor.SpoilByStop` | examples/logmonitor/logmonitor_app.cpp:232-239 | whenever a copy pauses where finishing would change its text, a stop and the turns that are left do the same |
| `LogExport.LogMonitor.RestartHappens` | examples/logmonitor/logmonitor_app.cpp:387-389 | such a restart can be reached: 129 rows, a retry, an export |
| `LogExport.LogMonitor.StopHappens` | examples/logmonitor/logmonitor_app.cpp:232-239 | so can such a stop: 129 rows, the last of them unfinished |
| `SampleFile.SampleFile.Append` | examples/logmonitor/sample_file.cpp:39-45 | appends when the bytes fit into 8192 with what is there, and otherwise starts over with as many of them as fit |
| `SampleFile.SampleFile.Rotate` | examples/logmonitor/sample_file.cpp:46-50 | the other buffer becomes an empty file under a new identity, hence a key never seen before, and the old one stays |
| `SampleFile.SampleFile.Truncate` | examples/logmonitor/sample_file.cpp:51 | empties the file under its next version, a key never seen before |
| `SampleFile.Session.Request` | examples/logmonitor/sample_file.cpp:10-24 | publishes the observed file, and for a read the slice of its contents |
| `SampleFile.SampleFile.SameKeySameContents` | examples/logmonitor/sample_file.cpp:10-24 | observations with equal identity and version report on the same contents, of at most 8192 bytes |
| `SampleFile.SampleFile.UnchangedKeyUnchangedFile` | examples/logmonitor/sample_file.cpp:39-51 | an observation that still has the key of the file reports on what is in it |
| `ReportFormat.DecimalDigits` | examples/sysinfo/report_format.cpp:14-23 | writes the decimal numeral of any 64-bit number in its buffer |
| `ReportFormat.DecimalReadsBack` | examples/sysinfo/report_format.cpp:14-23 | the numeral reads back as the number and has no leading zero |
| `ReportFormat.OneNumeral` | examples/sysinfo/report_format.cpp:14-23 | it is the only such numeral |
| `ReportFormat.ScaleIsNearest` | examples/sysinfo/report_format.cpp:39-51 | scaling rounds to the nearest tenth, with the carry into the whole |
| `ReportFormat.NoOverflow` | examples/sysinfo/report_format.cpp:39-51 | no product or sum on the way exceeds 64 bits |
| `ReportFormat.ShowBytes` | examples/sysinfo/report_format.cpp:59-73 | computes the unit and tenths shown |
| `ReportFormat.ShownBounds` | examples/sysinfo/report_format.cpp:59-73 | never shows 1024 or more of a unit, nor less than one of any unit but the byte |
| `ReportFormat.ShownIsClose` | examples/sysinfo/report_format.cpp:59-73 | what is shown is within half a tenth of its unit |
| `ReportFormat.ShownGrows` | examples/sysinfo/report_format.cpp:59-73 | more bytes never show as less |
| `ReportFormat.FormatBytes` | examples/sysinfo/report_format.cpp:59-75 | writes what is shown |
| `ReportFormat.BytesReadBack` | examples/sysinfo/report_format.cpp:59-75 | what is shown of a byte count, with its unit, can be read back from its text |
| `ReportFormat.DurationReadsBack` | examples/sysinfo/report_format.cpp:84-92 | every duration that is not negative can be read back from its text |
| `FramePalette.FramePalette.Reset` | examples/spin/renderer.cpp:63-67 | a new frame has the background as its only entry, and a budget within 2 and 256 |
| `FramePalette.FramePalette.Intern` | examples/spin/renderer.cpp:69-93 | the index of a colour is where the table, grown if need be, has it, or its nearest entry; entries stay distinct and within the budget |
| `FramePalette.LookupIsNearest` | examples/spin/renderer.cpp:80-92 | the entry found is the first with the least sum of squared differences of red, green and blue |
| `FramePalette.SettledIsStable` | examples/spin/renderer.cpp:69-93 | once interned, a colour keeps its index whatever is interned after it, also when the table is full |
| `FramePalette.ShownAsBackground` | examples/spin/renderer.hpp:54-57 | a colour is drawn as the background exactly when it is the background colour, or the table is full without it and no entry is nearer |
| `FramePalette.FullTableHidesColor` | examples/spin/renderer.hpp:54-57 | a full table can draw a colour unlike the background as the background |
| `Coverage.Resolver.StartFrame` | examples/spin/renderer.cpp:101-102 | a new frame starts with an empty cache, the background alone in the table and a budget within 2 and 256 |
| `Coverage.MixIsBetween` | examples/spin/renderer.cpp:321-323 | a blend lies between its two parts, and full coverage is the front itself |
| `Coverage.MixIsMean` | examples/spin/renderer.cpp:321-323 | a blend is the value nearest to the mean of the four samples, covered ones in front and the others in the background, the larger of two equally near |
| `Coverage.BlendIsMean` | examples/spin/renderer.cpp:318-325 | each channel of a blend is the mean of the same channel of the entry and of the background |
| `Coverage.SamplesAre` | examples/spin/renderer.cpp:277-285 | the samples of a pixel are the subpixels of its square, row by row |
| `Coverage.ShowingDepicts` | examples/spin/renderer.cpp:276-306 | a pixel without covered samples shows the background; one with all covered shows the most frequent entry; and one with some covered shows the blend of that entry with the background for as many, as itself while the table has room |
| `Coverage.PixelExtremes` | examples/spin/renderer.cpp:283-306 | a pixel all of whose samples show one entry, or the background, shows it unblended |
| `Coverage.Resolver.CoverageIndex` | examples/spin/renderer.cpp:311-328 | with the cache, index and table are what they would be without it; and the colour found is the mean blend of the entry with the background, as itself if the table has room |
| `Coverage.ShadeIsStable` | examples/spin/renderer.cpp:311-328 | a blend found once is found alike in every later table of the frame |
| `Coverage.WinnerWins` | examples/spin/renderer.cpp:293-304 | the winner of a pixel is its most frequent entry, and of several such the smallest |
| `Coverage.FindWinner` | examples/spin/renderer.cpp:293-304 | finds that winner |
| `Coverage.Resolver.Resolve` | examples/spin/renderer.cpp:271-309 | every pixel shows what its samples call for in the final table, although the table grows from pixel to pixel: the background, the most frequent entry of its subpixels, or the mean blend of the two |
| `Polygon.CrossingIsOnEdge` | examples/spin/renderer.cpp:226-227 | a crossing is the point of the edge at the height of the scanline |
| `Polygon.CrossingsAreEven` | examples/spin/renderer.cpp:221-228 | a closed loop crosses every scanline an even number of times |
| `Polygon.PairsAreInside` | examples/spin/renderer.cpp:229-233 | among sorted crossings, the pairs hold exactly the centres that lie on a crossing or have an odd number of them to the left |
| `Polygon.RectangleInside` | examples/spin/renderer.cpp:212-245 | of a rectangle, the cells are inside whose centres are between its sides: three of them belong to it, and the one at the larger height does not |
| `Polygon.FillRow` | examples/spin/renderer.cpp:218-242 | of one row exactly the cells inside are written |
| `Polygon.FillPolygon` | examples/spin/renderer.cpp:212-245 | of the whole raster exactly the cells inside the loop by the even-odd rule are written, and nothing outside the raster |
| `Polygon.Stamp` | examples/spin/renderer.cpp:258-269 | writes the square around a point, shifted at the left and upper edge and cut off at the others |

## Left out

- Widgets, windows, menus, theming and painting: wiring of objects without a hard property.
- Operating-system boundaries: PTY, processes, polling, files and disks, event logs, environment
  variables and clocks. Where a modelled operation depends on one, its answer is a parameter, a
  nondeterministic choice or a step that any thread may take.
- Exceptions, allocation failure and weak memory: lock regions and atomic accesses are single steps
  of a sequentially consistent run.
- Floating-point geometry other than polygon filling: projection, shading, meshes, benchmark rates.
- Percentiles, matrix multiplication, the integer mix and the stream triad: they would
  add only easy members.
- Capability probing, the explanation text and the diagnostic status of the feed.
- Stale sources and epochs, occupancy figures, wake-ups, reset and cancellation of the mailbox:
  `src/core/log_mailbox.cpp:96-98, 141-155 and 166-189` are not part of this model.
- The include scan and the layer rules before the cycle search, and the printed text of a cycle.
- The rows of a log filter, its query and the wording of an export heading: rows are given. They
  change when a lane feeds their source, when its stream is finished, and when retention is cleared.
- The arena of the record store: which rows finishing a stream leaves is given, as any that
  `src/widgets/log_model.cpp:183-224` can leave: some of the oldest gone, and the last one longer or
  new; or, of rows that a filter chose, some gone from their places.
- ProcessJsonFeed.Feed.Step: counters are unbounded numbers where the program has 64 bits, and what
  the process has come to is a parameter of the turn.
- Coverage.Resolver.Resolve: the raster is given as rows, and the frame is a two-dimensional array
  where the program keeps flat vectors.
- Polygon.FillPolygon: coordinates are exact reals and the raster is a two-dimensional array;
  rounding of doubles and the conversion of very large coordinates to integers are not modelled.
- Polygon.Sort: the order of the crossings is established by insertion, as the library's own
  algorithm is not part of the repository.
- SampleFile.SampleFile.SameKeySameContents: identities and versions do not wrap around.
- LogExport.LogMonitor.ExportStep: the heading is given and within the limit, as names and filters
  are bounded where they are set; and the position is advanced after a row is copied, not before,
  which differs only in a snapshot that is given up.
- RenderService.RestMeansDone: fairness is not modelled; runs of internal steps are finite, and they
  end with the work done.
- BenchmarkService.RestMeansDone: likewise.
