# A verified model of the HTTP flow observer

The repository traces HTTP requests through a machine. A C collector turns a stream of kernel events into bounded
per-socket state and exports one timeline per request. A Java agent records nested method spans, merges them with
the exported timeline and appends a line to a file, which the collector reads back. A separate C client receives
HTTP responses and decides from the bytes when a response is complete.

This project models those pieces in Dafny and proves what they promise, over every event stream, every sequence of
`recv` results, every call tree and every text that the formats can carry. `dafny verify dfyconfig.toml` checks it.

| files | what they model |
|---|---|
| `Events`, `Bits`, `ProbeTable`, `EventQueue`, `ConnectionTable`, `Timeline`, `Collector` | the collector's mutable state: two open-addressed tables, the ring buffer, the callback that feeds them |
| `TimelineHistory`, `Latency` | that state as a function of the event history; deltas, totals, layers and metrics |
| `EventNames`, `Text`, `KernelFile` | the handoff file from collector to agent |
| `Tracer`, `RootedTraces`, `FlowTimeline`, `SqlText`, `MergedSteps` | the agent: spans, call trees, SQL text, the merge and its totals |
| `JsonText`, `JsonFields`, `MergedFile`, `LineFields` | the merged file: escaping, objects, writer and reader, and what stands in a line under which key |
| `CutFields`, `MergedNumbers`, `ObjectScan`, `ObjectFront`, `StepFront`, `StepSurvival` | what the collector reads of one step's object, wherever its texts have braces and however long it is |
| `LastPiece`, `MergedRoundTrip`, `MergedTotals`, `MergedExamples` | what it reads of the whole line, however long that is, and the two sums it keeps |
| `HttpFraming`, `RecvLoop`, `HttpReader`, `ChunkedBody`, `HttpMessages`, `StatedFraming`, `SendAll` | the client's framing decisions and loops |
| `EndToEnd` | results that cross from one program to the other and back |

Objects that the sources update in place are classes with those fields. Each method's contract gives its whole
effect as a function of the old state, and the lemmas are about that function. The collector's invariant says that
its state equals three functions of the history: `ConnectionTables.Run`, `TimelineHistory.Run` and the first 4096
events. A C `do ... while` probe is a `while true` loop with a `break` at its end. C structs in static arrays are
values in arrays.

## What the proofs turned up

- A timeline's deltas add up to its total exactly when its clock never ran backwards, or did so once and ended
  behind its start (`Latency.DeltasMatchTotal`).
- The handoff file delivers every entry as recorded exactly when every delta and the total are below 2^63, because
  Java's `parseLong` throws and ends the read loop, and no process name has a `|`, a line break or a blank at its ends
  (`KernelFile.HandoffIsLosslessExactlyWhen`). A clock that steps back even a little makes a delta that large
  (`EndToEnd.SteppedBackExportLosesEntries`).
- The scanner of the merged file takes the first `}` for the end of an object, even inside a text, and copies at most
  1023 characters. In header, section and kernel objects that does no harm. An application object always comes back as
  one step of the right section, and unchanged exactly when enough is seen of each field
  (`StepFront.ApplicationStepIsRead`, `StepSurvival.ReadBackIsKeptExactlyWhen`).
- The collector keeps only the last part of a line, from the last multiple of 8191 before its end. The steps that start
  before it are lost, which happens with 64 spans of a thread with a name of 40 characters
  (`LastPiece.LastPieceOf`, `MergedRoundTrip.AppendedLineIsRead`, `MergedExamples.TheFirstIsLost`).
- The collector's `spring_us` and `db_us` are at most the agent's section totals. They fall short exactly when a step
  took time that was lost with a long line, that lies behind the 64 steps that are read from there on, or whose
  duration was not all seen (`MergedTotals.ReadTotalsAgreeExactlyWhen`, `MergedExamples.RequestsFallShort`).
- A socket's timeline is independent of the rest of the traffic exactly when the socket is among the first 1024 to
  start a request, or never starts one (`TimelineHistory.Isolation`).
- `json_escape` stores the full escaping exactly when it fits; when it does not, what it stores is a well-formed
  escaping exactly unless the cut falls before a special character with one byte left
  (`JsonText.JsonEscapeExactlyWhen`, `JsonText.StoresAnEscapingExactlyWhen`).
- Latching the content length is sound exactly when the Content-Length value is not blank; a blank one makes
  `strtoull` read on into the body (`HttpFraming.LengthIsStableExactlyWhen`).
- Two splits of one response with a blank Content-Length are read to different ends
  (`HttpMessages.BlankLengthSplitsMatter`, `HttpMessages.SplitsDiffer`).
- A length-framed response is received whole, however it is split, exactly unless its body announces and ends chunked
  framing before its last byte, because the test for chunked framing searches the body too
  (`HttpMessages.LengthMessageReceivedExactlyWhen`, `HttpMessages.PagesAreCutShort`).
- A chunked response is received whole, however it is split, exactly when no chunk, with its line ends, contains the
  terminator or a NUL (`ChunkedBody.RecognisedExactlyWhenHarmless`, `HttpMessages.ChunkedMessageReceivedExactlyWhen`).
- Tracing dumps exactly the TOMCAT subtrees exactly when SPRING_MVC occurs only under TOMCAT and TOMCAT never nests
  (`RootedTraces.TracesExactlyWhenRooted`); a SPRING_MVC call without a TOMCAT caller leaves its request open
  (`Tracers.UnrootedRequestStaysOpen`).
- Collector and agent put payload queueing into different layers, yet report the same kernel time
  (`MergedSteps.KernelTotalsAgree`).

## Model

| member | source | states |
|---|---|---|
| ProbeTable.EarlyStoppingIsEnough | http-flow-observer/collector/timeline.c:50-65 | in a well-formed table the full-ring scan, the set of held keys and a probe that stops at the first free slot all agree |
| ProbeTable.HomeBits | http-flow-observer/collector/connection_table.c:20-23 | bit by bit, a socket's home is the low ten bits of the pointer, exclusive-or those of its upper half |
| ProbeTable.ClaimKeepsWellFormed | http-flow-observer/collector/timeline.c:77-91 | taking the first free slot in probe order keeps keys unique and leaves no free slot between a key's home and its slot |
| ProbeTable.FullExactlyAtCapacity | http-flow-observer/collector/connection_table.c:61-82 | pigeonhole: 1024 distinct keys are held exactly when no slot is free |
| ProbeTable.AdmittedAfter | http-flow-observer/collector/connection_table.c:94-104 | a key that asks for the first time is admitted exactly while fewer than 1024 are |
| EventQueues.EventQueue.constructor | http-flow-observer/collector/event_queue.c:5-8 | a new queue is empty and its slots spell out that queue |
| EventQueues.EventQueue.Push | http-flow-observer/collector/event_queue.c:20-36 | appends at the back exactly while fewer than 4096 events are queued; accepted events are the returned ones followed by the queued ones |
| EventQueues.EventQueue.Pop | http-flow-observer/collector/event_queue.c:38-54 | returns the oldest queued event, or nothing exactly when the queue is empty; first in, first out |
| EventQueues.EventQueue.Size | http-flow-observer/collector/event_queue.c:56-59 | the length of the queue that the slots spell out |
| EventQueues.EventQueue.Clear | http-flow-observer/collector/event_queue.c:61-68 | the queue is empty again and still consistent |
| ConnectionTables.ConnectionTable.Find | http-flow-observer/collector/connection_table.c:41-56 | a slot is found exactly when the socket is held, and it holds that socket's entry |
| ConnectionTables.ConnectionTable.AllocSlot | http-flow-observer/collector/connection_table.c:63-82 | the first free slot in probe order; none exactly when 1024 sockets are held |
| ConnectionTables.ConnectionTable.Open | http-flow-observer/collector/connection_table.c:99-114 | a socket without an entry gets a fresh one if a slot is free; every other entry is untouched |
| ConnectionTables.ConnectionTable.Record | http-flow-observer/collector/connection_table.c:116-149 | one event changes exactly its socket's entry: last event, count modulo 2^64, addresses if given, lifecycle state |
| ConnectionTables.ConnectionTable.Update | http-flow-observer/collector/connection_table.c:89-150 | refines one step of the abstract map, including socket 0 and the full table |
| ConnectionTables.SocketsSeenMeaning | http-flow-observer/collector/connection_table.c:94-104 | the list of admitted candidates has each nonzero socket of the history once, ordered by first appearance |
| ConnectionTables.KeysAreTheFirstSockets | http-flow-observer/collector/connection_table.c:89-114 | after any history the keys are the first 1024 distinct nonzero sockets |
| ConnectionTables.LastAddressedMeaning | http-flow-observer/collector/connection_table.c:110-126 | the addresses come from the last event with a source address, or from the first event if none has one |
| ConnectionTables.StateAfter | http-flow-observer/collector/connection_table.c:129-149 | no sequence of events makes a connection CLOSED |
| ConnectionTables.NoLifecycleIsNew | http-flow-observer/collector/connection_table.c:129-149 | without an accept that returned, queued data, a readable socket, a receive, a send call or TCP_SENDMSG the state stays NEW |
| ConnectionTables.LastLifecycleDecides | http-flow-observer/collector/connection_table.c:129-149 | otherwise the last of these events alone decides it: ACCEPT for the accept, ACTIVE for the five others |
| ConnectionTables.RecordedKeepsSummary | http-flow-observer/collector/connection_table.c:116-149 | recording an event turns a summary of a socket's events into the summary of one event more |
| ConnectionTables.EntriesSummariseTheirSockets | http-flow-observer/collector/connection_table.c:89-150 | whole-run refinement: every entry's count, first time, pid, last event, addresses and state are those of exactly its socket's events |
| ConnectionTables.NotHeldMeansUnseen | http-flow-observer/collector/connection_table.c:97-104 | while there is room a socket is absent only because it never occurred |
| Events.OfSocketPositions | http-flow-observer/collector/connection_table.c:89-104 | the events of a socket are exactly those of the history with its pointer, each once, in order |
| Timelines.TimelineTable.Find | http-flow-observer/collector/timeline.c:50-65 | a slot is found exactly when the socket has a timeline, and it is that socket's |
| Timelines.TimelineTable.FindFree | http-flow-observer/collector/timeline.c:77-91 | the first free slot in probe order; none exactly when 1024 sockets are held |
| Timelines.TimelineTable.Create | http-flow-observer/collector/timeline.c:67-94 | creation fails exactly when 1024 sockets are held; otherwise the socket gets an empty timeline and no other changes |
| Timelines.TimelineTable.Append | http-flow-observer/collector/timeline.c:991-1007 | the event goes behind the 64-entry cut with its modular delta; every other socket's timeline is untouched |
| Timelines.TimelineTable.UpdateMetrics | http-flow-observer/collector/timeline.c:538-556 | the five counters after one more exported timeline |
| Timelines.TimelineTable.Restart | http-flow-observer/collector/timeline.c:1059-1063 | the slot's timeline becomes active with exactly the starting event |
| Timelines.TimelineTable.Start | http-flow-observer/collector/timeline.c:1048-1064 | refines the abstract start, including socket 0 and the full table |
| Timelines.TimelineTable.AddEvent | http-flow-observer/collector/timeline.c:1066-1078 | refines the abstract append; ignored without an active timeline |
| Timelines.TimelineTable.Close | http-flow-observer/collector/timeline.c:1104-1117 | the timeline is exported unless it is too short, and is closed and emptied either way |
| Timelines.TimelineTable.Finish | http-flow-observer/collector/timeline.c:1080-1118 | refines the abstract finish: timeline, exports and metrics together |
| TimelineHistory.DispatchIsLocal | http-flow-observer/collector/collector.c:137-159 | one event changes at most the timeline of its own socket |
| TimelineHistory.DispatchAdmits | http-flow-observer/collector/collector.c:137-159 | a socket is admitted exactly by a start that passes the port filter while there is room |
| TimelineHistory.DispatchKeepsRefinement | http-flow-observer/collector/collector.c:137-159 | the callback keeps a socket's timeline equal to what its own events say |
| TimelineHistory.TimelineRefinement | http-flow-observer/collector/collector.c:126-159 | after any history a held timeline is its socket's own events since its last start, cut to 64, and closed and empty once answered |
| TimelineHistory.LastStartMeaning | http-flow-observer/collector/collector.c:139-149 | the window begins at the last receive that passed the filter, and no later event of the socket is one |
| TimelineHistory.HeldAreTheFirstStarters | http-flow-observer/collector/timeline.c:1048-1064 | the sockets held are the first 1024 that started a request |
| TimelineHistory.StartersMeaning | http-flow-observer/collector/collector.c:139-149 | the starters are exactly the nonzero sockets with a receive that passed the filter |
| TimelineHistory.StartersOnEvents | http-flow-observer/collector/collector.c:139-149 | on the events: with filter port 0 a nonzero socket is a starter if and only if it has a TCP_V4_RCV; with another port if and only if it has one from or to that port |
| TimelineHistory.OwnPositions | http-flow-observer/collector/collector.c:137-159 | a socket's own events are exactly its events without the receives that the filter drops, each once, in order; port 0 drops none |
| TimelineHistory.StartersAreOrdered | http-flow-observer/collector/timeline.c:1048-1064 | each starter is listed once, and more history only adds starters at the end |
| TimelineHistory.Isolation | http-flow-observer/collector/collector.c:126-159 | running on one socket's events alone gives it the same timeline if and only if it was admitted or never starts |
| TimelineHistory.ExportRefinement | http-flow-observer/collector/timeline.c:1080-1118 | the exports of any run are exactly one timeline per event that answers an open request of an admitted socket and is long enough, in order |
| TimelineHistory.ExportShape | http-flow-observer/collector/timeline.c:991-1118 | an export starts with its only TCP_V4_RCV, holds only its socket's events, and has TCP_SENDMSG only as last entry, exactly when fewer than 64 events preceded it |
| TimelineHistory.AllExportsWellShaped | http-flow-observer/collector/timeline.c:991-1118 | so has every timeline that any run exports, with between `min_steps` and 64 entries |
| Collectors.Collector.constructor | http-flow-observer/collector/timeline.c:1009-1030 | the initial state is that of the empty history |
| Collectors.Collector.BuildTimeline | http-flow-observer/collector/collector.c:137-159 | the switch refines one abstract dispatch |
| Collectors.Collector.HandleEvent | http-flow-observer/collector/collector.c:126-161 | the invariant that both tables, the exports, the metrics and the queue are functions of the history is kept as the history grows |
| Latency.DeltasTelescope | http-flow-observer/collector/timeline.c:991-1007 | stored deltas add up to last minus first, plus 2^64 for each time the clock ran backwards |
| Latency.DeltasMatchTotal | http-flow-observer/collector/timeline.c:253-259 | they equal the reported total modulo 2^64 always, and exactly under a condition on the descents, if and only if |
| Latency.InTimeFits | http-flow-observer/collector/timeline.c:991-1007 | every delta and the total fit a Java `long` if and only if neighbouring clock readings, and the first and the last, are less than 2^63 ns apart |
| Latency.SteadyIsInTime | http-flow-observer/collector/timeline.c:991-1007 | for a clock that never runs backwards that means that the whole request takes less than 2^63 ns |
| Latency.HandoffOfEvents | http-flow-observer/agent/src/main/java/com/lab/agent/Tracer.java:758-835 | losslessness of the handoff stated on the recorded events: their timestamps and process names |
| Latency.BreakDown | http-flow-observer/collector/timeline.c:1192-1260 | each accumulator is the sum of the deltas of the events of its layer |
| Latency.BucketsPartition | http-flow-observer/collector/timeline.c:1192-1260 | the seven layers and the unnamed events partition the sum of the deltas |
| Latency.MetricsRefinement | http-flow-observer/collector/timeline.c:538-556 | after any history the metrics are those of exactly the exported timelines |
| Latency.CountersMeaning | http-flow-observer/collector/timeline.c:547-549 | the counters are the number of exports, and the sums of totals and entries modulo 2^64 |
| Latency.ExtremesMeaning | http-flow-observer/collector/timeline.c:551-555 | the extremes are the least and the greatest exported total, and are attained |
| Latency.MetricsBounds | http-flow-observer/collector/timeline.c:538-556 | over every run without counter overflow, min and max times the request count bound the total latency, and 64 and `min_steps` the events |
| EventNames.SectionsAgree | http-flow-observer/agent/src/main/java/com/lab/agent/Tracer.java:617-659 | the agent's section for an event's name is the collector's section for the event, named or not |
| EventNames.NamesAreLabels | http-flow-observer/collector/timeline.c:96-131 | every event name survives a field of the handoff file |
| EventNames.NameTellsKind | http-flow-observer/collector/timeline.c:96-131 | every named event is told by its name: no two share one, and none has the name of the unnamed |
| KernelFile.PrintSteps | http-flow-observer/collector/timeline.c:966-978 | one STEP line per entry, in order, numbered from 1 |
| KernelFile.WriteKernelRequestFile | http-flow-observer/collector/timeline.c:931-984 | the whole text of the file, or none for an empty timeline |
| KernelFile.ReadKernelSteps | http-flow-observer/agent/src/main/java/com/lab/agent/Tracer.java:758-835 | the steps read before the first malformed number, each completed with the shared fields |
| KernelFile.ReadAllLines | http-flow-observer/agent/src/main/java/com/lab/agent/Tracer.java:769-823 | the read loop goes line by line until the end of the text or the first malformed number |
| Text.ParseSign | http-flow-observer/agent/src/main/java/com/lab/agent/Tracer.java:797-811 | a sign in front of a number is understood, and only the negative range holds its bound |
| Text.LineEndsAreOneBreak | http-flow-observer/agent/src/main/java/com/lab/agent/Tracer.java:769-772 | a line ends at a line feed, a carriage return, or both together, which are one break |
| KernelFile.CompleteSteps | http-flow-observer/agent/src/main/java/com/lab/agent/Tracer.java:825-832 | every step gets the shared fields as the last lines left them |
| KernelFile.IpSpells | http-flow-observer/collector/timeline.c:216-224 | the address text is four numerals below 256 between dots, and they add up to the address with the lowest byte first |
| KernelFile.SplitHostPortRecovers | http-flow-observer/agent/src/main/java/com/lab/agent/Tracer.java:562-573 | from every endpoint text the agent recovers the two numbers, address and port |
| KernelFile.NoPortIsUnknown | http-flow-observer/agent/src/main/java/com/lab/agent/Tracer.java:562-573 | from a text without a colon it takes no port, and from an empty one no address either |
| KernelFile.HandoffRoundTrip | http-flow-observer/agent/src/main/java/com/lab/agent/Tracer.java:758-835 | the agent gets every entry up to the first delta of 2^63 or more: number, name, description, delta, process, pid, cpu, endpoints, socket, total |
| KernelFile.EndpointsArrive | http-flow-observer/collector/timeline.c:226-251 | every step that the agent gets names, as numbers, the client and the server of the first event, drawn by which of its ports is the application's, and its socket |
| KernelFile.ShortStepIsRead | http-flow-observer/agent/src/main/java/com/lab/agent/Tracer.java:803-815 | a step line without the later fields takes the process named before it, and processor 0 |
| KernelFile.LoneStepIsRead | http-flow-observer/agent/src/main/java/com/lab/agent/Tracer.java:758-835 | a file that is no more than such a line gives one step with everything else unknown |
| KernelFile.CarriableHandoff | http-flow-observer/agent/src/main/java/com/lab/agent/Tracer.java:758-835 | for names without separators and line breaks it gets all of them, completely but for blanks at the ends of names, if and only if every delta and the total fit a `long` |
| KernelFile.ReadLinesKeepNames | http-flow-observer/agent/src/main/java/com/lab/agent/Tracer.java:769-823 | whatever a file holds, no name that the reader holds has a separator or a line break in it |
| KernelFile.HandoffIsLosslessExactlyWhen | http-flow-observer/agent/src/main/java/com/lab/agent/Tracer.java:758-835 | for process names of any kind, every entry arrives exactly as recorded if and only if every delta and the total fit a `long` and no name has a separator, a line break or a blank at its ends |
| Tracers.DepthsStayPositions | http-flow-observer/agent/src/main/java/com/lab/agent/Tracer.java:65-112 | on any run, balanced or not, the open span at stack position i has depth i |
| Tracers.ExitAccounts | http-flow-observer/agent/src/main/java/com/lab/agent/Tracer.java:89-112 | one `exit` keeps every entered span open or finished; a dump holds all of its request's spans but those still open |
| Tracers.EverySpanIsAccounted | http-flow-observer/agent/src/main/java/com/lab/agent/Tracer.java:65-112 | conservation over any sequence of calls, balanced or not: open and finished spans together are exactly the spans entered since the request began, each once |
| Tracers.InsideRequest | http-flow-observer/agent/src/main/java/com/lab/agent/Tracer.java:84-104 | a balanced run inside a request restores the stack and appends its calls in post-order with their nesting depths |
| Tracers.TracingComputesPostOrder | http-flow-observer/agent/src/main/java/com/lab/agent/Tracer.java:65-112 | from the idle state the dumps are exactly the TOMCAT subtrees, in order, and the tracer is idle again |
| Tracers.TracingOneCall | http-flow-observer/agent/src/main/java/com/lab/agent/Tracer.java:65-112 | the same for a single call: one dump if it is a TOMCAT call, otherwise those of its callees |
| Tracers.DumpOfCall | http-flow-observer/agent/src/main/java/com/lab/agent/Tracer.java:65-112 | a TOMCAT call gives one dump: its total is the end of the request less its start, or 0 if that is negative, with a later reading in place of an end of 0; its root span says what the call reported |
| RootedTraces.LostForEver | http-flow-observer/agent/src/main/java/com/lab/agent/Tracer.java:65-112 | once a request is opened by a call other than TOMCAT, any further calls leave it open or dump it without its root |
| RootedTraces.NestedTomcatSpoils | http-flow-observer/agent/src/main/java/com/lab/agent/Tracer.java:106-111 | a TOMCAT call inside another call makes a dump that lacks its root |
| RootedTraces.RequestsAreRootedDumps | http-flow-observer/agent/src/main/java/com/lab/agent/Tracer.java:65-112 | in the specified dumps the root, and only the root, has depth 0, and it comes last |
| RootedTraces.TracesExactlyWhenRooted | http-flow-observer/agent/src/main/java/com/lab/agent/Tracer.java:65-112 | a balanced run from the idle state dumps exactly its TOMCAT subtrees and ends idle if and only if SPRING_MVC occurs only under TOMCAT and TOMCAT never nests |
| Tracers.UnrootedRequestStaysOpen | http-flow-observer/agent/src/main/java/com/lab/agent/Tracer.java:72-74 | a balanced SPRING_MVC call without a TOMCAT root is never dumped and leaves its request active |
| Tracers.SteadyClockNests | http-flow-observer/agent/src/main/java/com/lab/agent/FlowTimeline.java:19-54 | every call's interval lies inside its caller's and after its elder siblings if and only if the clock readings never decrease |
| Tracers.EachDepthFits | http-flow-observer/agent/src/main/java/com/lab/agent/Span.java:36-38 | the durations of the spans at any one depth add up to at most the interval around them |
| Tracers.CalleesFit | http-flow-observer/agent/src/main/java/com/lab/agent/Span.java:36-38 | direct callees' durations add up to at most their caller's |
| Tracers.RequestDepthsFit | http-flow-observer/agent/src/main/java/com/lab/agent/FlowTimeline.java:51-54 | for every depth the dumped spans add up to at most the request's reported time |
| FlowTimelines.FlowTimeline.Pop | http-flow-observer/agent/src/main/java/com/lab/agent/FlowTimeline.java:72-83 | the youngest open span is popped whether or not the names match |
| FlowTimelines.FlowTimeline.Total | http-flow-observer/agent/src/main/java/com/lab/agent/FlowTimeline.java:51-54 | the end of the request less its start if it has one behind that; a later reading stands in for an end of 0 |
| FlowTimelines.PushKeepsPartition | http-flow-observer/agent/src/main/java/com/lab/agent/FlowTimeline.java:68-70 | entering keeps every entered span in exactly one of stack and list |
| FlowTimelines.MoveKeepsPartition | http-flow-observer/agent/src/main/java/com/lab/agent/Tracer.java:98-104 | so does finishing the youngest open span |
| FlowTimelines.Tracer.Open | http-flow-observer/agent/src/main/java/com/lab/agent/Tracer.java:84-86 | a new span of the stack's depth goes on top and joins the entered ones; nothing else changes |
| FlowTimelines.Tracer.Enter | http-flow-observer/agent/src/main/java/com/lab/agent/Tracer.java:65-87 | refines the abstract enter, keeps the partition, and adds exactly the new span to those entered since the request began |
| FlowTimelines.Tracer.TakeYoungest | http-flow-observer/agent/src/main/java/com/lab/agent/Tracer.java:94-96 | the youngest open span leaves the stack and is in neither list |
| FlowTimelines.Tracer.Close | http-flow-observer/agent/src/main/java/com/lab/agent/Tracer.java:94-104 | the youngest open span moves to the list with its end stamped; all other spans keep their values |
| FlowTimelines.Tracer.Complete | http-flow-observer/agent/src/main/java/com/lab/agent/Tracer.java:106-110 | the request is dumped with its time and all its finished spans, and the timeline is as new |
| FlowTimelines.Tracer.Exit | http-flow-observer/agent/src/main/java/com/lab/agent/Tracer.java:89-112 | refines the abstract exit, keeps the partition, and leaves the entered spans as they are unless it ends the request |
| FlowTimelines.Tracer.DumpTimeline | http-flow-observer/agent/src/main/java/com/lab/agent/Tracer.java:114-170 | a request with spans is handed on with its id, its time and all its spans |
| SqlText.NormalisedOnce | http-flow-observer/agent/src/main/java/com/lab/agent/Tracer.java:854-875 | a statement is dropped if and only if it is blank; otherwise it becomes one single-spaced line of at most 180 characters, and a second pass changes nothing |
| SqlText.NormalisingAddsNothing | http-flow-observer/agent/src/main/java/com/lab/agent/Tracer.java:854-875 | a character that was not in the statement is not in the line, except for blanks and the dots of a cut |
| SqlText.NormalisedLine | http-flow-observer/agent/src/main/java/com/lab/agent/Tracer.java:854-875 | nothing is lost but blanks at the two ends: the collapsed text has the words of the statement in order, and of a line of more than 180 characters 177 stay |
| SqlText.WordsAreKept | http-flow-observer/agent/src/main/java/com/lab/agent/Tracer.java:854-875 | if every control character of the statement is white space, its words, in order, are those of the line |
| MergedSteps.PositionsPartition | http-flow-observer/agent/src/main/java/com/lab/agent/Tracer.java:499-511 | every kernel step lands in exactly one of the two parts, once, in input order |
| MergedSteps.SplitKernelSteps | http-flow-observer/agent/src/main/java/com/lab/agent/Tracer.java:496-511 | the loop computes that stable partition |
| MergedSteps.BuildMergedSteps | http-flow-observer/agent/src/main/java/com/lab/agent/Tracer.java:493-530 | kernel steps other than the response path, then the spans, then the response path, numbered from 1 |
| MergedSteps.MergedShowsKernelSteps | http-flow-observer/agent/src/main/java/com/lab/agent/Tracer.java:499-511 | each kernel step is in the request once, with its name, description, delta, section and process, `kernel` if it has none; those of the response path are last, in order, and the others first |
| MergedSteps.MergedShowsSpans | http-flow-observer/agent/src/main/java/com/lab/agent/Tracer.java:513-527 | between them stands each span in order, with its stage, thread, statement, time, the database for SQL_QUERY and POSTGRESQL and the application otherwise; all steps are numbered from 1 |
| MergedSteps.SpanIsDescribed | http-flow-observer/agent/src/main/java/com/lab/agent/Tracer.java:380-406 | a span is described by a fixed word of its stage, or by its class without the package, with the method outside the three layers |
| MergedSteps.SectionTotalsConserve | http-flow-observer/agent/src/main/java/com/lab/agent/Tracer.java:455-491 | the six section counts and times add up to the number of steps and their whole time |
| MergedSteps.AgentBreakdown | http-flow-observer/agent/src/main/java/com/lab/agent/Tracer.java:329-362 | each printed sum is the time of the steps of its layer |
| MergedSteps.AgentRedraws | http-flow-observer/agent/src/main/java/com/lab/agent/Tracer.java:343-361 | the agent's layer for an event's name is the collector's, except for payload queueing |
| MergedSteps.RedrawnAgainstBuckets | http-flow-observer/agent/src/main/java/com/lab/agent/Tracer.java:340-362 | layer by layer the two breakdowns differ by the payload queueing time, and by nothing else |
| MergedSteps.AgentSumsMatchCollector | http-flow-observer/agent/src/main/java/com/lab/agent/Tracer.java:340-362 | for every kernel layer the agent's sum over a merged request is the collector's time for it |
| MergedSteps.KernelTotalsAgree | http-flow-observer/agent/src/main/java/com/lab/agent/Tracer.java:340-362 | the agent's kernel layers add up to the collector's deltas less those of unnamed events |
| MergedSteps.AgentStagesAreApplication | http-flow-observer/agent/src/main/java/com/lab/agent/MethodTransformer.java:198-252 | of the stages that the instrumentation assigns, SQL_QUERY and POSTGRESQL count for PostgreSQL and all others for Spring, so spans never disturb the kernel layers |
| JsonText.JsonEscIsEsc | http-flow-observer/agent/src/main/java/com/lab/agent/Tracer.java:672-677 | two replacements in a row escape every special character exactly once |
| JsonText.JsonEscape | http-flow-observer/collector/timeline.c:293-323 | the buffer ends up holding the escaping with control characters left out, as far as it fits, NUL-terminated |
| JsonText.StripByCode | http-flow-observer/collector/timeline.c:305-320 | the control-free source: every character stays or goes by its own code alone, and stays from 32 on |
| JsonText.JsonEscapeExactlyWhen | http-flow-observer/collector/timeline.c:293-323 | the buffer is never overrun, and holds the full escaping if and only if it fits |
| JsonText.EscapeStores | http-flow-observer/collector/timeline.c:305-322 | what is stored is the escaping of a prefix of the control-free source, with at most one bare character behind it |
| JsonText.StoresAnEscapingExactlyWhen | http-flow-observer/collector/timeline.c:305-322 | it is the escaping of some text if and only if the cut does not fall before a special character with one byte left |
| JsonText.TruncationCanLeaveABareQuote | http-flow-observer/collector/timeline.c:309-319 | an input for which the cut stores a quote without its backslash |
| JsonText.JsonExtractString | http-flow-observer/collector/timeline.c:420-441 | finds the key's first occurrence and stores the unescaped value up to the closing quote, cut to the buffer; the buffer is untouched otherwise |
| JsonText.CopyChars | http-flow-observer/collector/timeline.c:433-439 | the copying loop computes that unescaping, in place |
| JsonText.UnescapedEsc | http-flow-observer/collector/timeline.c:433-439 | unescaping undoes escaping, up to the room there is, whatever follows the closing quote |
| JsonText.UnescapedMarked | http-flow-observer/collector/timeline.c:433-439 | whichever characters have a backslash in front, each is read as itself |
| JsonText.EscapeRoundTrip | http-flow-observer/collector/timeline.c:293-323 | what `json_escape` stores reads back as the control-free source, cut to the reader's buffer |
| JsonText.EscapedQuotes | http-flow-observer/agent/src/main/java/com/lab/agent/Tracer.java:672-677 | inside an escaped value every quote has a backslash before it |
| JsonFields.KeyAtStart | http-flow-observer/collector/timeline.c:428-432 | a pattern at the start of a field is that field's own key |
| JsonFields.NoPatternInside | http-flow-observer/collector/timeline.c:428-432 | no key pattern starts inside a field: not in its key, its escaped value or its closing quote |
| JsonFields.SearchFindsTheField | http-flow-observer/collector/timeline.c:428-432 | `strstr` for a key finds the first field with that key, or nothing if there is none |
| JsonFields.StrFieldReadsBack | http-flow-observer/collector/timeline.c:420-441 | a string field of an object comes back unescaped, cut to the reader's buffer |
| JsonFields.AbsentFieldIsNotFound | http-flow-observer/collector/timeline.c:428-430 | a key without a field is not found, whatever the values hold |
| JsonFields.KeyOccursOnce | http-flow-observer/collector/timeline.c:428-430 | a key's pattern occurs in an object at that key's field and nowhere else |
| JsonFields.OtherValueIsNotFound | http-flow-observer/collector/timeline.c:503 | a key with a value behind it is found only if the field has that value |
| MergedFile.SumSection | http-flow-observer/agent/src/main/java/com/lab/agent/Tracer.java:469-477 | count and time of the steps of one section |
| MergedFile.AppendSectionsJson | http-flow-observer/agent/src/main/java/com/lab/agent/Tracer.java:455-491 | appends the six section objects, separated by commas |
| MergedFile.WriteMergedRequest | http-flow-observer/agent/src/main/java/com/lab/agent/Tracer.java:407-453 | the whole line of a request |
| LineFields.HeaderReadsBack | http-flow-observer/agent/src/main/java/com/lab/agent/Tracer.java:418-421 | from the line of any writable request and any steps, uri, client and server come back, each under its own key |
| LineFields.HeaderShows | http-flow-observer/agent/src/main/java/com/lab/agent/Tracer.java:418-422 | behind `id` and `total_ms` stand the request's id and total |
| LineFields.ListsFollow | http-flow-observer/agent/src/main/java/com/lab/agent/Tracer.java:423-450 | behind `sections` stands the list of the sections' objects, and behind that the list of the steps' |
| LineFields.SectionReadsBack | http-flow-observer/agent/src/main/java/com/lab/agent/Tracer.java:455-491 | each section's object names it, gives the count of its steps, and reads back as their time |
| LineFields.StepTextsReadBack | http-flow-observer/agent/src/main/java/com/lab/agent/Tracer.java:431-437 | from the object of a step of either layer its section, layer, stage, description and process come back, each under its own key |
| LineFields.StepNumbersReadBack | http-flow-observer/agent/src/main/java/com/lab/agent/Tracer.java:433-442 | its number stands there, and its time reads back under `delta_us` for a kernel step and `duration_us` for a span |
| LineFields.StepSqlReadsBack | http-flow-observer/agent/src/main/java/com/lab/agent/Tracer.java:443-445 | its statement comes back cut to 120 characters, and none if it has none |
| MergedFile.ReadLastNonemptyLine | http-flow-observer/collector/timeline.c:388-418 | the last piece that `fgets` returns with something left after trimming |
| MergedFile.ParseLatestJvmSteps | http-flow-observer/collector/timeline.c:463-531 | the first `max_steps` application objects of that line, with the two section sums over exactly those |
| MergedNumbers.Fixed3ReadsBack | http-flow-observer/collector/timeline.c:443-461 | a printed duration reads back exactly, whatever follows it |
| MergedNumbers.SignedReadsBack | http-flow-observer/collector/timeline.c:443-461 | so does a negative one |
| MergedTotals.NormalisedSqlIsOneLine | http-flow-observer/agent/src/main/java/com/lab/agent/Tracer.java:854-865 | a normalised statement without NULs can stand in the file, with braces or without |
| CutFields.ShownIsRead | http-flow-observer/collector/timeline.c:433-439 | of an escaped text cut off after any number of characters, the characters that are spelled out come back, and a lone backslash as itself |
| CutFields.ShownSufficesExactlyWhen | http-flow-observer/collector/timeline.c:433-439 | that fills the reader's buffer as the whole text would if and only if the text or the buffer ends there, or only half an escaped backslash is missing |
| CutFields.TimeReadExactlyWhen | http-flow-observer/collector/timeline.c:443-461 | of a duration cut off anywhere never more than the duration is read, and all of it if and only if the digits that are not seen are zeros |
| ObjectScan.ScanSplit | http-flow-observer/collector/timeline.c:486-525 | behind any text that ends in a closing brace the scanner starts afresh |
| ObjectScan.LackingHasNoSteps | http-flow-observer/collector/timeline.c:503 | no piece of a text yields a step unless the text names the application layer |
| ObjectScan.StepsInJoin | http-flow-observer/collector/timeline.c:486-525 | a list of objects yields the steps of each, in order |
| ObjectScan.SuffixOfJoin | http-flow-observer/collector/timeline.c:486-525 | starting at any index of a list of objects, the reader finds the steps of exactly those that start there or later |
| ObjectScan.StartedBeforeMeaning | http-flow-observer/collector/timeline.c:486-525 | how the objects before an index are counted: by where each of them starts |
| ObjectFront.FrontEnds | http-flow-observer/collector/timeline.c:487-501 | the piece that the scanner cuts out ends inside the first value with a closing brace, or is the whole object |
| ObjectFront.ReadsText | http-flow-observer/collector/timeline.c:420-441 | from the first characters of an object, however many, a text comes back as far as it is seen, and not at all if its key is not |
| ObjectFront.ReadsNumber | http-flow-observer/collector/timeline.c:443-461 | so does a duration |
| ObjectFront.ReadsNothing | http-flow-observer/collector/timeline.c:428-430 | a key that the object does not have is not found there |
| StepFront.FrontIsRead | http-flow-observer/collector/timeline.c:494-514 | every field of the step that the reader makes of an application object that it copies through the first brace or to the end of its buffer |
| StepFront.KernelStepIsPassedOver | http-flow-observer/collector/timeline.c:489-503 | a kernel object of any length yields no step, whatever its texts hold |
| StepFront.ApplicationStepIsRead | http-flow-observer/collector/timeline.c:489-521 | an application object of any length yields exactly one step, wherever its texts have braces |
| StepFront.StepIsReadFromItsStart | http-flow-observer/collector/timeline.c:486-503 | a reading that starts anywhere behind the first character of a step's object finds no step in it |
| StepSurvival.ReadBackIsKeptExactlyWhen | http-flow-observer/collector/timeline.c:487-514 | the step has every text, cut to its buffer, and the exact duration if and only if enough is seen of each field |
| StepSurvival.SurvivesExactlyWhenNothingBehindBrace | http-flow-observer/collector/timeline.c:487-514 | if the reader's buffer holds the object through its first brace, that means that nothing that matters follows this brace |
| StepFront.SectionIsRight | http-flow-observer/collector/timeline.c:505-519 | of every application object one step is read, with the right section and no more time than it took |
| MergedRoundTrip.NoLayerNoStep | http-flow-observer/collector/timeline.c:486-503 | an object without a layer, as header and sections are, yields no step wherever its texts have braces and wherever the reading starts |
| MergedRoundTrip.PieceOfLine | http-flow-observer/collector/timeline.c:486-531 | from any index of a written line on, the reader finds one step for each application step whose object starts there or later, in order, and nothing else |
| MergedRoundTrip.StepStandsThere | http-flow-observer/agent/src/main/java/com/lab/agent/Tracer.java:407-453 | the object of a step stands in the line where the count of skipped steps takes it to start |
| LastPiece.EarlierLinesArePassed | http-flow-observer/collector/timeline.c:402-414 | complete lines of any length at the front of the file do not change what is read of what follows |
| LastPiece.WhiteBehindIsIgnored | http-flow-observer/collector/timeline.c:402-414 | nor does white space of any length behind the lines |
| LastPiece.LastPieceOf | http-flow-observer/collector/timeline.c:402-414 | of a last line of any length exactly the part from the last multiple of 8191 before its end is kept |
| MergedRoundTrip.UnreadMeaning | http-flow-observer/collector/timeline.c:402-414 | the steps that are not read are those whose objects start before that part |
| MergedRoundTrip.AppendedLineIsRead | http-flow-observer/collector/timeline.c:463-531 | after the agent's append to any file of complete lines the collector reads one step for each of the first `max_steps` of the application steps whose objects start in the last part of the line, in order |
| MergedRoundTrip.AppendedLineReadsBackExactlyWhen | http-flow-observer/collector/timeline.c:463-531 | those come back unchanged, cut to their buffers, if and only if enough is seen of each of them |
| MergedRoundTrip.WholeRequestReadsBackExactlyWhen | http-flow-observer/collector/timeline.c:463-531 | with room for all, the whole request comes back unchanged if and only if, besides, none of its application steps starts before that part |
| MergedTotals.MergedKeepsSpans | http-flow-observer/agent/src/main/java/com/lab/agent/Tracer.java:493-530 | the application steps of a merged request are exactly the agent's spans, in the order in which they finished |
| MergedTotals.LostExactlyWhen | http-flow-observer/collector/timeline.c:402-414 | a span is lost with a long line if and only if its object starts before the part that is kept |
| MergedTotals.MergedLayer | http-flow-observer/agent/src/main/java/com/lab/agent/Tracer.java:493-530 | every step of a merged request has a known section, and only spans have the application's and the database's |
| MergedTotals.ReadTimeExactlyWhen | http-flow-observer/collector/timeline.c:503-519 | over any steps of which those from one on are read, up to the slots: what is read of a section never exceeds its time, and equals it if and only if every step that was lost or dropped, or whose duration was not seen, took none |
| MergedTotals.ReadTotalsAgreeExactlyWhen | http-flow-observer/collector/timeline.c:503-519 | for the file after the append: the collector's sum for a section is at most the agent's total, with equality under exactly that condition |
| MergedExamples.QueryIsRead | http-flow-observer/collector/timeline.c:487-514 | a short statement comes back unchanged unless text follows its first closing brace; then it comes back cut behind that brace |
| MergedExamples.JdbcCallIsRead | http-flow-observer/collector/timeline.c:487-501 | a step with the statement `{call f()}` comes back unchanged |
| MergedExamples.ArrayLiteralIsCut | http-flow-observer/collector/timeline.c:487-501 | a step with an array literal in its statement comes back with the statement cut behind the brace |
| MergedExamples.LongTextHidesTheTime | http-flow-observer/collector/timeline.c:494-501 | a step that took time and has a description of 1024 characters or more comes back with no time |
| MergedExamples.ShortLineFits | http-flow-observer/collector/timeline.c:388-418 | up to 65 short steps make a line that fits the reader's buffer |
| MergedExamples.TheLastIsDropped | http-flow-observer/collector/timeline.c:503-519 | with one short span more than the reader has room for, and time in the last, the collector's sum is too small |
| MergedExamples.TheFirstIsLost | http-flow-observer/collector/timeline.c:388-418 | so it is with 64 spans, which do fit the slots, of a thread with a name of 40 characters, and time in the first: the line has two parts |
| MergedExamples.ManyCallsFallShort | http-flow-observer/collector/timeline.c:1137-1190 | 64 service calls under a TOMCAT call that takes time are enough for the first |
| MergedExamples.LongNamesFallShort | http-flow-observer/collector/timeline.c:1137-1190 | 63 of them, with a thread name that long, for the second |
| MergedExamples.RequestsFallShort | http-flow-observer/collector/timeline.c:1137-1190 | there are such requests, from their calls to the file that the collector reads |
| HttpFraming.HeadersEndStays | HTTP_Request_flow/HTTP_Request_flow.c:1705-1709 | more bytes never move the end of the headers |
| HttpFraming.ChunkedStays | HTTP_Request_flow/HTTP_Request_flow.c:1062-1071 | chunked framing, once announced, stays announced |
| HttpFraming.StoreContentLength | HTTP_Request_flow/HTTP_Request_flow.c:1036-1060 | the scan over blanks stores exactly the length that the whole text gives, and leaves the variable alone without one |
| HttpFraming.ContentLengthOf | HTTP_Request_flow/HTTP_Request_flow.c:1036-1060 | which text the length is read from, for any header block and body |
| HttpFraming.SettledLength | HTTP_Request_flow/HTTP_Request_flow.c:1036-1060 | a value that is not blank is settled by the header block alone |
| HttpFraming.BlankLengthReadsTheBody | HTTP_Request_flow/HTTP_Request_flow.c:1049-1056 | a blank value makes the length come from the start of the body |
| HttpFraming.LengthIsStableExactlyWhen | HTTP_Request_flow/HTTP_Request_flow.c:1713-1716 | a length once read is never read differently later if and only if the value is not blank |
| StatedFraming.NumbersAreRead | HTTP_Request_flow/HTTP_Request_flow.c:1036-1060 | a length of 2^64 or more is read as 2^64 - 1, and one behind a minus sign as its complement |
| StatedFraming.StatedLengthIsRead | HTTP_Request_flow/HTTP_Request_flow.c:1036-1060 | in any header block a first field `Content-Length: n` gives the length n |
| StatedFraming.StatedLengthIsReceived | HTTP_Request_flow/HTTP_Request_flow.c:1653-1736 | with no `Transfer-Encoding:` in the stream a body of that length is received whole however it is split |
| StatedFraming.StatedChunkingIsRead | HTTP_Request_flow/HTTP_Request_flow.c:1062-1071 | a field `Transfer-Encoding: chunked` anywhere announces chunked framing |
| StatedFraming.StatedChunkingIsReceivedExactlyWhen | HTTP_Request_flow/HTTP_Request_flow.c:1653-1736 | with no `Content-Length:` in the header block a chunked body is then received whole however it is split, if and only if every chunk is harmless |
| RecvLoop.LoopStops | HTTP_Request_flow/HTTP_Request_flow.c:1653-1736 | a run without timeout, error and close takes pieces up to the first after which it may stop, or all of them |
| RecvLoop.CutTrace | HTTP_Request_flow/HTTP_Request_flow.c:1653-1680 | every trace is a quiet run followed by its first timeout, error or close, if it has one |
| RecvLoop.LoopEnds | HTTP_Request_flow/HTTP_Request_flow.c:1653-1736 | for every trace: the outcome is Framed if and only if some prefix of the pieces before that event may stop, and then the state is that of the first such prefix; otherwise it is that of all of them and the kind of the event decides the outcome |
| HttpReader.LatchedIsRecomputed | HTTP_Request_flow/HTTP_Request_flow.c:1703-1735 | the latched flags and length always equal recomputation on the whole buffer |
| HttpReader.CompleteStays | HTTP_Request_flow/HTTP_Request_flow.c:1721-1733 | more bytes never make a complete response incomplete |
| HttpReader.CompleteFromThreshold | HTTP_Request_flow/HTTP_Request_flow.c:1721-1733 | a prefix is complete if and only if it reaches a threshold fixed by the byte stream |
| HttpReader.StopsFromThreshold | HTTP_Request_flow/HTTP_Request_flow.c:1653-1736 | the loop may stop after k pieces if and only if they reach that threshold |
| HttpReader.StopsAtThreshold | HTTP_Request_flow/HTTP_Request_flow.c:1653-1736 | split independence: the loop stops at the first boundary at or after the threshold, or waits if no boundary gets there |
| HttpReader.OutcomeOfAnyRun | HTTP_Request_flow/HTTP_Request_flow.c:1653-1754 | for every trace of a steady stream: the response is complete if and only if what arrives before the first timeout, error or close reaches the threshold; otherwise the buffer holds all of it and that event, or the lack of one, is the outcome |
| HttpReader.Reserve | HTTP_Request_flow/HTTP_Request_flow.c:1682-1697 | room for the piece and a NUL, by at most one doubling, with the content kept |
| HttpReader.Store | HTTP_Request_flow/HTTP_Request_flow.c:1699-1701 | the piece goes behind the content, NUL-terminated |
| HttpReader.Decide | HTTP_Request_flow/HTTP_Request_flow.c:1703-1735 | refines the abstract decision |
| HttpReader.ReceiveAll | HTTP_Request_flow/HTTP_Request_flow.c:1631-1738 | the whole loop refines the abstract one, whose outcome and buffer are those of `LoopEnds`; the buffer holds exactly what was received, its capacity is 16384 times a power of two and at most twice the content, and all reallocations together stay below twice the capacity |
| ChunkedBody.EndOnlyAtTheEnd | HTTP_Request_flow/HTTP_Request_flow.c:1073-1082 | in the encoding of harmless chunks the terminator occurs nowhere but at the end |
| ChunkedBody.RecognisedExactlyWhenHarmless | HTTP_Request_flow/HTTP_Request_flow.c:1073-1082 | a prefix of the encoding passes the test exactly when it is the whole, if and only if every chunk is harmless |
| ChunkedBody.PlainDataIsHarmless | HTTP_Request_flow/HTTP_Request_flow.c:1078-1079 | data without carriage returns and NULs is harmless |
| HttpMessages.LengthThresholdExactlyWhen | HTTP_Request_flow/HTTP_Request_flow.c:1713-1733 | the threshold of a length-framed message is its whole length if and only if its body does not announce and end chunked framing before its last byte |
| HttpMessages.ThresholdIgnoresTheRest | HTTP_Request_flow/HTTP_Request_flow.c:1721-1733 | bytes behind a complete message do not move its threshold |
| HttpMessages.LengthThresholdWithMore | HTTP_Request_flow/HTTP_Request_flow.c:1721-1726 | the same exact condition for a length-framed message with anything behind it |
| HttpMessages.ChunkedThresholdExactlyWhen | HTTP_Request_flow/HTTP_Request_flow.c:1728-1733 | the threshold of a chunked message is its whole length if and only if every chunk is harmless |
| HttpMessages.ChunkedThresholdWithMore | HTTP_Request_flow/HTTP_Request_flow.c:1728-1733 | the same exact condition with anything behind the message |
| HttpMessages.LengthMessageReceivedExactlyWhen | HTTP_Request_flow/HTTP_Request_flow.c:1653-1736 | a length-framed message is received whole however it is split, and the loop stops there, if and only if it does not stop early in that sense |
| HttpMessages.PageAboutChunkingStopsEarly | HTTP_Request_flow/HTTP_Request_flow.c:1062-1071 | a page that quotes a chunked header and the terminator does: the test for chunked framing searches the body too |
| HttpMessages.PagesAreCutShort | HTTP_Request_flow/HTTP_Request_flow.c:1653-1736 | such pages exist behind a header block that states their length, and some split of them is not received whole |
| HttpMessages.ChunkedMessageReceivedExactlyWhen | HTTP_Request_flow/HTTP_Request_flow.c:1653-1736 | a chunked message is received whole however it is split, and the loop stops there, if and only if every chunk is harmless |
| HttpMessages.BlankLengthSplitsMatter | HTTP_Request_flow/HTTP_Request_flow.c:1049-1056 | with a blank Content-Length two splits of one byte stream are read to different ends |
| HttpMessages.SplitsDiffer | HTTP_Request_flow/HTTP_Request_flow.c:1653-1736 | there is such a header block |
| SendAll.SendAll | HTTP_Request_flow/HTTP_Request_flow.c:978-1004 | what goes out is the prefix of the data as long as all that `send` accepts before it fails or accepts nothing; success if and only if that is all of the data |
| SendAll.AcceptedUntil | HTTP_Request_flow/HTTP_Request_flow.c:982-1001 | up to the first failure or empty send that is the sum of what each call accepted; interrupted calls are repeated |
| EndToEnd.ExportReachesAgentExactlyWhen | http-flow-observer/agent/src/main/java/com/lab/agent/Tracer.java:758-835 | from any event stream to the agent: an exported request arrives entry for entry if and only if its clock readings are in time and its names plain |
| EndToEnd.StepBackLosesEntries | http-flow-observer/agent/src/main/java/com/lab/agent/Tracer.java:803-815 | if the second reading of the clock is behind the first, only one entry arrives |
| EndToEnd.SteppedBackExportLosesEntries | http-flow-observer/collector/timeline.c:991-1007 | a run of three events whose export loses two of its three entries |
| EndToEnd.ExportedTimeIsReported | http-flow-observer/agent/src/main/java/com/lab/agent/Tracer.java:340-362 | the agent's kernel layers add up to the recorded deltas that are handed over less those of unnamed events, and for an export in time whose clock never ran backwards to the exported total |
| EndToEnd.CallTreeIsDumped | http-flow-observer/agent/src/main/java/com/lab/agent/Tracer.java:65-112 | tracing one rooted call tree dumps exactly its calls in post-order |
| EndToEnd.SpansReachCollector | http-flow-observer/collector/timeline.c:463-531 | from the agent to the collector: the finished spans of a request whose objects start in the last part of the line come back in order, whatever braces their texts have |
| EndToEnd.AllSpansAreKept | http-flow-observer/collector/timeline.c:402-414 | if the line fits the reader's buffer those are all of them |
| EndToEnd.ArrivesUnchangedExactlyWhen | http-flow-observer/collector/timeline.c:487-514 | each arrives unchanged if and only if enough is seen of its object |
| EndToEnd.CallTreeReachesCollector | http-flow-observer/collector/timeline.c:463-531 | from the instrumented calls of a request to the collector: its call tree arrives in post-order |

## Left out

- eBPF programs, ring-buffer polling, signal handling and start-up: the event stream is an arbitrary input sequence.
- Terminal output, the HTML page, flame and sequence files, `requests.jsonl` and `metrics.json`: printing of values that are modelled.
- Bytecode rewriting and reflection: calls of `enter` and `exit` are an arbitrary input sequence, balanced only where a result says so.
- Floating point: durations are exact nanoseconds and sums are exact, where the programs use doubles and print three decimals.
- ParseLatestJvmSteps: `strtod` is modelled for a sign, digits and decimals, which is all that the writer prints; exponents, hexadecimal and named values are not.
- DumpTimeline: the merge with the kernel's steps and the file write that follow it are modelled by `BuildMergedSteps` and `WriteMergedRequest`, on values.
- WriteMergedRequest: `total_ms` is taken as the text that was printed; how it was rounded is not modelled.
- AppendedLineIsRead: needs texts without line feeds and NULs, which the writer does not escape and which a line and a C string cannot carry, and step numbers of an `int`.
- HandoffRoundTrip: needs process names without `|`, CR and LF, which the writer does not escape; `HandoffIsLosslessExactlyWhen` holds for all names. Digits outside ASCII, which `parseLong` also accepts, are not modelled.
- TracingComputesPostOrder: one thread; the request counter is shared between threads in the agent and counts up by one here.
- StopsAtThreshold: when the network times out or closes is an arbitrary input (`OutcomeOfAnyRun`). As in the code, header names are case-sensitive, both framings are searched for in the whole text, and whichever is complete first ends the response.
- ReceiveAll: running out of memory, and the wrap of sizes at 2^64, end the program and are not modelled.
- SendAll: `send` accepts at most what it is offered; a larger number in the trace counts as all of that.
- TimelineTable.Finish: the 64 entries of a slot are a fixed-length sequence inside the slot's value, so aliasing of an entry pointer is not modelled; the file and console exports of one timeline are one list entry.
- `timeline_clear` has no caller and would only add an easy member.
- NUL characters inside C strings: a source string stands for the text before its NUL, except in the client's buffer, where NULs are modelled.
- `System.nanoTime` readings are unbounded integers; environment settings (port filter, least step count, application port) are parameters.
- Files are character sequences: opening, failing and concurrent writers are not modelled.
- Event codes: named events are constructors, every other code is `Other(code)`; the numbers of the named codes are not part of this model.
