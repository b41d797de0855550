/** From one program through a file to the other. */
module EndToEnd {
  import opened EventNames
  import opened Events
  import opened MergedSteps
  import KernelFile
  import Latency
  import MergedFile
  import MergedRoundTrip
  import MergedTotals
  import ProbeTable
  import StepFront
  import StepSurvival
  import Text
  import TimelineHistory
  import Timelines
  import Tracers

  /** The events of the request that event `p` completes, as far as they are kept. */
  function Closing(cfg: TimelineHistory.Config, history: seq<Event>, p: nat): seq<Event>
    requires p < |history|
  {
    TimelineHistory.First64(TimelineHistory.WindowAt(cfg, history, p) + [history[p]])
  }

  /** The export of event `p` reaches the agent entry for entry. */
  ghost predicate ReachesAgent(cfg: TimelineHistory.Config, history: seq<Event>, p: nat, appPort: U16)
    requires p < |history|
  {
    var x := TimelineHistory.ExportAt(cfg, history, p);
    KernelFile.Lossless(x.socket, x.entries, appPort)
  }

  /**
   * What the collector exports after any event history reaches the agent entry for entry exactly when the
   * request's clock readings are less than 2^63 ns apart and its process names can stand in a field as they are.
   */
  lemma ExportReachesAgentExactlyWhen(cfg: TimelineHistory.Config, history: seq<Event>, p: nat, appPort: U16)
    requires p < |history| && TimelineHistory.Answers(cfg, history, p)
    ensures ReachesAgent(cfg, history, p, appPort)
      <==> Latency.InTime(Closing(cfg, history, p)) && Latency.NamesPlain(Closing(cfg, history, p))
  {
    var x := TimelineHistory.ExportAt(cfg, history, p);
    Latency.HandoffOfEvents(x.socket, Closing(cfg, history, p), x.entries, appPort);
  }

  /** A clock that steps back loses every entry from that step on. */
  lemma StepBackLosesEntries(socket: U64, events: seq<Event>, appPort: U16)
    requires 1 < |events| <= Timelines.MAX_EVENTS && Latency.NamesCarriable(events)
    requires !Latency.Soon(events[0].timestamp, events[1].timestamp)
    ensures |KernelFile.HandedOver(socket, TimelineHistory.WithDeltas(events), appPort)| == 1
  {
    var entries := TimelineHistory.WithDeltas(events);
    Latency.SameNames(events);
    Latency.SoonFits(events[0].timestamp, events[1].timestamp);
    KernelFile.HandoffRoundTrip(socket, entries, appPort);
    KernelFile.FitsBefore(entries, 1);
  }

  /** Three events of one socket, of which the second is stamped earlier than the first. */
  ghost predicate SteppedBack(cfg: TimelineHistory.Config, history: seq<Event>) {
    && |history| == 3 && cfg.minSteps <= 3
    && history[0].socketPtr == history[1].socketPtr == history[2].socketPtr != 0
    && history[0].kind.TcpV4Rcv? && TimelineHistory.Passes(cfg, history[0])
    && history[1].kind.TcpDataQueue? && history[2].kind.TcpSendmsg?
    && history[1].timestamp < history[0].timestamp < history[1].timestamp + 1000
    && Latency.NamesCarriable(history)
  }

  lemma SteppedBackWindow(cfg: TimelineHistory.Config, history: seq<Event>)
    requires SteppedBack(cfg, history)
    ensures TimelineHistory.Own(cfg, history[..2], history[2].socketPtr) == history[..2]
    ensures TimelineHistory.WindowAt(cfg, history, 2) == history[..2]
    ensures TimelineHistory.Starters(cfg, history[..2]) == [history[2].socketPtr]
  {
    var two, one := history[..2], history[..1];
    assert two[..1] == one && one[..0] == [] && two == one + [history[1]] && one == [history[0]];
    assert TimelineHistory.Own(cfg, one, history[2].socketPtr) == one;
    assert TimelineHistory.Starters(cfg, one) == [history[2].socketPtr];
    TimelineHistory.WindowAfter(one, history[1]);
    TimelineHistory.WindowAfter([], history[0]);
    assert [] + [history[0]] == one;
  }

  lemma NotYetAnswered(history: seq<Event>)
    requires |history| == 3 && !history[0].kind.TcpSendmsg? && !history[1].kind.TcpSendmsg?
    ensures !TimelineHistory.Answered(history[..2])
  {}

  lemma OneIsAdmitted(s: U64, starters: seq<U64>)
    requires starters == [s]
    ensures s in ProbeTable.Admitted(starters)
  {
    assert ProbeTable.Admitted(starters)[0] == s;
  }

  lemma WindowWithLast(window: seq<Event>, history: seq<Event>)
    requires |history| == 3 && window == history[..2]
    ensures TimelineHistory.First64(window + [history[2]]) == history
  {}

  lemma SteppedBackAnswers(cfg: TimelineHistory.Config, history: seq<Event>)
    requires SteppedBack(cfg, history)
    ensures TimelineHistory.Answers(cfg, history, 2) && Closing(cfg, history, 2) == history
  {
    var window, starters := TimelineHistory.WindowAt(cfg, history, 2), TimelineHistory.Starters(cfg, history[..2]);
    assert window == history[..2] && starters == [history[2].socketPtr] by {
      SteppedBackWindow(cfg, history);
    }
    NotYetAnswered(history);
    OneIsAdmitted(history[2].socketPtr, starters);
    WindowWithLast(window, history);
  }

  /** Such a request is exported with all three entries, and the agent gets only the first. */
  lemma SteppedBackExportLosesEntries(cfg: TimelineHistory.Config, history: seq<Event>, appPort: U16)
    requires SteppedBack(cfg, history)
    ensures TimelineHistory.Answers(cfg, history, 2)
    ensures var entries := TimelineHistory.ExportAt(cfg, history, 2).entries;
      |entries| == 3 >= cfg.minSteps && |KernelFile.HandedOver(history[2].socketPtr, entries, appPort)| == 1
  {
    SteppedBackAnswers(cfg, history);
    StepBackLosesEntries(history[2].socketPtr, history, appPort);
  }

  /** The agent's figure for the kernel's part of a merged request. */
  function KernelTime(steps: seq<MergedStep>): int {
    AgentSum(steps, NicReceive) + AgentSum(steps, IPv4) + AgentSum(steps, TCP) + AgentSum(steps, SocketQueue)
    + AgentSum(steps, Scheduler) + AgentSum(steps, NginxTime) + AgentSum(steps, TcpSend)
  }

  /** The entries that the handoff delivers: those before the first delta that does not fit. */
  function Handed(entries: seq<Timelines.TimelineEntry>): seq<Timelines.TimelineEntry> {
    entries[..KernelFile.FitCount(entries)]
  }

  lemma HandedAreDelivered(socket: U64, entries: seq<Timelines.TimelineEntry>, appPort: U16)
    requires 0 < |entries| < Text.INT_BOUND
    requires forall i | 0 <= i < |entries| :: KernelFile.Carriable(entries[i].e.comm)
    ensures Delivers(KernelFile.HandedOver(socket, entries, appPort), Handed(entries))
  {
    KernelFile.HandoffRoundTrip(socket, entries, appPort);
  }

  lemma AllAreHanded(events: seq<Event>, entries: seq<Timelines.TimelineEntry>)
    requires events != [] && entries == TimelineHistory.WithDeltas(events) && Latency.InTime(events)
    ensures Handed(entries) == entries
  {
    Latency.InTimeFits(events);
  }

  lemma TimeOfEvents(
    socket: U64, events: seq<Event>, entries: seq<Timelines.TimelineEntry>, appPort: U16,
    spans: seq<Tracers.SpanRec>, thread: string)
    requires 0 < |events| <= Timelines.MAX_EVENTS && entries == TimelineHistory.WithDeltas(events)
    requires Latency.NamesCarriable(events)
    requires forall i | 0 <= i < |spans| :: spans[i].stage in AGENT_STAGES
    ensures KernelTime(Merged(KernelFile.HandedOver(socket, entries, appPort), spans, thread))
      == Latency.SumDeltas(Handed(entries)) - Latency.BucketSum(Handed(entries), Latency.Unnamed)
  {
    Latency.SameNames(events);
    HandedAreDelivered(socket, entries, appPort);
    AgentSpansAreApplication(spans);
    KernelTotalsAgree(KernelFile.HandedOver(socket, entries, appPort), Handed(entries), spans, thread);
  }

  /**
   * From the event stream to the agent's breakdown: the kernel's part adds up to the deltas of the entries that are
   * handed over, and for an export in time whose clock never ran backwards to the exported total.
   */
  lemma ExportedTimeIsReported(
    cfg: TimelineHistory.Config, history: seq<Event>, p: nat, appPort: U16, spans: seq<Tracers.SpanRec>, thread: string)
    requires p < |history| && TimelineHistory.Answers(cfg, history, p)
    requires Latency.NamesCarriable(Closing(cfg, history, p))
    requires forall i | 0 <= i < |spans| :: spans[i].stage in AGENT_STAGES
    ensures var x := TimelineHistory.ExportAt(cfg, history, p);
      var time := KernelTime(Merged(KernelFile.HandedOver(x.socket, x.entries, appPort), spans, thread));
      && time == Latency.SumDeltas(Handed(x.entries)) - Latency.BucketSum(Handed(x.entries), Latency.Unnamed)
      && (Latency.InTime(Closing(cfg, history, p)) && Latency.Descents(Closing(cfg, history, p)) == 0 ==>
          time == Timelines.TotalNs(x.entries) - Latency.BucketSum(x.entries, Latency.Unnamed))
  {
    var x := TimelineHistory.ExportAt(cfg, history, p);
    TimeOfEvents(x.socket, Closing(cfg, history, p), x.entries, appPort, spans, thread);
    if Latency.InTime(Closing(cfg, history, p)) {
      AllAreHanded(Closing(cfg, history, p), x.entries);
      Latency.DeltasMatchTotal(Closing(cfg, history, p));
    }
  }

  /** The spans that one TOMCAT call leaves behind, as the tracer dumps them. */
  function SpansOf(i: Tracers.Info, children: Tracers.Forest): seq<Tracers.SpanRec> {
    Tracers.PostOrder(children, 1) + [Tracers.RecOf(i, 0)]
  }

  /** What the tracer dumps when it runs over one call. */
  function Traces(i: Tracers.Info, children: Tracers.Forest, id: nat): seq<Tracers.Dump> {
    Tracers.Run(Tracers.Idle(id, []), Tracers.Ops(Tracers.Node(i, children, Tracers.Empty))).dumps
  }

  function Traced(i: Tracers.Info, children: Tracers.Forest, id: nat): seq<Tracers.SpanRec> {
    if Traces(i, children, id) == [] then [] else Traces(i, children, id)[0].spans
  }

  /** Tracing one rooted call tree dumps exactly its calls, in post-order. */
  lemma CallTreeIsDumped(i: Tracers.Info, children: Tracers.Forest, id: nat)
    requires i.stage == Tracers.TOMCAT && Tracers.NoTomcat(children)
    ensures |Traces(i, children, id)| == 1 && Traced(i, children, id) == SpansOf(i, children)
  {
    Tracers.TracingComputesPostOrder(id, [], Tracers.Node(i, children, Tracers.Empty));
  }

  /** The first `maxSteps` of the spans, numbered from `first` on, as the collector reads them. */
  ghost predicate Arrived(
    got: seq<MergedFile.JvmStep>, spans: seq<Tracers.SpanRec>, thread: string, first: nat, maxSteps: nat) {
    && |got| == (if |spans| <= maxSteps then |spans| else maxSteps)
    && forall k | 0 <= k < |got| :: got[k] == StepFront.ReadBack(OfSpan(spans[k], thread).(n := first + k))
  }

  lemma ReadOfSpans(
    apps: seq<MergedStep>, spans: seq<Tracers.SpanRec>, thread: string, first: nat, d: nat, maxSteps: nat)
    requires d <= |apps| == |spans|
    requires forall k | 0 <= k < |spans| :: apps[k] == OfSpan(spans[k], thread).(n := first + k)
    ensures var read := MergedFile.FirstN(MergedRoundTrip.ReadSteps(apps[d..]), maxSteps);
      Arrived(read, spans[d..], thread, first + d, maxSteps)
  {}

  /** The spans of which the collector finds the objects. */
  function KeptSpans(r: MergedFile.Request, steps: seq<MergedStep>, spans: seq<Tracers.SpanRec>)
    : seq<Tracers.SpanRec>
  {
    var d := MergedRoundTrip.Lost(r, steps);
    if d <= |spans| then spans[d..] else []
  }

  /** All of them, if the line fits the reader's buffer. */
  lemma AllSpansAreKept(r: MergedFile.Request, steps: seq<MergedStep>, spans: seq<Tracers.SpanRec>)
    requires |MergedFile.MergedLine(r, steps)| < MergedFile.LINE_BUFFER
    ensures KeptSpans(r, steps, spans) == spans
  {
    MergedRoundTrip.ShortLineLosesNothing(r, steps);
  }

  /**
   * After the agent has merged its finished spans with the kernel's steps and appended the line to the file, the
   * collector reads back, in the order in which they finished, those spans whose objects start in the last piece
   * of the line.
   */
  lemma SpansReachCollector(
    spans: seq<Tracers.SpanRec>, kernel: seq<KernelFile.KernelStep>, thread: string, steps: seq<MergedStep>,
    file: string, r: MergedFile.Request, maxSteps: nat)
    requires steps == Merged(kernel, spans, thread) && MergedRoundTrip.Appended(file, r, steps)
    requires MergedRoundTrip.WritableRequest(r) && MergedRoundTrip.AllWritable(steps)
    ensures var first := |Part(kernel, false)| + 1 + MergedRoundTrip.Lost(r, steps);
      Arrived(MergedFile.Latest(file, maxSteps), KeptSpans(r, steps, spans), thread, first, maxSteps)
  {
    MergedRoundTrip.AppendedLineIsRead(file, r, steps, maxSteps);
    MergedTotals.MergedKeepsSpans(kernel, spans, thread);
    var first, d := |Part(kernel, false)| + 1, MergedRoundTrip.Lost(r, steps);
    ReadOfSpans(MergedRoundTrip.AppSteps(steps), spans, thread, first, d, maxSteps);
  }

  /** A span arrives unchanged exactly when enough is seen of its object. */
  lemma ArrivesUnchangedExactlyWhen(
    got: seq<MergedFile.JvmStep>, spans: seq<Tracers.SpanRec>, thread: string, first: nat, maxSteps: nat, k: nat,
    s: MergedStep)
    requires Arrived(got, spans, thread, first, maxSteps) && k < |got|
    requires s == OfSpan(spans[k], thread).(n := first + k)
    ensures got[k] == StepSurvival.Kept(s) <==> StepSurvival.Survives(s)
  {
    StepSurvival.ReadBackIsKeptExactlyWhen(s);
  }

  /** From the instrumented calls of one request to the collector: its call tree arrives in post-order. */
  lemma CallTreeReachesCollector(
    i: Tracers.Info, children: Tracers.Forest, id: nat, kernel: seq<KernelFile.KernelStep>, thread: string,
    steps: seq<MergedStep>, file: string, r: MergedFile.Request, maxSteps: nat)
    requires i.stage == Tracers.TOMCAT && Tracers.NoTomcat(children)
    requires steps == Merged(kernel, Traced(i, children, id), thread) && MergedRoundTrip.Appended(file, r, steps)
    requires MergedRoundTrip.WritableRequest(r) && MergedRoundTrip.AllWritable(steps)
    ensures var first := |Part(kernel, false)| + 1 + MergedRoundTrip.Lost(r, steps);
      Arrived(MergedFile.Latest(file, maxSteps), KeptSpans(r, steps, SpansOf(i, children)), thread, first, maxSteps)
  {
    CallTreeIsDumped(i, children, id);
    SpansReachCollector(SpansOf(i, children), kernel, thread, steps, file, r, maxSteps);
  }
}
