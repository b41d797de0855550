/** How the agent merges kernel steps with its own spans, and how it totals them. */
module MergedSteps {
  import opened Events
  import opened EventNames
  import opened Wrappers
  import KernelFile
  import Latency
  import Timelines
  import Tracers

  datatype MergedStep = MergedStep(
    n: nat, section: string, layer: string, stage: string, desc: string, timeNs: int, process: string,
    sql: Option<string>)

  const KERNEL := "kernel"
  const JVM := "jvm"

  function JvmSection(stage: string): string {
    if stage == "SQL_QUERY" || stage == "POSTGRESQL" then DATABASE else APPLICATION
  }

  function ShortClass(slashClass: string): string {
    slashClass[KernelFile.LastIndexOf(slashClass, '/') + 1..]
  }

  function JvmDesc(s: Tracers.SpanRec): string {
    if s.stage == "TOMCAT" then "Tomcat"
    else if s.stage == "SPRING_MVC" then "DispatcherServlet"
    else if s.stage in ["CONTROLLER", "SERVICE", "REPOSITORY"] then ShortClass(s.className)
    else if s.stage == "SQL_QUERY" || s.stage == "POSTGRESQL" then "JDBC"
    else if s.stage == "CONNECTION_POOL" then "Connection Pool"
    else ShortClass(s.className) + "#" + s.methodName
  }

  function OfKernel(ks: KernelFile.KernelStep): MergedStep {
    MergedStep(0, KernelSection(ks.name), KERNEL, ks.name, ks.desc, ks.deltaNs,
               if ks.comm != "" then ks.comm else "kernel", None)
  }

  function OfSpan(s: Tracers.SpanRec, thread: string): MergedStep {
    MergedStep(0, JvmSection(s.stage), JVM, s.stage, JvmDesc(s), Tracers.DurationNs(s), thread, s.sql)
  }

  predicate IsResponse(ks: KernelFile.KernelStep) {
    KernelSection(ks.name) == RESPONSE
  }

  // ---------- A stable partition ----------

  function ResponseFlags(kernel: seq<KernelFile.KernelStep>): seq<bool> {
    seq(|kernel|, i requires 0 <= i < |kernel| => IsResponse(kernel[i]))
  }

  /** The positions that carry the flag value `r`, in increasing order. */
  function Positions(flags: seq<bool>, r: bool): (ps: seq<nat>)
    ensures forall k | 0 <= k < |ps| :: ps[k] < |flags|
  {
    if flags == [] then []
    else
      var n := |flags| - 1;
      var before := Positions(flags[..n], r);
      if flags[n] == r then before + [n] else before
  }

  /** The response steps, or the others. */
  function Part(kernel: seq<KernelFile.KernelStep>, response: bool): seq<MergedStep> {
    var ps := Positions(ResponseFlags(kernel), response);
    seq(|ps|, k requires 0 <= k < |ps| => OfKernel(kernel[ps[k]]))
  }

  function SpanPart(spans: seq<Tracers.SpanRec>, thread: string): seq<MergedStep> {
    seq(|spans|, i requires 0 <= i < |spans| => OfSpan(spans[i], thread))
  }

  function Numbered(steps: seq<MergedStep>): seq<MergedStep> {
    seq(|steps|, i requires 0 <= i < |steps| => steps[i].(n := i + 1))
  }

  /** Kernel steps up to the application, then the application, then the kernel's response path. */
  function Merged(kernel: seq<KernelFile.KernelStep>, spans: seq<Tracers.SpanRec>, thread: string): seq<MergedStep> {
    Numbered(Part(kernel, false) + SpanPart(spans, thread) + Part(kernel, true))
  }

  lemma {:induction false} PositionsIncrease(flags: seq<bool>, r: bool)
    ensures forall j, k | 0 <= j < k < |Positions(flags, r)| :: Positions(flags, r)[j] < Positions(flags, r)[k]
  {
    if flags != [] {
      PositionsIncrease(flags[..|flags| - 1], r);
    }
  }

  lemma {:induction false} PositionsAreThose(flags: seq<bool>, r: bool, i: nat)
    requires i < |flags|
    ensures i in Positions(flags, r) <==> flags[i] == r
  {
    if i < |flags| - 1 {
      PositionsAreThose(flags[..|flags| - 1], r, i);
    }
  }

  lemma {:induction false} PositionsAreAll(flags: seq<bool>, r: bool)
    ensures |Positions(flags, r)| + |Positions(flags, !r)| == |flags|
  {
    if flags != [] {
      PositionsAreAll(flags[..|flags| - 1], r);
    }
  }

  /** Each kernel step lands in exactly one of the two parts, once, and both keep the input order. */
  lemma PositionsPartition(flags: seq<bool>, r: bool)
    ensures forall j, k | 0 <= j < k < |Positions(flags, r)| :: Positions(flags, r)[j] < Positions(flags, r)[k]
    ensures forall i | 0 <= i < |flags| :: i in Positions(flags, r) <==> flags[i] == r
    ensures |Positions(flags, r)| + |Positions(flags, !r)| == |flags|
  {
    PositionsIncrease(flags, r);
    PositionsAreAll(flags, r);
    forall i | 0 <= i < |flags| ensures i in Positions(flags, r) <==> flags[i] == r {
      PositionsAreThose(flags, r, i);
    }
  }

  lemma PartSnoc(kernel: seq<KernelFile.KernelStep>, n: nat, response: bool)
    requires n < |kernel|
    ensures Part(kernel[..n + 1], response) ==
      if IsResponse(kernel[n]) == response then Part(kernel[..n], response) + [OfKernel(kernel[n])]
      else Part(kernel[..n], response)
  {
    var after, before := ResponseFlags(kernel[..n + 1]), ResponseFlags(kernel[..n]);
    assert after[..n] == before && after[n] == IsResponse(kernel[n]);
  }

  method BuildMergedSteps(kernel: seq<KernelFile.KernelStep>, spans: seq<Tracers.SpanRec>, thread: string)
    returns (ordered: seq<MergedStep>)
    ensures ordered == Merged(kernel, spans, thread)
  {
    var response;
    ordered, response := SplitKernelSteps(kernel);
    var application := SpanSteps(spans, thread);
    ordered := ordered + application + response;
    ordered := NumberSteps(ordered);
  }

  // ---------- What the merged steps say ----------

  ghost predicate StandsForKernelStep(s: MergedStep, ks: KernelFile.KernelStep) {
    && s.layer == "kernel" && s.stage == ks.name && s.desc == ks.desc && s.timeNs == ks.deltaNs && s.sql == None
    && s.section == KernelSection(ks.name)
    && (ks.comm != "" ==> s.process == ks.comm) && (ks.comm == "" ==> s.process == "kernel")
  }

  /** The part of a class name behind its last slash. */
  ghost predicate IsSimpleName(name: string, className: string) {
    && (forall i | 0 <= i < |name| :: name[i] != '/')
    && (className == name || exists n: nat :: n < |className| && className[n..] == "/" + name)
  }

  ghost predicate StandsForSpan(s: MergedStep, span: Tracers.SpanRec, thread: string) {
    && s.layer == "jvm" && s.stage == span.stage && s.process == thread && s.sql == span.sql
    && s.section == (if span.stage == "SQL_QUERY" || span.stage == "POSTGRESQL" then "Database" else "Application")
    && s.timeNs == (if span.endNs >= span.startNs then span.endNs - span.startNs else 0)
    && (span.stage in ["CONTROLLER", "SERVICE", "REPOSITORY"] ==> IsSimpleName(s.desc, span.className))
  }

  lemma {:induction false} LastSlash(s: string)
    ensures var idx := KernelFile.LastIndexOf(s, '/');
      && (forall i | idx < i < |s| :: s[i] != '/') && (idx >= 0 ==> s[idx] == '/')
    decreases |s|
  {
    if s != "" && s[|s| - 1] != '/' {
      LastSlash(s[..|s| - 1]);
    }
  }

  lemma ShortClassIsSimple(className: string)
    ensures IsSimpleName(ShortClass(className), className)
  {
    LastSlash(className);
    var idx := KernelFile.LastIndexOf(className, '/');
    if idx >= 0 {
      assert className[idx..] == "/" + ShortClass(className);
    }
  }

  lemma ComponentIsNamed(span: Tracers.SpanRec)
    requires span.stage in ["CONTROLLER", "SERVICE", "REPOSITORY"]
    ensures IsSimpleName(JvmDesc(span), span.className)
  {
    ShortClassIsSimple(span.className);
  }

  lemma SpanIsKept(span: Tracers.SpanRec, thread: string, step: MergedStep, n: nat)
    requires step == OfSpan(span, thread).(n := n)
    ensures StandsForSpan(step, span, thread)
  {
    if span.stage in ["CONTROLLER", "SERVICE", "REPOSITORY"] {
      ComponentIsNamed(span);
    }
  }

  /** The stages whose spans are described without their method. */
  const PLAIN_STAGES: seq<string> :=
    ["TOMCAT", "SPRING_MVC", "CONNECTION_POOL", "SQL_QUERY", "POSTGRESQL", "CONTROLLER", "SERVICE", "REPOSITORY"]

  /** How a span is described: fixed words by its stage, else its class, with its method outside the three layers. */
  lemma SpanIsDescribed(span: Tracers.SpanRec) returns (name: string)
    ensures IsSimpleName(name, span.className)
    ensures span.stage == "TOMCAT" ==> JvmDesc(span) == "Tomcat"
    ensures span.stage == "SPRING_MVC" ==> JvmDesc(span) == "DispatcherServlet"
    ensures span.stage == "CONNECTION_POOL" ==> JvmDesc(span) == "Connection Pool"
    ensures span.stage == "SQL_QUERY" || span.stage == "POSTGRESQL" ==> JvmDesc(span) == "JDBC"
    ensures span.stage == "CONTROLLER" || span.stage == "SERVICE" || span.stage == "REPOSITORY" ==>
      JvmDesc(span) == name
    ensures span.stage !in PLAIN_STAGES ==> JvmDesc(span) == name + "#" + span.methodName
  {
    name := ShortClass(span.className);
    ShortClassIsSimple(span.className);
  }

  lemma KernelStepIsKept(ks: KernelFile.KernelStep, step: MergedStep, n: nat)
    requires step == OfKernel(ks).(n := n)
    ensures StandsForKernelStep(step, ks)
  {}

  ghost predicate PlacedAt(steps: seq<MergedStep>, at: nat, part: seq<MergedStep>) {
    at + |part| <= |steps| && forall k | 0 <= k < |part| :: steps[at + k] == part[k].(n := at + k + 1)
  }

  lemma PartsArePlaced(a: seq<MergedStep>, b: seq<MergedStep>, c: seq<MergedStep>, steps: seq<MergedStep>)
    requires steps == Numbered(a + b + c)
    ensures PlacedAt(steps, 0, a) && PlacedAt(steps, |a|, b) && PlacedAt(steps, |a| + |b|, c)
    ensures |steps| == |a| + |b| + |c| && forall k | 0 <= k < |steps| :: steps[k].n == k + 1
  {}

  /** The positions of the steps on the response path, or of the others, in order. */
  ghost predicate Selects(ps: seq<nat>, kernel: seq<KernelFile.KernelStep>, response: bool) {
    && (forall j, k | 0 <= j < k < |ps| :: ps[j] < ps[k])
    && (forall k | 0 <= k < |ps| :: ps[k] < |kernel|)
    && forall i | 0 <= i < |kernel| :: i in ps <==> ((KernelSection(kernel[i].name) == "Response path") == response)
  }

  lemma PositionsSelect(kernel: seq<KernelFile.KernelStep>, response: bool)
    ensures Selects(Positions(ResponseFlags(kernel), response), kernel, response)
  {
    var flags := ResponseFlags(kernel);
    PositionsPartition(flags, response);
    assert forall i | 0 <= i < |kernel| :: flags[i] == (KernelSection(kernel[i].name) == "Response path");
  }

  ghost predicate StandForKernelSteps(steps: seq<MergedStep>, at: nat, kernel: seq<KernelFile.KernelStep>,
                                      ps: seq<nat>)
  {
    && at + |ps| <= |steps|
    && forall k | 0 <= k < |ps| :: ps[k] < |kernel| && StandsForKernelStep(steps[at + k], kernel[ps[k]])
  }

  ghost predicate StandForSpans(steps: seq<MergedStep>, at: nat, spans: seq<Tracers.SpanRec>, thread: string) {
    && at + |spans| <= |steps|
    && forall k | 0 <= k < |spans| :: StandsForSpan(steps[at + k], spans[k], thread)
  }

  lemma KernelStepsAreKept(kernel: seq<KernelFile.KernelStep>, response: bool, part: seq<MergedStep>,
                           steps: seq<MergedStep>, at: nat) returns (ps: seq<nat>)
    requires part == Part(kernel, response) && PlacedAt(steps, at, part)
    ensures |ps| == |part| && Selects(ps, kernel, response) && StandForKernelSteps(steps, at, kernel, ps)
  {
    ps := Positions(ResponseFlags(kernel), response);
    PositionsSelect(kernel, response);
    forall k | 0 <= k < |ps| ensures ps[k] < |kernel| && StandsForKernelStep(steps[at + k], kernel[ps[k]]) {
      assert part[k] == OfKernel(kernel[ps[k]]);
      KernelStepIsKept(kernel[ps[k]], steps[at + k], at + k + 1);
    }
  }

  lemma SpansAreKept(spans: seq<Tracers.SpanRec>, thread: string, part: seq<MergedStep>, steps: seq<MergedStep>,
                     at: nat)
    requires part == SpanPart(spans, thread) && PlacedAt(steps, at, part)
    ensures |part| == |spans| && StandForSpans(steps, at, spans, thread)
  {
    forall k | 0 <= k < |spans| ensures StandsForSpan(steps[at + k], spans[k], thread) {
      assert part[k] == OfSpan(spans[k], thread);
      SpanIsKept(spans[k], thread, steps[at + k], at + k + 1);
    }
  }

  lemma PartIsPlaced(kernel: seq<KernelFile.KernelStep>, spans: seq<Tracers.SpanRec>, thread: string,
                     steps: seq<MergedStep>, response: bool) returns (part: seq<MergedStep>, at: nat)
    requires steps == Merged(kernel, spans, thread)
    ensures part == Part(kernel, response) && PlacedAt(steps, at, part)
    ensures |steps| == |kernel| + |spans| && if response then at + |part| == |steps| else at == 0
  {
    var a, b, c := Part(kernel, false), SpanPart(spans, thread), Part(kernel, true);
    PartsArePlaced(a, b, c, steps);
    PositionsAreAll(ResponseFlags(kernel), response);
    part := if response then c else a;
    at := if response then |a| + |b| else 0;
  }

  /** Each kernel step is in the request once, with all that it says: the response path last, the others first. */
  lemma MergedShowsKernelSteps(
    kernel: seq<KernelFile.KernelStep>, spans: seq<Tracers.SpanRec>, thread: string, steps: seq<MergedStep>,
    response: bool) returns (ps: seq<nat>, at: nat)
    requires steps == Merged(kernel, spans, thread)
    ensures |steps| == |kernel| + |spans| && if response then at + |ps| == |steps| else at == 0
    ensures Selects(ps, kernel, response) && StandForKernelSteps(steps, at, kernel, ps)
  {
    var part;
    part, at := PartIsPlaced(kernel, spans, thread, steps, response);
    ps := KernelStepsAreKept(kernel, response, part, steps, at);
  }

  /** Between them stands each span, with all that it says, and all steps are numbered from 1. */
  lemma MergedShowsSpans(kernel: seq<KernelFile.KernelStep>, spans: seq<Tracers.SpanRec>, thread: string,
                         steps: seq<MergedStep>) returns (before: seq<nat>)
    requires steps == Merged(kernel, spans, thread)
    ensures Selects(before, kernel, false) && StandForSpans(steps, |before|, spans, thread)
    ensures forall k | 0 <= k < |steps| :: steps[k].n == k + 1
  {
    var a, b, c := Part(kernel, false), SpanPart(spans, thread), Part(kernel, true);
    PartsArePlaced(a, b, c, steps);
    before := Positions(ResponseFlags(kernel), false);
    PositionsSelect(kernel, false);
    SpansAreKept(spans, thread, b, steps, |a|);
  }

  method NumberSteps(all: seq<MergedStep>) returns (ordered: seq<MergedStep>)
    ensures ordered == Numbered(all)
  {
    ordered := all;
    for i := 0 to |ordered|
      invariant |ordered| == |all|
      invariant forall j | 0 <= j < i :: ordered[j] == all[j].(n := j + 1)
      invariant forall j | i <= j < |ordered| :: ordered[j] == all[j]
    {
      ordered := ordered[i := ordered[i].(n := i + 1)];
    }
  }

  method SpanSteps(spans: seq<Tracers.SpanRec>, thread: string) returns (steps: seq<MergedStep>)
    ensures steps == SpanPart(spans, thread)
  {
    steps := [];
    for i := 0 to |spans|
      invariant steps == SpanPart(spans, thread)[..i]
    {
      var step := OfSpan(spans[i], thread);
      assert SpanPart(spans, thread)[i] == step;
      steps := steps + [step];
    }
  }

  method SplitKernelSteps(kernel: seq<KernelFile.KernelStep>)
    returns (ordered: seq<MergedStep>, response: seq<MergedStep>)
    ensures ordered == Part(kernel, false) && response == Part(kernel, true)
  {
    ordered, response := [], [];
    for i := 0 to |kernel|
      invariant ordered == Part(kernel[..i], false) && response == Part(kernel[..i], true)
    {
      PartSnoc(kernel, i, false);
      PartSnoc(kernel, i, true);
      var step := OfKernel(kernel[i]);
      if step.section == RESPONSE {
        response := response + [step];
      } else {
        ordered := ordered + [step];
      }
    }
    assert kernel[..|kernel|] == kernel;
  }

  // ---------- Totals by section ----------

  const SECTIONS: seq<string> := [NETWORK, KERNEL_SOCKET, WEB_SERVER, APPLICATION, DATABASE, RESPONSE]

  function SectionCount(steps: seq<MergedStep>, section: string): nat {
    if steps == [] then 0
    else
      var s := steps[|steps| - 1];
      SectionCount(steps[..|steps| - 1], section) + (if s.section == section then 1 else 0)
  }

  function SectionTime(steps: seq<MergedStep>, section: string): int {
    if steps == [] then 0
    else
      var s := steps[|steps| - 1];
      SectionTime(steps[..|steps| - 1], section) + (if s.section == section then s.timeNs else 0)
  }

  function TotalTime(steps: seq<MergedStep>): int {
    if steps == [] then 0 else TotalTime(steps[..|steps| - 1]) + steps[|steps| - 1].timeNs
  }

  function CountOver(steps: seq<MergedStep>, sections: seq<string>): nat {
    if sections == [] then 0 else SectionCount(steps, sections[0]) + CountOver(steps, sections[1..])
  }

  function TimeOver(steps: seq<MergedStep>, sections: seq<string>): int {
    if sections == [] then 0 else SectionTime(steps, sections[0]) + TimeOver(steps, sections[1..])
  }

  lemma {:induction false} CountOverNext(steps: seq<MergedStep>, sections: seq<string>)
    requires steps != [] && (forall i, j | 0 <= i < j < |sections| :: sections[i] != sections[j])
    ensures var front, s := steps[..|steps| - 1], steps[|steps| - 1];
      && CountOver(steps, sections) == CountOver(front, sections) + (if s.section in sections then 1 else 0)
      && TimeOver(steps, sections) == TimeOver(front, sections) + (if s.section in sections then s.timeNs else 0)
    decreases |sections|
  {
    if sections != [] {
      CountOverNext(steps, sections[1..]);
    }
  }

  lemma {:induction false} SectionsCover(steps: seq<MergedStep>, sections: seq<string>)
    requires forall i, j | 0 <= i < j < |sections| :: sections[i] != sections[j]
    requires forall i | 0 <= i < |steps| :: steps[i].section in sections
    ensures CountOver(steps, sections) == |steps| && TimeOver(steps, sections) == TotalTime(steps)
  {
    if steps == [] {
      EmptyCounts(sections);
    } else {
      SectionsCover(steps[..|steps| - 1], sections);
      CountOverNext(steps, sections);
    }
  }

  lemma {:induction false} EmptyCounts(sections: seq<string>)
    ensures CountOver([], sections) == 0 && TimeOver([], sections) == 0
  {
    if sections != [] {
      EmptyCounts(sections[1..]);
    }
  }

  /** The six section totals that the agent writes account for every merged step and all of its time. */
  lemma SectionTotalsConserve(kernel: seq<KernelFile.KernelStep>, spans: seq<Tracers.SpanRec>, thread: string)
    ensures var steps := Merged(kernel, spans, thread);
      CountOver(steps, SECTIONS) == |kernel| + |spans| && TimeOver(steps, SECTIONS) == TotalTime(steps)
  {
    var steps := Merged(kernel, spans, thread);
    PositionsPartition(ResponseFlags(kernel), true);
    forall i | 0 <= i < |steps| ensures steps[i].section in SECTIONS {
      MergedSectionKnown(kernel, spans, thread, i);
    }
    SectionsDistinct();
    SectionsCover(steps, SECTIONS);
  }

  lemma SectionsDistinct()
    ensures forall i, j | 0 <= i < j < |SECTIONS| :: SECTIONS[i] != SECTIONS[j]
  {}

  lemma KernelSectionKnown(name: string)
    ensures KernelSection(name) in SECTIONS
  {
    assert SECTIONS[0] == NETWORK && SECTIONS[1] == KERNEL_SOCKET;
    assert SECTIONS[2] == WEB_SERVER && SECTIONS[5] == RESPONSE;
  }

  lemma JvmSectionKnown(stage: string)
    ensures JvmSection(stage) in SECTIONS
  {
    assert SECTIONS[3] == APPLICATION && SECTIONS[4] == DATABASE;
  }

  lemma MergedSectionKnown(kernel: seq<KernelFile.KernelStep>, spans: seq<Tracers.SpanRec>, thread: string, i: nat)
    requires i < |Merged(kernel, spans, thread)|
    ensures Merged(kernel, spans, thread)[i].section in SECTIONS
  {
    var a, b, c := Part(kernel, false), SpanPart(spans, thread), Part(kernel, true);
    if i < |a| {
      KernelSectionKnown(kernel[Positions(ResponseFlags(kernel), false)[i]].name);
    } else if i < |a| + |b| {
      JvmSectionKnown(spans[i - |a|].stage);
    } else {
      KernelSectionKnown(kernel[Positions(ResponseFlags(kernel), true)[i - |a| - |b|]].name);
    }
  }

  // ---------- The agent's breakdown by layer ----------

  /** The kernel's bucket for an event, as the agent draws it: payload queueing moves from TCP to the socket. */
  function Redrawn(k: Kind): AgentBucket {
    if k.TcpDataQueue? then SocketQueue
    else
      match Latency.BucketOf(k)
      case Nic => NicReceive
      case Ipv4 => IPv4
      case Tcp => TCP
      case Socket => SocketQueue
      case Sched => Scheduler
      case Nginx => NginxTime
      case Tx => TcpSend
      case Unnamed => Uncounted
  }

  lemma NameBucketIsRedrawn(k: Kind)
    ensures NameBucket(k) == Redrawn(k)
  {}

  lemma AgentRedraws(k: Kind)
    ensures AgentBucketOf(EventName(k), EventSection(k)) == Redrawn(k)
  {
    NamesAreUnderstood(k);
    NameBucketIsRedrawn(k);
  }

  function AgentSum(steps: seq<MergedStep>, b: AgentBucket): int {
    if steps == [] then 0
    else
      var s := steps[|steps| - 1];
      AgentSum(steps[..|steps| - 1], b) + (if AgentBucketOf(s.stage, s.section) == b then s.timeNs else 0)
  }

  const PRINTED: seq<AgentBucket> :=
    [NicReceive, IPv4, TCP, SocketQueue, Scheduler, NginxTime, Spring, PostgreSQL, TcpSend]

  /** The sums that the agent prints, in nanoseconds. */
  method AgentBreakdown(steps: seq<MergedStep>) returns (sums: map<AgentBucket, int>)
    ensures forall b | b in PRINTED :: b in sums && sums[b] == AgentSum(steps, b)
  {
    sums := map b | b in PRINTED :: 0;
    for i := 0 to |steps|
      invariant forall b | b in PRINTED :: b in sums && sums[b] == AgentSum(steps[..i], b)
    {
      assert steps[..i + 1][..i] == steps[..i];
      var b := AgentBucketOf(steps[i].stage, steps[i].section);
      if b in PRINTED {
        sums := sums[b := sums[b] + steps[i].timeNs];
      }
    }
    assert steps[..|steps|] == steps;
  }

  lemma {:induction false} AgentSumSplit(x: seq<MergedStep>, y: seq<MergedStep>, b: AgentBucket)
    ensures AgentSum(x + y, b) == AgentSum(x, b) + AgentSum(y, b)
  {
    if y == [] {
      assert x + y == x;
    } else {
      assert (x + y)[..|x + y| - 1] == x + y[..|y| - 1];
      AgentSumSplit(x, y[..|y| - 1], b);
    }
  }

  lemma {:induction false} NumberingKeepsSums(steps: seq<MergedStep>, b: AgentBucket)
    ensures AgentSum(Numbered(steps), b) == AgentSum(steps, b)
  {
    if steps != [] {
      var front := steps[..|steps| - 1];
      assert Numbered(steps)[..|steps| - 1] == Numbered(front);
      NumberingKeepsSums(front, b);
    }
  }

  /** The collector's time for the events that the agent puts in bucket `b`. */
  function RedrawnSum(entries: seq<Timelines.TimelineEntry>, b: AgentBucket): nat {
    if entries == [] then 0
    else
      var te := entries[|entries| - 1];
      RedrawnSum(entries[..|entries| - 1], b) + (if Redrawn(te.e.kind) == b then te.deltaNs else 0)
  }

  function DataQueueTime(entries: seq<Timelines.TimelineEntry>): nat {
    if entries == [] then 0
    else
      var te := entries[|entries| - 1];
      DataQueueTime(entries[..|entries| - 1]) + (if te.e.kind.TcpDataQueue? then te.deltaNs else 0)
  }

  /** The agent's buckets differ from the collector's only in where payload queueing goes. */
  lemma {:induction false} RedrawnAgainstBuckets(entries: seq<Timelines.TimelineEntry>)
    ensures RedrawnSum(entries, NicReceive) == Latency.BucketSum(entries, Latency.Nic)
    ensures RedrawnSum(entries, IPv4) == Latency.BucketSum(entries, Latency.Ipv4)
    ensures RedrawnSum(entries, TCP) + DataQueueTime(entries) == Latency.BucketSum(entries, Latency.Tcp)
    ensures RedrawnSum(entries, SocketQueue) == Latency.BucketSum(entries, Latency.Socket) + DataQueueTime(entries)
    ensures RedrawnSum(entries, Scheduler) == Latency.BucketSum(entries, Latency.Sched)
    ensures RedrawnSum(entries, NginxTime) == Latency.BucketSum(entries, Latency.Nginx)
    ensures RedrawnSum(entries, TcpSend) == Latency.BucketSum(entries, Latency.Tx)
  {
    if entries != [] {
      RedrawnAgainstBuckets(entries[..|entries| - 1]);
    }
  }

  /** The kernel steps are the collector's entries: same names, same deltas. */
  ghost predicate Delivers(kernel: seq<KernelFile.KernelStep>, entries: seq<Timelines.TimelineEntry>) {
    && |kernel| == |entries|
    && forall i | 0 <= i < |kernel| ::
      kernel[i].name == EventName(entries[i].e.kind) && kernel[i].deltaNs == entries[i].deltaNs
  }

  lemma AgentBucketOfStep(ks: KernelFile.KernelStep, k: Kind)
    requires ks.name == EventName(k)
    ensures AgentBucketOf(OfKernel(ks).stage, OfKernel(ks).section) == Redrawn(k)
  {
    SectionsAgree(k);
    AgentRedraws(k);
  }

  lemma AgentSumSnoc(steps: seq<MergedStep>, s: MergedStep, b: AgentBucket)
    ensures AgentSum(steps + [s], b) ==
      AgentSum(steps, b) + (if AgentBucketOf(s.stage, s.section) == b then s.timeNs else 0)
  {
    assert (steps + [s])[..|steps|] == steps;
  }

  lemma PartsSumNext(kernel: seq<KernelFile.KernelStep>, n: nat, k: Kind, b: AgentBucket)
    requires n < |kernel| && kernel[n].name == EventName(k)
    ensures AgentSum(Part(kernel[..n + 1], false), b) + AgentSum(Part(kernel[..n + 1], true), b)
      == AgentSum(Part(kernel[..n], false), b) + AgentSum(Part(kernel[..n], true), b)
        + (if Redrawn(k) == b then kernel[n].deltaNs else 0)
  {
    var response := IsResponse(kernel[n]);
    PartSnoc(kernel, n, response);
    PartSnoc(kernel, n, !response);
    AgentBucketOfStep(kernel[n], k);
    AgentSumSnoc(Part(kernel[..n], response), OfKernel(kernel[n]), b);
  }

  lemma {:induction false} KernelPartsSum(
    kernel: seq<KernelFile.KernelStep>, entries: seq<Timelines.TimelineEntry>, n: nat, b: AgentBucket)
    requires Delivers(kernel, entries) && n <= |kernel|
    ensures AgentSum(Part(kernel[..n], false), b) + AgentSum(Part(kernel[..n], true), b) == RedrawnSum(entries[..n], b)
  {
    if n == 0 {
      assert kernel[..0] == [] && entries[..0] == [];
    } else {
      KernelPartsSum(kernel, entries, n - 1, b);
      PartsSumNext(kernel, n - 1, entries[n - 1].e.kind, b);
      assert entries[..n][..n - 1] == entries[..n - 1];
    }
  }

  predicate IsApplicationBucket(b: AgentBucket) {
    b.Spring? || b.PostgreSQL?
  }

  lemma SpanPartLast(spans: seq<Tracers.SpanRec>, n: nat, thread: string)
    requires |spans| == n + 1
    ensures SpanPart(spans, thread) == SpanPart(spans[..n], thread) + [OfSpan(spans[n], thread)]
  {}

  /** The stages that the instrumentation gives to methods. */
  const AGENT_STAGES: seq<string> := [
    "TOMCAT", "SPRING_MVC", "CONNECTION_POOL", "SQL_QUERY", "CONTROLLER", "SERVICE", "REPOSITORY", "APP", "POSTGRESQL"]

  /** None of them is the name of a kernel event: a span counts for the database or for Spring, by its stage. */
  lemma AgentStagesAreApplication(stage: string)
    requires stage in AGENT_STAGES
    ensures AgentBucketOf(stage, JvmSection(stage)) ==
      if stage == "SQL_QUERY" || stage == "POSTGRESQL" then PostgreSQL else Spring
  {}

  lemma AgentSpansAreApplication(spans: seq<Tracers.SpanRec>)
    requires forall i | 0 <= i < |spans| :: spans[i].stage in AGENT_STAGES
    ensures forall i | 0 <= i < |spans| ::
      IsApplicationBucket(AgentBucketOf(spans[i].stage, JvmSection(spans[i].stage)))
  {
    forall i | 0 <= i < |spans|
      ensures IsApplicationBucket(AgentBucketOf(spans[i].stage, JvmSection(spans[i].stage)))
    {
      AgentStagesAreApplication(spans[i].stage);
    }
  }

  lemma {:induction false} SpansStayInTheApplication(spans: seq<Tracers.SpanRec>, thread: string, b: AgentBucket)
    requires !IsApplicationBucket(b)
    requires forall i | 0 <= i < |spans| ::
      IsApplicationBucket(AgentBucketOf(spans[i].stage, JvmSection(spans[i].stage)))
    ensures AgentSum(SpanPart(spans, thread), b) == 0
  {
    if spans != [] {
      var n := |spans| - 1;
      SpansStayInTheApplication(spans[..n], thread, b);
      SpanPartLast(spans, n, thread);
      AgentSumSnoc(SpanPart(spans[..n], thread), OfSpan(spans[n], thread), b);
    }
  }

  /** For every kernel bucket, the agent's figure for a merged request is the collector's time, as redrawn. */
  lemma AgentSumsMatchCollector(
    kernel: seq<KernelFile.KernelStep>, entries: seq<Timelines.TimelineEntry>, spans: seq<Tracers.SpanRec>,
    thread: string, b: AgentBucket)
    requires Delivers(kernel, entries) && !IsApplicationBucket(b)
    requires forall i | 0 <= i < |spans| ::
      IsApplicationBucket(AgentBucketOf(spans[i].stage, JvmSection(spans[i].stage)))
    ensures AgentSum(Merged(kernel, spans, thread), b) == RedrawnSum(entries, b)
  {
    var before, app, after := Part(kernel, false), SpanPart(spans, thread), Part(kernel, true);
    NumberingKeepsSums(before + app + after, b);
    AgentSumSplit(before + app, after, b);
    AgentSumSplit(before, app, b);
    SpansStayInTheApplication(spans, thread, b);
    KernelPartsSum(kernel, entries, |kernel|, b);
    assert kernel[..|kernel|] == kernel && entries[..|entries|] == entries;
  }

  /** Both programs report the same kernel time in total, although they draw two of the layers differently. */
  lemma KernelTotalsAgree(
    kernel: seq<KernelFile.KernelStep>, entries: seq<Timelines.TimelineEntry>, spans: seq<Tracers.SpanRec>,
    thread: string)
    requires Delivers(kernel, entries)
    requires forall i | 0 <= i < |spans| ::
      IsApplicationBucket(AgentBucketOf(spans[i].stage, JvmSection(spans[i].stage)))
    ensures var m := Merged(kernel, spans, thread);
      AgentSum(m, NicReceive) + AgentSum(m, IPv4) + AgentSum(m, TCP) + AgentSum(m, SocketQueue)
      + AgentSum(m, Scheduler) + AgentSum(m, NginxTime) + AgentSum(m, TcpSend)
        == Latency.SumDeltas(entries) - Latency.BucketSum(entries, Latency.Unnamed)
  {
    AgentSumsMatchCollector(kernel, entries, spans, thread, NicReceive);
    AgentSumsMatchCollector(kernel, entries, spans, thread, IPv4);
    AgentSumsMatchCollector(kernel, entries, spans, thread, TCP);
    AgentSumsMatchCollector(kernel, entries, spans, thread, SocketQueue);
    AgentSumsMatchCollector(kernel, entries, spans, thread, Scheduler);
    AgentSumsMatchCollector(kernel, entries, spans, thread, NginxTime);
    AgentSumsMatchCollector(kernel, entries, spans, thread, TcpSend);
    RedrawnAgainstBuckets(entries);
    Latency.BucketsPartition(entries);
  }
}
