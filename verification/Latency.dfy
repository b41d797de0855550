/** Where the time goes: deltas against totals, the breakdown by layer, and the running metrics. */
module Latency {
  import opened Events
  import opened TimelineHistory
  import opened Timelines
  import KernelFile
  import Text

  // ---------- Deltas telescope ----------

  function SumDeltas(entries: seq<TimelineEntry>): nat {
    if entries == [] then 0 else SumDeltas(entries[..|entries| - 1]) + entries[|entries| - 1].deltaNs
  }

  /** How often the clock ran backwards between neighbouring events. */
  function Descents(events: seq<Event>): nat {
    if |events| < 2 then 0
    else
      var n := |events|;
      Descents(events[..n - 1]) + (if events[n - 1].timestamp < events[n - 2].timestamp then 1 else 0)
  }

  lemma WithDeltasSnoc(events: seq<Event>, e: Event)
    ensures WithDeltas(events + [e]) == WithDeltas(events)
      + [TimelineEntry(e, if events == [] then 0 else Sub64(e.timestamp, events[|events| - 1].timestamp))]
  {
    var before, after := WithDeltas(events), WithDeltas(events + [e]);
    assert forall i | 0 <= i < |events| :: after[i] == before[i];
  }

  /** What the deltas of a run of events should add up to. */
  function Elapsed(events: seq<Event>): int
    requires events != []
  {
    events[|events| - 1].timestamp - events[0].timestamp + TWO_TO_THE_64 * Descents(events)
  }

  lemma ElapsedSnoc(events: seq<Event>, e: Event)
    requires events != []
    ensures Elapsed(events + [e]) == Elapsed(events) + Sub64(e.timestamp, events[|events| - 1].timestamp)
  {
    assert (events + [e])[..|events|] == events;
    OneMoreDelta(events[|events| - 1].timestamp, e.timestamp);
  }

  /** The deltas add up to the elapsed time, plus one full turn of the counter per descent. */
  lemma {:induction false} DeltasTelescope(events: seq<Event>)
    requires events != []
    ensures SumDeltas(WithDeltas(events)) == Elapsed(events)
  {
    var front, e := events[..|events| - 1], events[|events| - 1];
    assert events == front + [e];
    WithDeltasSnoc(front, e);
    SumDeltasSnoc(WithDeltas(front), WithDeltas(events)[|front|]);
    if front == [] {
      assert SumDeltas(WithDeltas(front)) == 0;
    } else {
      DeltasTelescope(front);
      ElapsedSnoc(front, e);
    }
  }

  lemma OneMoreDelta(last: U64, next: U64)
    ensures Sub64(next, last) == next - last + TWO_TO_THE_64 * (if next < last then 1 else 0)
  {
    FullTurns(next, last, 0);
  }

  lemma SumDeltasSnoc(entries: seq<TimelineEntry>, te: TimelineEntry)
    ensures SumDeltas(entries + [te]) == SumDeltas(entries) + te.deltaNs
  {
    assert (entries + [te])[..|entries|] == entries;
  }

  /**
   * Conservation: the deltas sum to the reported total modulo 2^64, and exactly when the clock
   * never ran backwards, or did so once and ended behind its start.
   */
  lemma DeltasMatchTotal(events: seq<Event>)
    requires events != []
    ensures var n, d := |events|, Descents(events);
      && SumDeltas(WithDeltas(events)) % TWO_TO_THE_64 == TotalNs(WithDeltas(events))
      && (SumDeltas(WithDeltas(events)) == TotalNs(WithDeltas(events))
          <==> d == 0 || (d == 1 && events[n - 1].timestamp < events[0].timestamp))
  {
    DeltasTelescope(events);
    var first, last, d := events[0].timestamp, events[|events| - 1].timestamp, Descents(events);
    TotalOfWithDeltas(events);
    TurnsMatch(first, last, d, SumDeltas(WithDeltas(events)));
  }

  lemma TurnsMatch(first: U64, last: U64, d: nat, sum: nat)
    requires sum == last - first + TWO_TO_THE_64 * d
    ensures sum % TWO_TO_THE_64 == Sub64(last, first)
    ensures sum == Sub64(last, first) <==> d == 0 || (d == 1 && last < first)
  {
    FullTurns(last, first, d);
    FullTurns(last, first, 0);
  }

  lemma TotalOfWithDeltas(events: seq<Event>)
    requires events != []
    ensures TotalNs(WithDeltas(events)) == Sub64(events[|events| - 1].timestamp, events[0].timestamp)
  {
    if |events| == 1 {
      FullTurns(events[0].timestamp, events[0].timestamp, 0);
    }
  }

  // ---------- What the handoff file can carry ----------

  /** From one reading of the clock to another the counter advances by less than 2^63. */
  predicate Soon(a: U64, b: U64) {
    if a <= b then b - a < Text.LONG_BOUND else a - b > Text.LONG_BOUND
  }

  lemma SoonFits(a: U64, b: U64)
    ensures Sub64(b, a) < Text.LONG_BOUND <==> Soon(a, b)
  {
    FullTurns(b, a, 0);
  }

  /** Neighbouring events, and the first and the last, are less than 2^63 ns apart. */
  ghost predicate InTime(events: seq<Event>)
    requires events != []
  {
    && (forall i | 0 < i < |events| :: Soon(events[i - 1].timestamp, events[i].timestamp))
    && Soon(events[0].timestamp, events[|events| - 1].timestamp)
  }

  lemma InTimeFits(events: seq<Event>)
    requires events != []
    ensures InTime(events)
      <==> KernelFile.AllFit(WithDeltas(events)) && TotalNs(WithDeltas(events)) < Text.LONG_BOUND
  {
    var entries := WithDeltas(events);
    forall i | 0 < i < |events|
      ensures entries[i].deltaNs < Text.LONG_BOUND <==> Soon(events[i - 1].timestamp, events[i].timestamp)
    {
      SoonFits(events[i - 1].timestamp, events[i].timestamp);
    }
    assert entries[0].deltaNs == 0;
    TotalOfWithDeltas(events);
    SoonFits(events[0].timestamp, events[|events| - 1].timestamp);
  }

  lemma {:induction false} SteadySteps(events: seq<Event>)
    requires events != [] && Descents(events) == 0
    ensures forall i, j | 0 <= i <= j < |events| :: events[i].timestamp <= events[j].timestamp
  {
    if |events| > 1 {
      var front := events[..|events| - 1];
      SteadySteps(front);
      assert forall i | 0 <= i < |front| :: front[i] == events[i];
    }
  }

  /** A clock that never runs backwards is in time exactly if the whole takes less than 2^63 ns. */
  lemma SteadyIsInTime(events: seq<Event>)
    requires events != [] && Descents(events) == 0
    ensures InTime(events) <==> events[|events| - 1].timestamp - events[0].timestamp < 0x8000_0000_0000_0000
  {
    SteadySteps(events);
  }

  ghost predicate NamesCarriable(events: seq<Event>) {
    forall i | 0 <= i < |events| :: KernelFile.Carriable(events[i].comm)
  }

  ghost predicate NamesPlain(events: seq<Event>) {
    forall i | 0 <= i < |events| :: KernelFile.PlainName(events[i].comm)
  }

  lemma SameNames(events: seq<Event>)
    ensures KernelFile.AllPlain(WithDeltas(events)) <==> NamesPlain(events)
    ensures var entries := WithDeltas(events);
      NamesCarriable(events) <==> forall i | 0 <= i < |entries| :: KernelFile.Carriable(entries[i].e.comm)
  {
    var entries := WithDeltas(events);
    assert forall i | 0 <= i < |events| :: entries[i].e == events[i];
  }

  /** Stated on the events themselves: when a request's timeline survives the handoff. */
  lemma HandoffOfEvents(
    socket: U64, events: seq<Event>, entries: seq<TimelineEntry>, appPort: U16)
    requires 0 < |events| <= MAX_EVENTS && entries == WithDeltas(events)
    ensures KernelFile.Lossless(socket, entries, appPort) <==> InTime(events) && NamesPlain(events)
    ensures NamesCarriable(events) ==>
      (KernelFile.LosslessButForBlanks(socket, entries, appPort) <==> InTime(events))
  {
    SameNames(events);
    InTimeFits(events);
    KernelFile.HandoffIsLosslessExactlyWhen(socket, entries, appPort);
    if NamesCarriable(events) {
      KernelFile.CarriableHandoff(socket, entries, appPort);
    }
  }

  // ---------- The breakdown by layer ----------

  datatype Bucket = Nic | Ipv4 | Tcp | Socket | Sched | Nginx | Tx | Unnamed

  function BucketOf(k: Kind): Bucket {
    match k
    case NetRx | NapiPoll | EthernetRx | IrqEntry | SoftirqEntry => Nic
    case IpRcv | NetfilterHook | RouteLookup => Ipv4
    case TcpV4Rcv | TcpStateMachine | TcpDataQueue => Tcp
    case SockDefReadable | RecvfromEnter | RecvfromExit => Socket
    case SchedWakeup | SchedSwitch => Sched
    case Accept4Enter | Accept4Exit | NginxHttpParse | NginxReverseProxy | NginxBackendSocket => Nginx
    case NginxResponseGen | NginxResponseTx | SendtoEnter | SendtoExit
      | TcpSendmsg | TcpWriteXmit | IpOutput | NetDevQueue => Tx
    case Other(_) => Unnamed
  }

  /** The time that events of one bucket take. */
  function BucketSum(entries: seq<TimelineEntry>, b: Bucket): nat {
    if entries == [] then 0
    else
      var te := entries[|entries| - 1];
      BucketSum(entries[..|entries| - 1], b) + (if BucketOf(te.e.kind) == b then te.deltaNs else 0)
  }

  datatype Breakdown = Breakdown(nic: nat, ipv4: nat, tcp: nat, socket: nat, sched: nat, nginx: nat, tx: nat)

  function Amount(b: Breakdown, bucket: Bucket): nat
    requires bucket != Unnamed
  {
    match bucket
    case Nic => b.nic
    case Ipv4 => b.ipv4
    case Tcp => b.tcp
    case Socket => b.socket
    case Sched => b.sched
    case Nginx => b.nginx
    case Tx => b.tx
  }

  lemma BucketSumNext(entries: seq<TimelineEntry>, i: nat, bucket: Bucket)
    requires i < |entries|
    ensures var more := if BucketOf(entries[i].e.kind) == bucket then entries[i].deltaNs else 0;
      BucketSum(entries[..i + 1], bucket) == BucketSum(entries[..i], bucket) + more
  {
    assert entries[..i + 1][..i] == entries[..i];
  }

  /** The accumulation loop, in nanoseconds. */
  method BreakDown(entries: seq<TimelineEntry>) returns (b: Breakdown)
    ensures forall bucket | bucket != Unnamed :: Amount(b, bucket) == BucketSum(entries, bucket)
  {
    b := Breakdown(0, 0, 0, 0, 0, 0, 0);
    for i := 0 to |entries|
      invariant forall bucket | bucket != Unnamed :: Amount(b, bucket) == BucketSum(entries[..i], bucket)
    {
      forall bucket | bucket != Unnamed
        ensures BucketSum(entries[..i + 1], bucket) == Amount(b, bucket)
          + (if BucketOf(entries[i].e.kind) == bucket then entries[i].deltaNs else 0)
      {
        BucketSumNext(entries, i, bucket);
      }
      var d := entries[i].deltaNs;
      ghost var before := b;
      match BucketOf(entries[i].e.kind) {
        case Nic => b := b.(nic := b.nic + d);
        case Ipv4 => b := b.(ipv4 := b.ipv4 + d);
        case Tcp => b := b.(tcp := b.tcp + d);
        case Socket => b := b.(socket := b.socket + d);
        case Sched => b := b.(sched := b.sched + d);
        case Nginx => b := b.(nginx := b.nginx + d);
        case Tx => b := b.(tx := b.tx + d);
        case Unnamed =>
      }
      assert forall bucket | bucket != Unnamed ::
        Amount(b, bucket) == Amount(before, bucket) + (if BucketOf(entries[i].e.kind) == bucket then d else 0);
    }
    assert entries[..|entries|] == entries;
  }

  /** The seven printed buckets lose nothing and count nothing twice, apart from events of no named type. */
  lemma {:induction false} BucketsPartition(entries: seq<TimelineEntry>)
    ensures BucketSum(entries, Nic) + BucketSum(entries, Ipv4) + BucketSum(entries, Tcp) + BucketSum(entries, Socket)
      + BucketSum(entries, Sched) + BucketSum(entries, Nginx) + BucketSum(entries, Tx)
      + BucketSum(entries, Unnamed) == SumDeltas(entries)
  {
    if entries != [] {
      BucketsPartition(entries[..|entries| - 1]);
    }
  }

  // ---------- Metrics ----------

  function SumTotals(xs: seq<Export>): nat {
    if xs == [] then 0 else SumTotals(xs[..|xs| - 1]) + TotalNs(xs[|xs| - 1].entries)
  }

  function SumEvents(xs: seq<Export>): nat {
    if xs == [] then 0 else SumEvents(xs[..|xs| - 1]) + |xs[|xs| - 1].entries|
  }

  function MetricsOf(xs: seq<Export>): Metrics {
    if xs == [] then ZERO_METRICS else Measured(MetricsOf(xs[..|xs| - 1]), xs[|xs| - 1].entries)
  }

  /** After any history the metrics are those of exactly the exported timelines. */
  lemma {:induction false} MetricsRefinement(cfg: Config, history: seq<Event>)
    ensures Run(cfg, history).metrics == MetricsOf(Run(cfg, history).exported)
  {
    if history != [] {
      var before, after := Run(cfg, history[..|history| - 1]), Run(cfg, history);
      MetricsRefinement(cfg, history[..|history| - 1]);
      if after.exported != before.exported {
        assert after.exported[..|after.exported| - 1] == before.exported;
      }
    }
  }

  ghost predicate IsLeastTotal(xs: seq<Export>, m: nat) {
    && (forall i | 0 <= i < |xs| :: m <= TotalNs(xs[i].entries))
    && exists i | 0 <= i < |xs| :: m == TotalNs(xs[i].entries)
  }

  ghost predicate IsGreatestTotal(xs: seq<Export>, m: nat) {
    && (forall i | 0 <= i < |xs| :: TotalNs(xs[i].entries) <= m)
    && exists i | 0 <= i < |xs| :: m == TotalNs(xs[i].entries)
  }

  lemma CountersAfter(m: Metrics, entries: seq<TimelineEntry>, n: nat, total: nat, events: nat)
    requires n + 1 < TWO_TO_THE_64 && m.requestCount == n
    requires m.totalLatencyNs == total % TWO_TO_THE_64 && m.totalEvents == events % TWO_TO_THE_64
    ensures var m' := Measured(m, entries);
      && m'.requestCount == n + 1
      && m'.totalLatencyNs == (total + TotalNs(entries)) % TWO_TO_THE_64
      && m'.totalEvents == (events + |entries|) % TWO_TO_THE_64
  {
    SmallIsKept(n + 1);
    SmallIsKept(TotalNs(entries));
    SumsWrap(total, TotalNs(entries));
    SumsWrap(events, |entries|);
  }

  /** The counters are sums modulo 2^64. */
  lemma {:induction false} CountersMeaning(xs: seq<Export>)
    requires |xs| < TWO_TO_THE_64
    ensures var m := MetricsOf(xs);
      && m.requestCount == |xs|
      && m.totalLatencyNs == SumTotals(xs) % TWO_TO_THE_64
      && m.totalEvents == SumEvents(xs) % TWO_TO_THE_64
  {
    if xs != [] {
      var front := xs[..|xs| - 1];
      CountersMeaning(front);
      CountersAfter(MetricsOf(front), xs[|front|].entries, |front|, SumTotals(front), SumEvents(front));
    }
  }

  /** The extremes really are the least and the greatest total, and are attained. */
  lemma {:induction false} ExtremesMeaning(xs: seq<Export>)
    requires |xs| < TWO_TO_THE_64
    ensures xs != [] ==> IsLeastTotal(xs, MetricsOf(xs).minLatencyNs) && IsGreatestTotal(xs, MetricsOf(xs).maxLatencyNs)
  {
    if xs != [] {
      var front, x := xs[..|xs| - 1], xs[|xs| - 1];
      ExtremesMeaning(front);
      CountersMeaning(front);
      assert forall i | 0 <= i < |front| :: xs[i] == front[i];
      assert xs[|front|] == x;
      LeastAfter(front, x);
      GreatestAfter(front, x);
      assert xs == front + [x];
    }
  }

  lemma MeasuredMin(m: Metrics, entries: seq<TimelineEntry>, n: nat)
    requires n + 1 < TWO_TO_THE_64 && m.requestCount == n
    ensures Measured(m, entries).minLatencyNs ==
      if n == 0 || TotalNs(entries) < m.minLatencyNs then TotalNs(entries) else m.minLatencyNs
  {
    SmallIsKept(n + 1);
  }

  lemma LeastStep(xs: seq<Export>, x: Export, before: nat, after: nat)
    requires xs == [] || IsLeastTotal(xs, before)
    requires after == if xs == [] || TotalNs(x.entries) < before then TotalNs(x.entries) else before
    ensures IsLeastTotal(xs + [x], after)
  {
    assert (xs + [x])[|xs|] == x;
    if after != TotalNs(x.entries) {
      var i :| 0 <= i < |xs| && after == TotalNs(xs[i].entries);
      assert (xs + [x])[i] == xs[i];
    }
  }

  lemma LeastAfter(xs: seq<Export>, x: Export)
    requires |xs| + 1 < TWO_TO_THE_64 && MetricsOf(xs).requestCount == |xs|
    requires xs != [] ==> IsLeastTotal(xs, MetricsOf(xs).minLatencyNs)
    ensures IsLeastTotal(xs + [x], Measured(MetricsOf(xs), x.entries).minLatencyNs)
  {
    MeasuredMin(MetricsOf(xs), x.entries, |xs|);
    LeastStep(xs, x, MetricsOf(xs).minLatencyNs, Measured(MetricsOf(xs), x.entries).minLatencyNs);
  }

  lemma GreatestStep(xs: seq<Export>, x: Export, before: nat, after: nat)
    requires if xs == [] then before == 0 else IsGreatestTotal(xs, before)
    requires after == if TotalNs(x.entries) > before then TotalNs(x.entries) else before
    ensures IsGreatestTotal(xs + [x], after)
  {
    assert (xs + [x])[|xs|] == x;
    if after != TotalNs(x.entries) {
      var i :| 0 <= i < |xs| && after == TotalNs(xs[i].entries);
      assert (xs + [x])[i] == xs[i];
    }
  }

  lemma GreatestAfter(xs: seq<Export>, x: Export)
    requires xs == [] || IsGreatestTotal(xs, MetricsOf(xs).maxLatencyNs)
    ensures IsGreatestTotal(xs + [x], Measured(MetricsOf(xs), x.entries).maxLatencyNs)
  {
    GreatestStep(xs, x, MetricsOf(xs).maxLatencyNs, Measured(MetricsOf(xs), x.entries).maxLatencyNs);
  }

  lemma MulNext(a: nat, n: nat)
    requires n > 0
    ensures a * n == a * (n - 1) + a
  {}

  lemma {:induction false} SumTotalsBounds(xs: seq<Export>, lo: nat, hi: nat)
    requires forall i | 0 <= i < |xs| :: lo <= TotalNs(xs[i].entries) <= hi
    ensures lo * |xs| <= SumTotals(xs) <= hi * |xs|
  {
    if xs != [] {
      SumTotalsBounds(xs[..|xs| - 1], lo, hi);
      MulNext(lo, |xs|);
      MulNext(hi, |xs|);
    }
  }

  lemma {:induction false} SumEventsBounds(xs: seq<Export>, lo: nat, hi: nat)
    requires forall i | 0 <= i < |xs| :: lo <= |xs[i].entries| <= hi
    ensures lo * |xs| <= SumEvents(xs) <= hi * |xs|
  {
    if xs != [] {
      SumEventsBounds(xs[..|xs| - 1], lo, hi);
      MulNext(lo, |xs|);
      MulNext(hi, |xs|);
    }
  }

  /** The overflow-free reading of the metrics of any list of exports. */
  lemma BoundsOfExports(xs: seq<Export>, minSteps: nat)
    requires |xs| < TWO_TO_THE_64 && SumTotals(xs) < TWO_TO_THE_64 && SumEvents(xs) < TWO_TO_THE_64
    requires forall i | 0 <= i < |xs| :: minSteps <= |xs[i].entries| <= MAX_EVENTS
    ensures var m := MetricsOf(xs);
      && m.minLatencyNs * m.requestCount <= m.totalLatencyNs <= m.maxLatencyNs * m.requestCount
      && minSteps * m.requestCount <= m.totalEvents <= MAX_EVENTS * m.requestCount
  {
    var m := MetricsOf(xs);
    CountersMeaning(xs);
    SmallIsKept(SumTotals(xs));
    SmallIsKept(SumEvents(xs));
    if xs != [] {
      ExtremesMeaning(xs);
      SumTotalsBounds(xs, m.minLatencyNs, m.maxLatencyNs);
      SumEventsBounds(xs, minSteps, MAX_EVENTS);
    }
  }

  /** Over every run whose counters do not overflow, the reported figures bound each other. */
  lemma MetricsBounds(cfg: Config, history: seq<Event>)
    requires var xs := Run(cfg, history).exported;
      |xs| < TWO_TO_THE_64 && SumTotals(xs) < TWO_TO_THE_64 && SumEvents(xs) < TWO_TO_THE_64
    ensures var m := Run(cfg, history).metrics;
      && m.minLatencyNs * m.requestCount <= m.totalLatencyNs <= m.maxLatencyNs * m.requestCount
      && cfg.minSteps * m.requestCount <= m.totalEvents <= MAX_EVENTS * m.requestCount
  {
    MetricsRefinement(cfg, history);
    assert history[..|history|] == history;
    ExportRefinement(cfg, history, |history|);
    AllExportsWellShaped(cfg, history, |history|);
    BoundsOfExports(Run(cfg, history).exported, cfg.minSteps);
  }
}
