/** The merged file seen from the request: its spans, and the two sums that the collector keeps. */
module MergedTotals {
  import opened CutFields
  import opened EventNames
  import opened MergedFile
  import opened MergedRoundTrip
  import opened MergedSteps
  import opened ObjectFront
  import opened SqlText
  import opened StepFront
  import opened Text
  import opened Wrappers
  import KernelFile
  import Tracers

  // ---------- The spans of a request ----------

  lemma {:induction false} NoAppSteps(steps: seq<MergedStep>)
    requires forall i | 0 <= i < |steps| :: steps[i].layer == KERNEL
    ensures AppSteps(steps) == []
  {
    if steps != [] {
      NoAppSteps(steps[1..]);
    }
  }

  lemma {:induction false} OnlyAppSteps(steps: seq<MergedStep>)
    requires forall i | 0 <= i < |steps| :: steps[i].layer == JVM
    ensures AppSteps(steps) == steps
  {
    if steps != [] {
      OnlyAppSteps(steps[1..]);
    }
  }

  lemma MiddleIsApplication(before: seq<MergedStep>, app: seq<MergedStep>, after: seq<MergedStep>)
    requires forall i | 0 <= i < |before| :: before[i].layer == KERNEL
    requires forall i | 0 <= i < |app| :: app[i].layer == JVM
    requires forall i | 0 <= i < |after| :: after[i].layer == KERNEL
    ensures AppSteps(before + app + after) == app
  {
    AppStepsSplit(before + app, after);
    AppStepsSplit(before, app);
    NoAppSteps(before);
    NoAppSteps(after);
    OnlyAppSteps(app);
  }

  lemma ThreeSlices(all: seq<MergedStep>, i: nat, j: nat)
    requires i <= j <= |all|
    ensures all[..i] + all[i..j] + all[j..] == all
  {}

  /** One merged step: a span in the middle part, a kernel step otherwise. */
  ghost predicate Placed(s: MergedStep, spans: seq<Tracers.SpanRec>, thread: string, before: nat, k: nat) {
    if before <= k < before + |spans| then
      s.layer == JVM && s == OfSpan(spans[k - before], thread).(n := k + 1)
    else
      s.layer == KERNEL
  }

  ghost predicate AllPlaced(all: seq<MergedStep>, spans: seq<Tracers.SpanRec>, thread: string, before: nat) {
    before + |spans| <= |all| && forall k | 0 <= k < |all| :: Placed(all[k], spans, thread, before, k)
  }

  lemma MergedAt(kernel: seq<KernelFile.KernelStep>, spans: seq<Tracers.SpanRec>, thread: string, k: nat)
    requires k < |Merged(kernel, spans, thread)|
    ensures Placed(Merged(kernel, spans, thread)[k], spans, thread, |Part(kernel, false)|, k)
  {}

  lemma MergedIsPlaced(kernel: seq<KernelFile.KernelStep>, spans: seq<Tracers.SpanRec>, thread: string)
    ensures AllPlaced(Merged(kernel, spans, thread), spans, thread, |Part(kernel, false)|)
  {
    forall k | 0 <= k < |Merged(kernel, spans, thread)|
      ensures Placed(Merged(kernel, spans, thread)[k], spans, thread, |Part(kernel, false)|, k)
    {
      MergedAt(kernel, spans, thread, k);
    }
  }

  lemma PlacedApps(all: seq<MergedStep>, spans: seq<Tracers.SpanRec>, thread: string, before: nat)
    requires AllPlaced(all, spans, thread, before)
    ensures AppSteps(all) == all[before..before + |spans|]
  {
    var j := before + |spans|;
    ThreeSlices(all, before, j);
    MiddleIsApplication(all[..before], all[before..j], all[j..]);
  }

  /** The application steps of a merged request are the agent's spans, in the order in which they finished. */
  lemma MergedKeepsSpans(kernel: seq<KernelFile.KernelStep>, spans: seq<Tracers.SpanRec>, thread: string)
    ensures var apps, before := AppSteps(Merged(kernel, spans, thread)), |Part(kernel, false)|;
      && |apps| == |spans|
      && forall k | 0 <= k < |spans| :: apps[k] == OfSpan(spans[k], thread).(n := before + k + 1)
  {
    MergedIsPlaced(kernel, spans, thread);
    PlacedApps(Merged(kernel, spans, thread), spans, thread, |Part(kernel, false)|);
    SliceOfPlaced(Merged(kernel, spans, thread), spans, thread, |Part(kernel, false)|);
  }

  lemma SliceOfPlaced(all: seq<MergedStep>, spans: seq<Tracers.SpanRec>, thread: string, before: nat)
    requires AllPlaced(all, spans, thread, before)
    ensures var apps := all[before..before + |spans|];
      |apps| == |spans| && forall k | 0 <= k < |spans| :: apps[k] == OfSpan(spans[k], thread).(n := before + k + 1)
  {
    forall k | 0 <= k < |spans| ensures all[before + k] == OfSpan(spans[k], thread).(n := before + k + 1) {
      assert Placed(all[before + k], spans, thread, before, before + k);
    }
  }

  lemma AppsUpTo(all: seq<MergedStep>, spans: seq<Tracers.SpanRec>, thread: string, before: nat, u: nat)
    requires AllPlaced(all, spans, thread, before) && u <= |all|
    ensures |AppSteps(all[..u])| == if u <= before then 0 else if u <= before + |spans| then u - before else |spans|
  {
    var j := before + |spans|;
    if u <= before {
      NoAppSteps(all[..u]);
    } else if u <= j {
      MiddleIsApplication(all[..before], all[before..u], []);
      assert all[..u] == all[..before] + all[before..u] + [];
    } else {
      MiddleIsApplication(all[..before], all[before..j], all[j..u]);
      assert all[..u] == all[..before] + all[before..j] + all[j..u];
    }
  }

  lemma SpanIsUpTo(
    all: seq<MergedStep>, spans: seq<Tracers.SpanRec>, thread: string, before: nat, u: nat, k: nat, i: nat)
    requires AllPlaced(all, spans, thread, before) && u <= |all| && k < |spans| && i == before + k
    ensures k < |AppSteps(all[..u])| <==> i < u
    ensures i < |all| && all[i] == OfSpan(spans[k], thread).(n := i + 1)
  {
    AppsUpTo(all, spans, thread, before, u);
    assert Placed(all[i], spans, thread, before, i);
  }

  /** A span is lost with the line exactly when its object starts before the piece that is kept. */
  lemma LostExactlyWhen(
    r: Request, kernel: seq<KernelFile.KernelStep>, spans: seq<Tracers.SpanRec>, thread: string, k: nat,
    steps: seq<MergedStep>, i: nat)
    requires k < |spans| && steps == Merged(kernel, spans, thread) && i == |Part(kernel, false)| + k
    ensures i < |steps| && steps[i] == OfSpan(spans[k], thread).(n := i + 1)
    ensures k < Lost(r, steps) <==> StepStart(r, steps, i) < KeptFrom(r, steps)
  {
    MergedIsPlaced(kernel, spans, thread);
    SpanIsUpTo(steps, spans, thread, |Part(kernel, false)|, Unread(r, steps), k, i);
    UnreadMeaning(r, steps, i);
  }

  /** Statements as the agent normalises them need no further condition than to be free of NULs. */
  lemma NormalisedSqlIsOneLine(sql: string)
    requires Without(sql, '\0')
    ensures NormaliseSql(Some(sql)).Some? ==> OneLineText(NormaliseSql(Some(sql)).value)
  {
    NormalisedOnce(sql);
    NormalisingAddsNothing(sql, '\0');
  }

  lemma KernelStaysOut(name: string)
    ensures KernelSection(name) != APPLICATION && KernelSection(name) != DATABASE
  {}

  /** What merging guarantees of every step: a known section, and the application's sections for spans only. */
  lemma MergedLayer(kernel: seq<KernelFile.KernelStep>, spans: seq<Tracers.SpanRec>, thread: string, i: nat)
    requires i < |Merged(kernel, spans, thread)|
    ensures var s := Merged(kernel, spans, thread)[i];
      && (s.layer == KERNEL || s.layer == JVM) && s.section in SECTIONS
      && (s.section == APPLICATION || s.section == DATABASE ==> s.layer == JVM)
      && (s.layer == JVM ==> s.timeNs >= 0)
  {
    var a, b, c := Part(kernel, false), SpanPart(spans, thread), Part(kernel, true);
    MergedSectionKnown(kernel, spans, thread, i);
    if i < |a| {
      KernelStaysOut(kernel[Positions(ResponseFlags(kernel), false)[i]].name);
    } else if i >= |a| + |b| {
      KernelStaysOut(kernel[Positions(ResponseFlags(kernel), true)[i - |a| - |b|]].name);
    }
  }

  // ---------- The time of a section ----------

  /** The time of the steps of one section among application steps. */
  function TimeOf(apps: seq<MergedStep>, section: string): int {
    if apps == [] then 0
    else
      var s := apps[|apps| - 1];
      TimeOf(apps[..|apps| - 1], section) + (if s.section == section then s.timeNs else 0)
  }

  lemma TimeOfSnoc(apps: seq<MergedStep>, s: MergedStep, section: string)
    ensures TimeOf(apps + [s], section) == TimeOf(apps, section) + (if s.section == section then s.timeNs else 0)
  {
    assert (apps + [s])[..|apps|] == apps;
  }

  lemma {:induction false} SectionTimeIsApplicationTime(steps: seq<MergedStep>, section: string)
    requires forall i | 0 <= i < |steps| && steps[i].section == section :: steps[i].layer == JVM
    ensures SectionTime(steps, section) == TimeOf(AppSteps(steps), section)
  {
    if steps != [] {
      var front, s := steps[..|steps| - 1], steps[|steps| - 1];
      assert steps == front + [s] && [s][1..] == [];
      SectionTimeIsApplicationTime(front, section);
      AppStepsSplit(front, [s]);
      if s.layer == JVM {
        assert AppSteps([s]) == [s];
        TimeOfSnoc(AppSteps(front), s, section);
      } else {
        assert AppSteps([s]) == [];
        assert AppSteps(front) + [] == AppSteps(front);
      }
    }
  }

  /** All of the duration is seen, but for zeros. */
  predicate TimeIsRead(s: MergedStep) {
    TimeSuffices(s.timeNs, SeenOf(s, 6))
  }

  /** The step is one of the `n` that are read from step `d` on, and so is its duration; or it took no time. */
  predicate TimeCounts(apps: seq<MergedStep>, i: nat, d: nat, n: nat)
    requires i < |apps|
  {
    apps[i].timeNs == 0 || (d <= i < d + n && TimeIsRead(apps[i]))
  }

  lemma ReadFirstSnoc(apps: seq<MergedStep>, s: MergedStep, n: nat)
    ensures FirstN(ReadSteps(apps + [s]), n) ==
      if |apps| < n then FirstN(ReadSteps(apps), n) + [ReadBack(s)] else FirstN(ReadSteps(apps), n)
  {}

  lemma DurationRead(s: MergedStep)
    requires s.timeNs >= 0
    ensures 0.0 <= ReadBack(s).durationUs <= s.timeNs as real / 1000.0
    ensures ReadBack(s).durationUs == s.timeNs as real / 1000.0 <==> TimeIsRead(s)
  {
    TimeReadExactlyWhen(s.timeNs, SeenOf(s, 6));
  }

  lemma NoTime(ns: int)
    ensures ns as real / 1000.0 == 0.0 <==> ns == 0
  {}

  lemma OneMoreTime(read: real, time: real, more: real, most: real)
    requires read <= time && 0.0 <= more <= most
    ensures read + more <= time + most
    ensures read + more == time + most <==> read == time && more == most
  {}

  lemma TimesAdd(a: int, b: int)
    ensures (a + b) as real / 1000.0 == a as real / 1000.0 + b as real / 1000.0
  {}

  lemma CountsSnoc(front: seq<MergedStep>, s: MergedStep, section: string, d: nat, n: nat)
    ensures var apps := front + [s];
      (forall i | 0 <= i < |apps| && apps[i].section == section :: TimeCounts(apps, i, d, n))
      <==> ((forall i | 0 <= i < |front| && front[i].section == section :: TimeCounts(front, i, d, n))
            && (s.section == section ==> TimeCounts(apps, |front|, d, n)))
  {
    var apps := front + [s];
    assert forall i | 0 <= i < |front| ::
      apps[i] == front[i] && (TimeCounts(apps, i, d, n) <==> TimeCounts(front, i, d, n));
    assert apps[|front|] == s;
  }

  /** What step `s` adds to the sum of a section when it is the last of these. */
  function Added(apps: seq<MergedStep>, s: MergedStep, section: string, n: nat): real {
    if s.section == section && |apps| < n then ReadBack(s).durationUs else 0.0
  }

  lemma AddedIs(front: seq<MergedStep>, s: MergedStep, section: string, n: nat)
    requires s.timeNs >= 0
    ensures DurationIn(FirstN(ReadSteps(front + [s]), n), section)
      == DurationIn(FirstN(ReadSteps(front), n), section) + Added(front, s, section, n)
    ensures var most := if s.section == section then s.timeNs as real / 1000.0 else 0.0;
      && 0.0 <= Added(front, s, section, n) <= most
      && (Added(front, s, section, n) == most
          <==> (s.section == section ==> TimeCounts(front + [s], |front|, 0, n)))
  {
    ReadFirstSnoc(front, s, n);
    DurationSnoc(FirstN(ReadSteps(front), n), ReadBack(s), section);
    DurationRead(s);
    NoTime(s.timeNs);
    assert (front + [s])[|front|] == s;
  }

  lemma {:induction false} NoMoreThanTheTime(apps: seq<MergedStep>, section: string, n: nat)
    requires forall i | 0 <= i < |apps| :: apps[i].timeNs >= 0
    ensures var read, time := DurationIn(FirstN(ReadSteps(apps), n), section), TimeOf(apps, section) as real / 1000.0;
      && read <= time
      && (read == time <==> forall i | 0 <= i < |apps| && apps[i].section == section :: TimeCounts(apps, i, 0, n))
  {
    if apps != [] {
      var front, s := apps[..|apps| - 1], apps[|apps| - 1];
      var most := if s.section == section then s.timeNs else 0;
      assert apps == front + [s];
      NoMoreThanTheTime(front, section, n);
      AddedIs(front, s, section, n);
      TimesAdd(TimeOf(front, section), most);
      OneMoreTime(DurationIn(FirstN(ReadSteps(front), n), section), TimeOf(front, section) as real / 1000.0,
                  Added(front, s, section, n), most as real / 1000.0);
      CountsSnoc(front, s, section, 0, n);
    }
  }

  // ---------- The steps that are lost with the line ----------

  lemma {:induction false} TimeOfSplit(a: seq<MergedStep>, b: seq<MergedStep>, section: string)
    ensures TimeOf(a + b, section) == TimeOf(a, section) + TimeOf(b, section)
    decreases |b|
  {
    if b == [] {
      assert a + b == a;
    } else {
      var front, s := b[..|b| - 1], b[|b| - 1];
      assert b == front + [s] && a + b == (a + front) + [s];
      TimeOfSplit(a, front, section);
      TimeOfSnoc(a + front, s, section);
    }
  }

  predicate NoTimeIn(apps: seq<MergedStep>, section: string) {
    forall i | 0 <= i < |apps| && apps[i].section == section :: apps[i].timeNs == 0
  }

  lemma {:induction false} TimeIsNoneExactlyWhen(apps: seq<MergedStep>, section: string)
    requires forall i | 0 <= i < |apps| :: apps[i].timeNs >= 0
    ensures TimeOf(apps, section) >= 0 && (TimeOf(apps, section) == 0 <==> NoTimeIn(apps, section))
  {
    if apps != [] {
      var front, s := apps[..|apps| - 1], apps[|apps| - 1];
      TimeIsNoneExactlyWhen(front, section);
      assert NoTimeIn(apps, section) <==> NoTimeIn(front, section) && (s.section == section ==> s.timeNs == 0) by {
        assert apps == front + [s];
        assert forall i | 0 <= i < |front| :: apps[i] == front[i];
        assert apps[|front|] == s;
      }
    }
  }

  /** Every step of the section counts. */
  predicate AllCount(apps: seq<MergedStep>, section: string, d: nat, n: nat) {
    forall i | 0 <= i < |apps| && apps[i].section == section :: TimeCounts(apps, i, d, n)
  }

  lemma AllCountFrom(apps: seq<MergedStep>, lost: seq<MergedStep>, rest: seq<MergedStep>, section: string, n: nat)
    requires apps == lost + rest
    ensures AllCount(apps, section, |lost|, n) <==> NoTimeIn(lost, section) && AllCount(rest, section, 0, n)
  {
    var d := |lost|;
    assert forall i | 0 <= i < d :: apps[i] == lost[i] && (TimeCounts(apps, i, d, n) <==> lost[i].timeNs == 0);
    assert forall i | 0 <= i < |rest| ::
      apps[d + i] == rest[i] && (TimeCounts(apps, d + i, d, n) <==> TimeCounts(rest, i, 0, n));
    if AllCount(apps, section, d, n) {
      forall i | 0 <= i < |rest| && rest[i].section == section ensures TimeCounts(rest, i, 0, n) {
        assert TimeCounts(apps, d + i, d, n);
      }
      forall i | 0 <= i < |lost| && lost[i].section == section ensures lost[i].timeNs == 0 {
        assert TimeCounts(apps, i, d, n);
      }
    }
    if NoTimeIn(lost, section) && AllCount(rest, section, 0, n) {
      forall i | 0 <= i < |apps| && apps[i].section == section ensures TimeCounts(apps, i, d, n) {
        if i >= d {
          assert TimeCounts(rest, i - d, 0, n);
        }
      }
    }
  }

  lemma SumsAgree(read: real, time: real, lost: int, rest: int, all: int)
    requires lost >= 0 && all == lost + rest && time == rest as real / 1000.0 && read <= time
    ensures read <= all as real / 1000.0
    ensures read == all as real / 1000.0 <==> read == time && lost == 0
  {}

  /** Of `apps`, the reader gets the first `n` that come behind the first `d`. */
  lemma ReadTimeExactlyWhen(apps: seq<MergedStep>, section: string, d: nat, n: nat, read: real)
    requires d <= |apps| && forall i | 0 <= i < |apps| :: apps[i].timeNs >= 0
    requires read == DurationIn(FirstN(ReadSteps(apps[d..]), n), section)
    ensures read <= TimeOf(apps, section) as real / 1000.0
    ensures read == TimeOf(apps, section) as real / 1000.0 <==> AllCount(apps, section, d, n)
  {
    var lost, rest := apps[..d], apps[d..];
    assert apps == lost + rest;
    TimeOfSplit(lost, rest, section);
    TimeIsNoneExactlyWhen(lost, section);
    NoMoreThanTheTime(rest, section, n);
    AllCountFrom(apps, lost, rest, section, n);
    SumsAgree(read, TimeOf(rest, section) as real / 1000.0, TimeOf(lost, section), TimeOf(rest, section),
              TimeOf(apps, section));
  }

  lemma MergedTimes(kernel: seq<KernelFile.KernelStep>, spans: seq<Tracers.SpanRec>, thread: string, section: string)
    requires section == APPLICATION || section == DATABASE
    ensures var steps := Merged(kernel, spans, thread);
      && SectionTime(steps, section) == TimeOf(AppSteps(steps), section)
      && forall i | 0 <= i < |AppSteps(steps)| :: AppSteps(steps)[i].timeNs >= 0
  {
    var steps := Merged(kernel, spans, thread);
    forall i | 0 <= i < |steps| ensures steps[i].section == section ==> steps[i].layer == JVM {
      MergedLayer(kernel, spans, thread, i);
    }
    SectionTimeIsApplicationTime(steps, section);
    MergedKeepsSpans(kernel, spans, thread);
  }

  /**
   * The two sums that the collector keeps never exceed the agent's section totals, and equal them exactly when
   * every step of the section that was lost with the line, that was dropped, or whose duration was not seen, took
   * no time.
   */
  lemma ReadTotalsAgreeExactlyWhen(
    file: string, r: Request, kernel: seq<KernelFile.KernelStep>, spans: seq<Tracers.SpanRec>, thread: string,
    section: string, maxSteps: nat)
    requires section == APPLICATION || section == DATABASE
    requires Appended(file, r, Merged(kernel, spans, thread))
    requires WritableRequest(r) && AllWritable(Merged(kernel, spans, thread))
    ensures var steps := Merged(kernel, spans, thread);
      var read, total := DurationIn(Latest(file, maxSteps), section), SectionTime(steps, section) as real / 1000.0;
      && read <= total
      && (read == total <==> AllCount(AppSteps(steps), section, Lost(r, steps), maxSteps))
  {
    var steps := Merged(kernel, spans, thread);
    AppendedLineIsRead(file, r, steps, maxSteps);
    MergedTimes(kernel, spans, thread, section);
    var read := DurationIn(Latest(file, maxSteps), section);
    ReadTimeExactlyWhen(AppSteps(steps), section, Lost(r, steps), maxSteps, read);
  }
}
