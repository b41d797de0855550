/** Requests on which the reading of the merged file shows its limits, down to the last byte. */
module MergedExamples {
  import opened CutFields
  import opened EventNames
  import opened JsonFields
  import opened JsonText
  import opened LastPiece
  import opened MergedFile
  import opened MergedRoundTrip
  import opened MergedSteps
  import opened MergedTotals
  import opened ObjectFront
  import opened ObjectScan
  import opened SqlText
  import opened StepFront
  import opened StepSurvival
  import opened Text
  import opened Tracers
  import opened Wrappers
  import KernelFile

  // ---------- Lengths ----------

  lemma SmallDec(n: nat)
    requires n < 100
    ensures |Dec(n)| <= 2
  {
    if n >= 10 {
      assert |Dec(n / 10)| == 1;
    }
  }

  lemma SmallFixed3(ns: nat)
    requires ns < 1000
    ensures |Fixed3(ns)| == 5
  {
    assert Dec(ns / 1000) == Dec(0) == [Digit(0)];
  }

  /** The length of an application step's object without its last items. */
  lemma FrontItemsLength(s: MergedStep, items: seq<Item>)
    requires items == StepItems(s) && s.layer == JVM
    ensures |Object(items[..6])| ==
      64 + |Dec(s.n)| + |Esc(s.section)| + |Esc(JVM)| + |Esc(s.stage)| + |Esc(s.desc)| + |Esc(s.process)|
  {
    FirstItemsLength(s, items);
    LengthNext(items, 3);
    LengthNext(items, 4);
    LengthNext(items, 5);
  }

  lemma StepLength(s: MergedStep)
    requires s.layer == JVM
    ensures |Object(StepItems(s))| ==
      79 + |Dec(s.n)| + |Esc(s.section)| + |Esc(JVM)| + |Esc(s.stage)| + |Esc(s.desc)| + |Esc(s.process)|
      + |Fixed3(s.timeNs)| + (match s.sql case None => 0 case Some(sql) => 9 + |Esc(TrimTo(sql, 120))|)
  {
    var items := StepItems(s);
    FrontItemsLength(s, items);
    LengthNext(items, 6);
    if s.sql.Some? {
      LengthNext(items, 7);
    }
    assert items[..|items|] == items;
  }

  lemma {:induction false} JoinLength(objects: seq<string>, least: nat, most: nat)
    requires objects != [] && forall i | 0 <= i < |objects| :: least <= |objects[i]| <= most
    ensures |objects| * (least + 1) <= |Join(objects, ',')| + 1 <= |objects| * (most + 1)
  {
    if |objects| > 1 {
      JoinLength(objects[1..], least, most);
      assert |objects| * (most + 1) == (|objects| - 1) * (most + 1) + (most + 1);
      assert |objects| * (least + 1) == (|objects| - 1) * (least + 1) + (least + 1);
    }
  }

  lemma SectionLength(section: string, count: nat, totalNs: nat)
    requires |section| <= 19 && count < 100 && totalNs < 1000
    ensures |Object(SectionItems(section, count, totalNs))| <= 77
  {
    var items := SectionItems(section, count, totalNs);
    assert items[..0] == [] && |Object([])| == 1;
    LengthNext(items, 0);
    LengthNext(items, 1);
    LengthNext(items, 2);
    assert items[..3] == items;
    EscNotShorter(section);
    SmallDec(count);
    SmallFixed3(totalNs);
  }

  lemma HeaderLength(r: Request)
    requires r.id < 100 && |r.uri| <= 1 && |r.client| <= 1 && |r.server| <= 1 && |r.totalMs| <= 5
    ensures |ItemsText(HeaderItems(r))| <= 64
  {
    var items := HeaderItems(r);
    assert items[..0] == [] && |Object([])| == 1;
    LengthNext(items, 0);
    LengthNext(items, 1);
    LengthNext(items, 2);
    LengthNext(items, 3);
    LengthNext(items, 4);
    assert items[..5] == items;
    SmallDec(r.id);
    EscNotShorter(r.uri);
    EscNotShorter(r.client);
    EscNotShorter(r.server);
  }

  /** The list of the steps starts behind at most this much. */
  lemma FrontLengthAtMost(r: Request, steps: seq<MergedStep>, header: nat, sections: nat)
    requires |ItemsText(HeaderItems(r))| <= header && |List(SectionObjects(steps))| <= sections
    ensures ListStart(r, steps) <= 24 + header + sections
    ensures |MergedLine(r, steps)| == ListStart(r, steps) + |List(StepObjects(steps))| + 2
  {
    LineShape(r, steps);
    TailText(StepObjects(steps));
  }

  /** Text that needs no escaping, on one line. */
  predicate Plain(s: string) {
    OneLineText(s) && forall i | 0 <= i < |s| :: !Special(s[i])
  }

  /** An application step without a statement, of no or little time, with that many characters in its texts. */
  ghost predicate Brief(s: MergedStep, least: nat, most: nat) {
    && s.layer == JVM && (s.section == APPLICATION || s.section == DATABASE) && s.sql.None?
    && Plain(s.stage) && Plain(s.desc) && Plain(s.process)
    && least <= |s.stage| + |s.desc| + |s.process| <= most
    && s.n < 100 && 0 <= s.timeNs <= 1
  }

  ghost predicate AllBrief(steps: seq<MergedStep>, least: nat, most: nat) {
    forall i | 0 <= i < |steps| :: Brief(steps[i], least, most)
  }

  lemma SectionsArePlain()
    ensures APPLICATION in SECTIONS && DATABASE in SECTIONS && Plain(APPLICATION) && Plain(DATABASE) && Plain(JVM)
    ensures |APPLICATION| == 11 && |DATABASE| == 8 && |JVM| == 3
  {
    assert SECTIONS[3] == APPLICATION && SECTIONS[4] == DATABASE;
  }

  lemma BriefTextsStay(s: MergedStep, least: nat, most: nat)
    requires Brief(s, least, most)
    ensures |Esc(s.section)| <= 11 && |Esc(JVM)| == 3
    ensures least <= |Esc(s.stage)| + |Esc(s.desc)| + |Esc(s.process)| <= most
  {
    SectionsArePlain();
    EscPlain(s.section);
    EscPlain(JVM);
    EscPlain(s.stage);
    EscPlain(s.desc);
    EscPlain(s.process);
  }

  lemma BriefLength(s: MergedStep, least: nat, most: nat)
    requires Brief(s, least, most)
    ensures Writable(s) && 87 + least <= |Object(StepItems(s))| <= 100 + most
  {
    SectionsArePlain();
    BriefTextsStay(s, least, most);
    StepLength(s);
    SmallDec(s.n);
    SmallFixed3(s.timeNs);
  }

  // ---------- A brace inside a statement ----------

  ghost predicate ShortQuery(s: MergedStep, sql: string) {
    && s.layer == JVM && s.section == DATABASE && s.n < 100 && s.timeNs == 1 && s.sql == Some(sql)
    && |s.stage| <= 20 && |s.desc| <= 20 && |s.process| <= 20 && |sql| <= 100
    && OneLineText(s.stage) && OneLineText(s.desc) && OneLineText(s.process) && OneLineText(sql)
    && Without(s.stage, '}') && Without(s.desc, '}') && Without(s.process, '}')
  }

  lemma QueryFits(s: MergedStep, sql: string)
    requires ShortQuery(s, sql)
    ensures Writable(s) && FrontLength(StepItems(s)) < OBJECT_BUFFER
  {
    SectionsArePlain();
    StepLength(s);
    SmallDec(s.n);
    SmallFixed3(1);
    EscNotShorter(s.section);
    EscNotShorter(s.layer);
    EscNotShorter(s.stage);
    EscNotShorter(s.desc);
    EscNotShorter(s.process);
    EscNotShorter(sql);
    LayerIsBeforeBrace(s, StepItems(s));
  }

  lemma QuerySurvives(s: MergedStep, sql: string)
    requires s.sql == Some(sql) && |sql| <= 100
    requires Without(s.stage, '}') && Without(s.desc, '}') && Without(s.process, '}')
    ensures TrimTo(sql, 120) == sql && (!Without(sql, '}') ==> BraceAt(s) == 7)
    ensures NothingBehindBrace(s) <==> Without(sql, '}') || IndexOf(sql, '}') == |sql| - 1
  {}

  lemma QuerySurvivesExactlyWhen(s: MergedStep, sql: string)
    requires ShortQuery(s, sql)
    ensures ReadBack(s) == Kept(s) <==> Without(sql, '}') || IndexOf(sql, '}') == |sql| - 1
  {
    QueryFits(s, sql);
    ReadBackIsKeptExactlyWhen(s);
    SurvivesExactlyWhenNothingBehindBrace(s);
    QuerySurvives(s, sql);
  }

  lemma QueryThroughBrace(s: MergedStep, sql: string)
    requires ShortQuery(s, sql) && !Without(sql, '}')
    ensures ReadBack(s).sql == Some(sql[..IndexOf(sql, '}') + 1])
  {
    QueryFits(s, sql);
    QuerySurvives(s, sql);
    StatementThroughBrace(s);
  }

  /** A short statement comes back in one step, and unchanged exactly unless text follows its first brace. */
  lemma QueryIsRead(s: MergedStep, sql: string)
    requires ShortQuery(s, sql)
    ensures StepsIn(Object(StepItems(s))) == [ReadBack(s)]
    ensures ReadBack(s) == Kept(s) <==> Without(sql, '}') || IndexOf(sql, '}') == |sql| - 1
    ensures !Without(sql, '}') ==> ReadBack(s).sql == Some(sql[..IndexOf(sql, '}') + 1])
  {
    QueryFits(s, sql);
    ApplicationStepIsRead(s);
    QuerySurvivesExactlyWhen(s, sql);
    if !Without(sql, '}') {
      QueryThroughBrace(s, sql);
    }
  }

  lemma QueryEndsAtBrace(s: MergedStep, sql: string)
    requires ShortQuery(s, sql) && sql != "" && IndexOf(sql, '}') == |sql| - 1
    ensures StepsIn(Object(StepItems(s))) == [Kept(s)] && Kept(s).sql == Some(sql)
  {
    QueryIsRead(s, sql);
    QuerySurvives(s, sql);
  }

  lemma QueryIsCut(s: MergedStep, sql: string, start: string)
    requires ShortQuery(s, sql) && IndexOf(sql, '}') < |sql| - 1 && start == sql[..IndexOf(sql, '}') + 1]
    ensures StepsIn(Object(StepItems(s))) == [ReadBack(s)] && ReadBack(s).sql == Some(start) && ReadBack(s) != Kept(s)
  {
    QueryIsRead(s, sql);
  }

  /** A JDBC call ends at its first closing brace, and so comes back as it was. */
  lemma JdbcCallIsRead(s: MergedStep)
    requires ShortQuery(s, "{call f()}")
    ensures StepsIn(Object(StepItems(s))) == [Kept(s)] && Kept(s).sql == Some("{call f()}")
  {
    IndexOfIs("{call f()}", '}', 9);
    QueryEndsAtBrace(s, "{call f()}");
  }

  /** An array literal does not, and comes back cut. */
  lemma ArrayLiteralIsCut(s: MergedStep)
    requires ShortQuery(s, "'{1}'::int[]")
    ensures StepsIn(Object(StepItems(s))) == [ReadBack(s)] && ReadBack(s).sql == Some("'{1}") && ReadBack(s) != Kept(s)
  {
    var sql := "'{1}'::int[]";
    IndexOfIs(sql, '}', 3);
    assert sql[..4] == "'{1}";
    QueryIsCut(s, sql, "'{1}");
  }

  // ---------- A long text ----------

  /** Behind a text that fills the reader's object buffer, the duration is not seen any more. */
  lemma LongTextHidesTheTime(s: MergedStep)
    requires Writable(s) && s.layer == JVM && |s.desc| >= OBJECT_BUFFER && s.timeNs > 0
    ensures var read := StepsIn(Object(StepItems(s)));
      |read| == 1 && read[0].durationUs == 0.0 && read[0] != Kept(s)
  {
    var items := StepItems(s);
    ApplicationStepIsRead(s);
    EscNotShorter(s.desc);
    LengthNext(items, 4);
    LengthNext(items, 5);
    assert SeenOf(s, 6) < 0;
    TimeReadExactlyWhen(s.timeNs, SeenOf(s, 6));
  }

  // ---------- Lines of short steps ----------

  lemma {:induction false} FewAndBrief(steps: seq<MergedStep>, section: string)
    requires forall i | 0 <= i < |steps| :: 0 <= steps[i].timeNs <= 1
    ensures SectionCount(steps, section) <= |steps| && 0 <= SectionTime(steps, section) <= |steps|
  {
    if steps != [] {
      FewAndBrief(steps[..|steps| - 1], section);
    }
  }

  lemma SectionNamesAreShort(i: nat)
    requires i < |SECTIONS|
    ensures |SECTIONS[i]| <= 19
  {}

  lemma SectionObjectLength(steps: seq<MergedStep>, i: nat)
    requires |steps| < 100 && i < |SECTIONS| && forall k | 0 <= k < |steps| :: 0 <= steps[k].timeNs <= 1
    ensures |SectionObjects(steps)[i]| <= 77
  {
    SectionNamesAreShort(i);
    FewAndBrief(steps, SECTIONS[i]);
    SectionLength(SECTIONS[i], SectionCount(steps, SECTIONS[i]), SectionTime(steps, SECTIONS[i]));
  }

  lemma SectionsLength(steps: seq<MergedStep>)
    requires |steps| < 100 && forall i | 0 <= i < |steps| :: 0 <= steps[i].timeNs <= 1
    ensures |List(SectionObjects(steps))| <= 468
  {
    forall i | 0 <= i < |SECTIONS| ensures |SectionObjects(steps)[i]| <= 77 {
      SectionObjectLength(steps, i);
    }
    JoinLength(SectionObjects(steps), 0, 77);
  }

  ghost predicate ShortRequest(r: Request) {
    WritableRequest(r) && r.id < 100 && |r.uri| <= 1 && |r.client| <= 1 && |r.server| <= 1 && |r.totalMs| <= 5
  }

  lemma StepsLength(steps: seq<MergedStep>, least: nat, most: nat)
    requires steps != [] && AllBrief(steps, least, most)
    ensures AllWritable(steps)
    ensures |steps| * (88 + least) <= |List(StepObjects(steps))| + 1 <= |steps| * (101 + most) + 1
  {
    forall i | 0 <= i < |steps|
      ensures Writable(steps[i]) && 87 + least <= |StepObjects(steps)[i]| <= 100 + most
    {
      assert Brief(steps[i], least, most);
      BriefLength(steps[i], least, most);
    }
    JoinLength(StepObjects(steps), 87 + least, 100 + most);
  }

  /** How long the line of such steps is. */
  lemma BriefLineLength(r: Request, steps: seq<MergedStep>, least: nat, most: nat)
    requires ShortRequest(r) && 0 < |steps| < 100 && AllBrief(steps, least, most)
    ensures AllWritable(steps) && ListStart(r, steps) <= 556
    ensures |steps| * (88 + least) < |MergedLine(r, steps)| <= 558 + |steps| * (101 + most)
  {
    HeaderLength(r);
    assert forall i | 0 <= i < |steps| :: Brief(steps[i], least, most);
    SectionsLength(steps);
    StepsLength(steps, least, most);
    FrontLengthAtMost(r, steps, 64, 468);
  }

  lemma AppendedToNothing(r: Request, steps: seq<MergedStep>)
    ensures Appended(MergedLine(r, steps) + "\n", r, steps)
  {
    var line := MergedLine(r, steps);
    assert "" + (line + "\n") == line + "\n";
  }

  /** Up to 65 short steps are written on one line that the reader's buffer holds. */
  lemma ShortLineFits(r: Request, steps: seq<MergedStep>)
    requires ShortRequest(r) && 0 < |steps| <= 65 && AllBrief(steps, 0, 13)
    ensures AllWritable(steps) && |MergedLine(r, steps)| < LINE_BUFFER
    ensures Appended(MergedLine(r, steps) + "\n", r, steps)
  {
    BriefLineLength(r, steps, 0, 13);
    AppendedToNothing(r, steps);
  }

  /** The collector reads less time for the application than the agent wrote. */
  ghost predicate FallsShort(r: Request, spans: seq<SpanRec>, thread: string, maxSteps: nat) {
    var steps := Merged([], spans, thread);
    && AllWritable(steps) && Appended(MergedLine(r, steps) + "\n", r, steps)
    && DurationIn(Latest(MergedLine(r, steps) + "\n", maxSteps), APPLICATION)
      < SectionTime(steps, APPLICATION) as real / 1000.0
  }

  ghost predicate BriefSpans(spans: seq<SpanRec>, thread: string, least: nat, most: nat) {
    forall i | 0 <= i < |spans| :: Brief(OfSpan(spans[i], thread), least, most)
  }

  lemma MergedIsBrief(spans: seq<SpanRec>, thread: string, least: nat, most: nat)
    requires |spans| < 100 && BriefSpans(spans, thread, least, most)
    ensures var steps := Merged([], spans, thread); |steps| == |spans| && AllBrief(steps, least, most)
  {
    var steps := Merged([], spans, thread);
    forall i | 0 <= i < |steps| ensures Brief(steps[i], least, most) {
      assert Brief(OfSpan(spans[i], thread), least, most);
    }
  }

  ghost predicate TakesTime(s: SpanRec, thread: string) {
    OfSpan(s, thread).section == APPLICATION && OfSpan(s, thread).timeNs == 1
  }

  lemma StepThatDoesNotCount(
    r: Request, spans: seq<SpanRec>, thread: string, k: nat, maxSteps: nat, steps: seq<MergedStep>)
    requires steps == Merged([], spans, thread) && ShortRequest(r) && AllWritable(steps)
    requires k < |spans| && TakesTime(spans[k], thread)
    requires k < Lost(r, steps) || k >= Lost(r, steps) + maxSteps
    ensures FallsShort(r, spans, thread, maxSteps)
  {
    AppendedToNothing(r, steps);
    MergedKeepsSpans([], spans, thread);
    ReadTotalsAgreeExactlyWhen(MergedLine(r, steps) + "\n", r, [], spans, thread, APPLICATION, maxSteps);
    assert !TimeCounts(AppSteps(steps), k, Lost(r, steps), maxSteps);
  }

  // ---------- One span too many ----------

  /** If the reader has room for one span less than there are, the last one's time is missing from its sum. */
  lemma TheLastIsDropped(r: Request, spans: seq<SpanRec>, thread: string, maxSteps: nat)
    requires ShortRequest(r) && 0 < |spans| <= 65 && |spans| == maxSteps + 1 && BriefSpans(spans, thread, 0, 13)
    requires TakesTime(spans[maxSteps], thread)
    ensures FallsShort(r, spans, thread, maxSteps)
  {
    var steps := Merged([], spans, thread);
    MergedIsBrief(spans, thread, 0, 13);
    ShortLineFits(r, steps);
    ShortLineLosesNothing(r, steps);
    StepThatDoesNotCount(r, spans, thread, maxSteps, maxSteps, steps);
  }

  // ---------- A line too long ----------

  lemma KeptFromSecondPiece(r: Request, steps: seq<MergedStep>)
    requires |MergedLine(r, steps)| >= LINE_BUFFER
    ensures KeptFrom(r, steps) >= LINE_BUFFER - 1
  {
    OnePieceLess(|MergedLine(r, steps)|);
  }

  lemma FirstStepStart(r: Request, steps: seq<MergedStep>)
    requires steps != []
    ensures StepStart(r, steps, 0) == ListStart(r, steps)
  {}

  lemma FirstIsUnread(r: Request, steps: seq<MergedStep>)
    requires steps != [] && ListStart(r, steps) < KeptFrom(r, steps)
    ensures Unread(r, steps) > 0
  {
    FirstStepStart(r, steps);
    UnreadMeaning(r, steps, 0);
  }

  lemma FirstStepIsLost(r: Request, steps: seq<MergedStep>)
    requires steps != [] && steps[0].layer == JVM && Unread(r, steps) > 0
    ensures Lost(r, steps) > 0
  {
    assert steps[..Unread(r, steps)][0] == steps[0];
  }

  /** 64 spans of a thread with a name of 40 characters make a line of two pieces, and the first span is lost. */
  lemma TheFirstIsLost(r: Request, spans: seq<SpanRec>, thread: string)
    requires ShortRequest(r) && |spans| == 64 && BriefSpans(spans, thread, 40, 52) && TakesTime(spans[0], thread)
    ensures FallsShort(r, spans, thread, 64)
  {
    var steps := Merged([], spans, thread);
    MergedIsBrief(spans, thread, 40, 52);
    BriefLineLength(r, steps, 40, 52);
    assert Brief(steps[0], 40, 52);
    KeptFromSecondPiece(r, steps);
    FirstIsUnread(r, steps);
    FirstStepIsLost(r, steps);
    StepThatDoesNotCount(r, spans, thread, 0, 64, steps);
  }

  // ---------- There are such calls ----------

  /** That many calls in a row. */
  function Calls(call: Info, n: nat): Forest {
    if n == 0 then Empty else Node(call, Empty, Calls(call, n - 1))
  }

  lemma {:induction false} CallsInPostOrder(call: Info, n: nat)
    requires call.stage != TOMCAT
    ensures NoTomcat(Calls(call, n)) && |PostOrder(Calls(call, n), 1)| == n
    ensures forall k | 0 <= k < n :: PostOrder(Calls(call, n), 1)[k] == RecOf(call, 1)
  {
    if n > 0 {
      CallsInPostOrder(call, n - 1);
      assert PostOrder(Calls(call, n), 1) == [] + [RecOf(call, 1)] + PostOrder(Calls(call, n - 1), 1);
    }
  }

  /** The spans of a TOMCAT call with `n` calls under it. */
  function SpansOf(root: Info, call: Info, n: nat): seq<SpanRec> {
    PostOrder(Calls(call, n), 1) + [RecOf(root, 0)]
  }

  lemma SpansAreBrief(root: Info, call: Info, n: nat, thread: string, least: nat, most: nat)
    requires call.stage != TOMCAT && Brief(OfSpan(RecOf(call, 1), thread), least, most)
    requires Brief(OfSpan(RecOf(root, 0), thread), least, most)
    ensures var spans := SpansOf(root, call, n);
      && |spans| == n + 1 && BriefSpans(spans, thread, least, most)
      && spans[n] == RecOf(root, 0) && (n > 0 ==> spans[0] == RecOf(call, 1))
  {
    CallsInPostOrder(call, n);
    var spans := SpansOf(root, call, n);
    forall i | 0 <= i < |spans| ensures Brief(OfSpan(spans[i], thread), least, most) {
      assert spans[i] == if i < n then RecOf(call, 1) else RecOf(root, 0);
    }
  }

  lemma NoSlash(s: string)
    requires Without(s, '/')
    ensures ShortClass(s) == s
  {
    KernelFile.LastIndexOfNone(s, '/');
    assert s[0..] == s;
  }

  lemma ServiceTexts(s: SpanRec)
    requires s.stage == "SERVICE"
    ensures JvmDesc(s) == ShortClass(s.className) && JvmSection(s.stage) == APPLICATION
    ensures Plain(s.stage) && |s.stage| == 7
  {}

  lemma CallIsBrief(s: SpanRec, thread: string)
    requires JvmDesc(s) == s.className && JvmSection(s.stage) == APPLICATION && Plain(s.stage) && |s.stage| == 7
    requires Plain(s.className) && |s.className| == 1 && s.sql.None? && DurationNs(s) <= 1 && Plain(thread)
    ensures Brief(OfSpan(s, thread), |thread|, |thread| + 12)
  {}

  /** A call to a service class of one letter, of no or little time. */
  ghost predicate ServiceCall(call: Info) {
    && call.stage == "SERVICE" && |call.className| == 1 && Plain(call.className) && call.className[0] != '/'
    && call.sql.None? && call.start <= call.end <= call.start + 1
  }

  lemma ServiceIsBrief(call: Info, thread: string)
    requires ServiceCall(call) && Plain(thread)
    ensures Brief(OfSpan(RecOf(call, 1), thread), |thread|, |thread| + 12)
    ensures call.end == call.start + 1 ==> TakesTime(RecOf(call, 1), thread)
  {
    var s := RecOf(call, 1);
    ServiceTexts(s);
    NoSlash(s.className);
    CallIsBrief(s, thread);
  }

  /** A TOMCAT call that takes one nanosecond. */
  ghost predicate RootCall(root: Info) {
    root.stage == TOMCAT && root.sql.None? && root.end == root.start + 1
  }

  lemma RootIsBrief(root: Info, thread: string)
    requires RootCall(root) && Plain(thread)
    ensures Brief(OfSpan(RecOf(root, 0), thread), |thread|, |thread| + 12) && TakesTime(RecOf(root, 0), thread)
  {}

  /** With 64 calls under the root, the slots do not suffice, and the root's time is missing. */
  lemma ManyCallsFallShort(r: Request, root: Info, call: Info)
    requires ShortRequest(r) && ServiceCall(call) && RootCall(root)
    ensures NoTomcat(Calls(call, 64)) && FallsShort(r, SpansOf(root, call, 64), "", 64)
  {
    ServiceIsBrief(call, "");
    RootIsBrief(root, "");
    SpansAreBrief(root, call, 64, "", 0, 12);
    CallsInPostOrder(call, 64);
    var spans := SpansOf(root, call, 64);
    forall i | 0 <= i < |spans| ensures Brief(OfSpan(spans[i], ""), 0, 13) {
      assert Brief(OfSpan(spans[i], ""), 0, 12);
    }
    TheLastIsDropped(r, spans, "", 64);
  }

  /** With 63 calls under it the slots suffice, but the line is too long, and the first call's time is missing. */
  lemma LongNamesFallShort(r: Request, root: Info, call: Info, thread: string)
    requires ShortRequest(r) && ServiceCall(call) && call.end == call.start + 1 && RootCall(root)
    requires Plain(thread) && |thread| == 40
    ensures NoTomcat(Calls(call, 63)) && FallsShort(r, SpansOf(root, call, 63), thread, 64)
  {
    ServiceIsBrief(call, thread);
    RootIsBrief(root, thread);
    SpansAreBrief(root, call, 63, thread, 40, 52);
    CallsInPostOrder(call, 63);
    TheFirstIsLost(r, SpansOf(root, call, 63), thread);
  }

  lemma ThereIsAShortRequest() returns (r: Request)
    ensures ShortRequest(r)
  {
    r := Request(1, "/", "?", "?", "0.000");
  }

  lemma ThereAreCalls() returns (root: Info, call: Info, thread: string)
    ensures RootCall(root) && ServiceCall(call) && call.end == call.start + 1 && Plain(thread) && |thread| == 40
  {
    root := Info(TOMCAT, "", "", "", None, 0, 0, false, 1, 0, 0);
    call := Info("SERVICE", "A", "", "", None, 0, 0, false, 1, 0, 0);
    thread := seq(40, _ => 't');
  }

  /** There are such requests: service calls of one nanosecond under a TOMCAT call. */
  lemma RequestsFallShort() returns (r: Request, root: Info, call: Info, thread: string)
    ensures root.stage == TOMCAT && NoTomcat(Calls(call, 64)) && NoTomcat(Calls(call, 63))
    ensures FallsShort(r, SpansOf(root, call, 64), "", 64) && FallsShort(r, SpansOf(root, call, 63), thread, 64)
  {
    r := ThereIsAShortRequest();
    root, call, thread := ThereAreCalls();
    ManyCallsFallShort(r, root, call);
    LongNamesFallShort(r, root, call, thread);
  }
}
