/** What the C collector reads is what the Java agent wrote. */
module MergedRoundTrip {
  import opened JsonFields
  import opened MergedFile
  import opened MergedSteps
  import opened LastPiece
  import opened ObjectFront
  import opened ObjectScan
  import opened StepFront
  import opened StepSurvival
  import opened Text
  import opened Wrappers

  // ---------- Header and sections ----------

  lemma HeaderNames()
    ensures IsName("id") && IsName("uri") && IsName("client") && IsName("server") && IsName("total_ms")
    ensures IsName("sections") && IsName("name") && IsName("steps") && IsName("total_us")
  {}

  /** Texts that neither end a line nor a C string; `totalMs` is a printed number. */
  predicate WritableRequest(r: Request) {
    && OneLineText(r.uri) && OneLineText(r.client) && OneLineText(r.server)
    && OneLineText(r.totalMs) && Without(r.totalMs, '"') && Without(r.totalMs, '}')
  }

  const SECTIONS_ITEM := Item(Bare("sections", "["), '{')

  /** The line through the first section's closing brace. */
  function FirstItems(r: Request, steps: seq<MergedStep>): seq<Item> {
    HeaderItems(r) + [SECTIONS_ITEM]
      + SectionItems(SECTIONS[0], SectionCount(steps, SECTIONS[0]), SectionTime(steps, SECTIONS[0]))
  }

  lemma SectionItemsAreGood(section: string, count: nat, totalNs: int)
    requires section in SECTIONS
    ensures var items := SectionItems(section, count, totalNs);
      && |items| == 3 && (forall k | 0 <= k < 3 :: GoodItem(items[k]))
      && items[2].next == '}'
      && items[0].field.key == "name" && items[1].field.key == "steps" && items[2].field.key == "total_us"
  {
    HeaderNames();
    SectionNamesArePlain(section);
    NumbersAreGood(count);
    DurationsAreGood(totalNs);
  }

  lemma HeaderItemsAreGood(r: Request)
    requires WritableRequest(r)
    ensures var items := HeaderItems(r);
      |items| == 5 && (forall k | 0 <= k < 5 :: GoodItem(items[k])) && GoodItem(SECTIONS_ITEM)
  {
    HeaderNames();
    NumbersAreGood(r.id);
  }

  /** An object in which the reader finds no step, wherever it starts. */
  ghost predicate Silent(obj: string) {
    Scannable(obj) && OneLineText(obj) && StepsIn(obj) == []
  }

  /** An object without a layer is one, wherever its texts have braces. */
  lemma NoLayerNoStep(items: seq<Item>)
    requires items != [] && items[|items| - 1].next == '}'
    requires forall k | 0 <= k < |items| :: GoodItem(items[k]) && items[k].field.key != "layer"
    ensures Silent(Object(items))
  {
    StepNames();
    NamesAreKeys("layer");
    GoodItemsAreWellFormed(items);
    GoodItemsAreOneLine(items);
    ObjectEnds(items);
    LayerPattern();
    AbsentFieldIsNotFound(items, "layer", "\"jvm\"");
    LackingObjectIsPassed(Object(items));
    LackingHasNoSteps(Object(items));
  }

  lemma SectionObjectIsSilent(steps: seq<MergedStep>, i: nat)
    requires i < |SECTIONS|
    ensures Silent(SectionObjects(steps)[i])
  {
    var count, time := SectionCount(steps, SECTIONS[i]), SectionTime(steps, SECTIONS[i]);
    SectionItemsAreGood(SECTIONS[i], count, time);
    NoLayerNoStep(SectionItems(SECTIONS[i], count, time));
  }

  lemma FirstObjectIsSilent(r: Request, steps: seq<MergedStep>)
    requires WritableRequest(r)
    ensures Silent(Object(FirstItems(r, steps)))
  {
    HeaderItemsAreGood(r);
    SectionItemsAreGood(SECTIONS[0], SectionCount(steps, SECTIONS[0]), SectionTime(steps, SECTIONS[0]));
    NoLayerNoStep(FirstItems(r, steps));
  }

  ghost predicate AllSilent(objects: seq<string>) {
    forall i | 0 <= i < |objects| :: Silent(objects[i])
  }

  /** The objects before the steps: the header together with the first section, and the other sections. */
  function FrontObjects(r: Request, steps: seq<MergedStep>): (objects: seq<string>)
    ensures |objects| == 6
  {
    [Object(FirstItems(r, steps))] + SectionObjects(steps)[1..]
  }

  lemma SilentWithFirst(first: string, objects: seq<string>)
    requires objects != [] && Silent(first) && forall i | 0 < i < |objects| :: Silent(objects[i])
    ensures AllSilent([first] + objects[1..])
  {
    var all := [first] + objects[1..];
    forall i | 0 <= i < |all| ensures Silent(all[i]) {
      assert i > 0 ==> all[i] == objects[i];
    }
  }

  lemma FrontIsSilent(r: Request, steps: seq<MergedStep>)
    requires WritableRequest(r)
    ensures AllSilent(FrontObjects(r, steps))
  {
    FirstObjectIsSilent(r, steps);
    forall i | 0 < i < 6 ensures Silent(SectionObjects(steps)[i]) {
      SectionObjectIsSilent(steps, i);
    }
    SilentWithFirst(Object(FirstItems(r, steps)), SectionObjects(steps));
  }

  /** The line up to the list of the steps. */
  function FrontOf(r: Request, steps: seq<MergedStep>): string {
    Join(FrontObjects(r, steps), ',')
  }

  lemma FirstText(header: seq<Item>, section: seq<Item>)
    ensures Object(header + [SECTIONS_ITEM] + section) ==
      "{" + ItemsText(header) + ("\"sections\":[" + "{") + ItemsText(section)
  {
    ObjectAround(header, SECTIONS_ITEM, section);
    SectionsItemText();
    Flatten("{" + ItemsText(header), ItemText(SECTIONS_ITEM), ItemsText(section));
  }

  lemma SectionsItemText()
    ensures ItemText(SECTIONS_ITEM) == "\"sections\":[" + "{"
  {}

  lemma Flatten(a: string, b: string, c: string)
    ensures a + (b + c) == a + b + c
  {}

  lemma SectionsText(steps: seq<MergedStep>)
    ensures List(SectionObjects(steps)) ==
      SectionObject(steps, SECTIONS[0]) + "," + Join(SectionObjects(steps)[1..], ',')
  {
    assert SectionObjects(steps)[0] == SectionObject(steps, SECTIONS[0]);
  }

  lemma FrontText(first: string, others: seq<string>, rest: string)
    requires others != []
    ensures Join([first] + others, ',') + rest == first + ("," + Join(others, ',') + rest)
  {
    assert ([first] + others)[1..] == others;
  }

  /** The line: the objects before the steps, and the list of the steps. */
  lemma LineShape(r: Request, steps: seq<MergedStep>)
    ensures MergedLine(r, steps) == FrontOf(r, steps) + Tail(StepObjects(steps))
  {
    var first := SectionItems(SECTIONS[0], SectionCount(steps, SECTIONS[0]), SectionTime(steps, SECTIONS[0]));
    FirstText(HeaderItems(r), first);
    SectionsText(steps);
    LineParts("{" + ItemsText(HeaderItems(r)), "\"sections\":[", ItemsText(first),
              Join(SectionObjects(steps)[1..], ','), List(StepObjects(steps)));
    FrontText(Object(FirstItems(r, steps)), SectionObjects(steps)[1..], Tail(StepObjects(steps)));
  }

  lemma LineParts(a: string, b: string, c: string, d: string, e: string)
    ensures a + b + (("{" + c) + "," + d) + "]" + ",\"steps\":[" + e + "]}"
      == (a + (b + "{") + c) + ("," + d + ("],\"steps\":[" + e + "]}"))
  {
    assert "]" + ",\"steps\":[" == "],\"steps\":[";
  }

  function Tail(objects: seq<string>): string {
    "],\"steps\":[" + List(objects) + "]}"
  }

  // ---------- The steps of the line ----------

  /** The application steps, in order. */
  function AppSteps(steps: seq<MergedStep>): seq<MergedStep> {
    if steps == [] then []
    else (if steps[0].layer == JVM then [steps[0]] else []) + AppSteps(steps[1..])
  }

  /** What the collector reads of each. */
  function ReadSteps(apps: seq<MergedStep>): seq<JvmStep> {
    seq(|apps|, i requires 0 <= i < |apps| => ReadBack(apps[i]))
  }

  /** What it would read if nothing were lost. */
  function KeptSteps(apps: seq<MergedStep>): seq<JvmStep> {
    seq(|apps|, i requires 0 <= i < |apps| => Kept(apps[i]))
  }

  ghost predicate AllWritable(steps: seq<MergedStep>) {
    forall i | 0 <= i < |steps| :: Writable(steps[i])
  }

  lemma StepObjectIsOneLine(s: MergedStep)
    requires Writable(s)
    ensures OneLineText(Object(StepItems(s)))
  {
    StepItemsAreGood(s);
    GoodItemsAreOneLine(StepItems(s));
  }

  lemma StepIsRead(s: MergedStep)
    requires Writable(s)
    ensures StepsIn(Object(StepItems(s))) == if s.layer == JVM then [ReadBack(s)] else []
  {
    if s.layer == JVM {
      ApplicationStepIsRead(s);
    } else {
      KernelStepIsPassedOver(s);
    }
  }

  lemma StepObjectsHead(steps: seq<MergedStep>)
    requires steps != []
    ensures StepObjects(steps)[0] == Object(StepItems(steps[0])) && StepObjects(steps)[1..] == StepObjects(steps[1..])
  {}

  lemma ReadStepsHead(s: MergedStep, apps: seq<MergedStep>)
    ensures ReadSteps([s] + apps) == [ReadBack(s)] + ReadSteps(apps)
  {
    var all := [s] + apps;
    var read, expected := ReadSteps(all), [ReadBack(s)] + ReadSteps(apps);
    forall i | 0 <= i < |all| ensures read[i] == expected[i] {
      assert read[i] == ReadBack(all[i]) && (i > 0 ==> expected[i] == ReadBack(apps[i - 1]));
    }
  }

  lemma {:induction false} AllStepsAreRead(steps: seq<MergedStep>)
    requires AllWritable(steps)
    ensures StepsInAll(StepObjects(steps)) == ReadSteps(AppSteps(steps))
    decreases |steps|
  {
    if steps != [] {
      assert Writable(steps[0]);
      StepIsRead(steps[0]);
      StepObjectsHead(steps);
      AllStepsAreRead(steps[1..]);
      ReadStepsHead(steps[0], AppSteps(steps[1..]));
      assert [] + ReadSteps(AppSteps(steps[1..])) == ReadSteps(AppSteps(steps[1..]));
      assert [] + AppSteps(steps[1..]) == AppSteps(steps[1..]);
    }
  }

  lemma StepObjectsAreScannable(steps: seq<MergedStep>)
    requires AllWritable(steps)
    ensures AllScannable(StepObjects(steps))
    ensures forall i | 0 <= i < |steps| :: OneLineText(StepObjects(steps)[i])
  {
    forall i | 0 <= i < |steps| ensures Scannable(StepObjects(steps)[i]) && OneLineText(StepObjects(steps)[i]) {
      assert Writable(steps[i]);
      StepObjectIsOneLine(steps[i]);
      StepIsReadFromItsStart(steps[i]);
    }
  }

  const STEPS_START := "],\"steps\":["

  /** The list of the steps, through the end of the line. */
  function Body(objects: seq<string>): string {
    List(objects) + "]}"
  }

  lemma TailText(objects: seq<string>)
    ensures Tail(objects) == STEPS_START + Body(objects)
  {}

  // ---------- A piece of the line ----------

  lemma NothingInEnd(c: nat)
    requires c <= 2
    ensures StepsIn("]}"[c..]) == []
  {
    var p := "]}"[c..];
    IndexFromIs(p, '{', 0, |p|);
    IndexFromIs(p, '}', |p|, |p|);
    ScanStep(p, |p|, |p|);
  }

  lemma NothingMoreToRead(read: seq<JvmStep>)
    ensures read + [] == read && [] + read == read
  {}

  lemma LaterObjects(steps: seq<MergedStep>, k: nat)
    requires k <= |steps|
    ensures StepObjects(steps)[k..] == StepObjects(steps[k..])
  {}

  lemma AllWritableFrom(steps: seq<MergedStep>, k: nat)
    requires AllWritable(steps) && k <= |steps|
    ensures AllWritable(steps[k..])
  {}

  lemma StartingSteps(steps: seq<MergedStep>, c: nat, k: nat)
    requires AllWritable(steps) && k == StartedBefore(StepObjects(steps), c)
    ensures StepsInAll(StartingFrom(StepObjects(steps), c)) == ReadSteps(AppSteps(steps[k..]))
  {
    StartingFromIs(StepObjects(steps), c);
    LaterObjects(steps, k);
    AllWritableFrom(steps, k);
    AllStepsAreRead(steps[k..]);
  }

  lemma PieceInList(steps: seq<MergedStep>, objects: seq<string>, body: string, c: nat, k: nat)
    requires AllWritable(steps) && objects == StepObjects(steps) && objects != []
    requires body == Join(objects, ',') + "]}" && c <= |Join(objects, ',')| && k == StartedBefore(objects, c)
    ensures StepsIn(body[c..]) == ReadSteps(AppSteps(steps[k..]))
  {
    StepObjectsAreScannable(steps);
    SuffixOfJoin(objects, "]}", body, c);
    StartingSteps(steps, c, k);
    NothingInEnd(0);
    assert "]}"[0..] == "]}";
    NothingMoreToRead(ReadSteps(AppSteps(steps[k..])));
  }

  lemma SuffixOfEnd(list: string, end: string, body: string, c: nat)
    requires body == list + end && |list| <= c <= |body|
    ensures body[c..] == end[c - |list|..]
  {}

  lemma PieceBehindList(list: string, body: string, c: nat)
    requires body == list + "]}" && |list| <= c <= |body|
    ensures StepsIn(body[c..]) == []
  {
    var d := c - |list|;
    SuffixOfEnd(list, "]}", body, c);
    NothingInEnd(d);
  }

  lemma NoStepsLeft(steps: seq<MergedStep>)
    ensures steps[|steps|..] == [] && ReadSteps(AppSteps(steps[|steps|..])) == []
  {}

  /** From index `c` of the list on, the application steps whose objects start there or later. */
  lemma PieceOfBody(steps: seq<MergedStep>, body: string, c: nat, k: nat)
    requires AllWritable(steps) && body == Body(StepObjects(steps)) && c <= |body|
    requires k == StartedBefore(StepObjects(steps), c)
    ensures StepsIn(body[c..]) == ReadSteps(AppSteps(steps[k..]))
  {
    var objects := StepObjects(steps);
    if objects == [] || c > |Join(objects, ',')| {
      if objects != [] {
        AllStarted(objects, c);
      }
      PieceBehindList(List(objects), body, c);
      NoStepsLeft(steps);
    } else {
      PieceInList(steps, objects, body, c, k);
    }
  }

  lemma BodyFromStart(steps: seq<MergedStep>, body: string)
    requires AllWritable(steps) && body == Body(StepObjects(steps))
    ensures StepsIn(body) == ReadSteps(AppSteps(steps))
  {
    PieceOfBody(steps, body, 0, 0);
    assert body[0..] == body && steps[0..] == steps;
  }

  lemma GapOfTail(body: string, tail: string, c: nat)
    requires tail == STEPS_START + body && c <= |STEPS_START|
    ensures StepsIn(tail[c..]) == StepsIn(body)
  {
    assert tail[c..] == STEPS_START[c..] + body;
    StepsSkipGap(tail[c..], STEPS_START[c..], body);
  }

  lemma SilentObjectsAreScannable(objects: seq<string>)
    requires AllSilent(objects)
    ensures AllScannable(objects) && forall i | 0 <= i < |objects| :: StepsIn(objects[i]) == []
  {
    forall i | 0 <= i < |objects| ensures Scannable(objects[i]) && StepsIn(objects[i]) == [] {
      assert Silent(objects[i]);
    }
  }

  lemma {:induction false} NothingFrom(objects: seq<string>, c: nat)
    requires forall i | 0 <= i < |objects| :: StepsIn(objects[i]) == []
    ensures StepsInAll(StartingFrom(objects, c)) == []
  {
    StartingFromIs(objects, c);
    NothingInAny(StartingFrom(objects, c));
  }

  lemma PieceOfSilent(front: seq<string>, tail: string, line: string, c: nat)
    requires front != [] && AllSilent(front) && line == Join(front, ',') + tail
    requires c <= |Join(front, ',')| && c <= |line|
    ensures StepsIn(line[c..]) == StepsIn(tail)
  {
    SilentObjectsAreScannable(front);
    SuffixOfJoin(front, tail, line, c);
    NothingFrom(front, c);
    NothingMoreToRead(StepsIn(tail));
  }

  lemma TailFromStart(steps: seq<MergedStep>, tail: string)
    requires AllWritable(steps) && tail == Tail(StepObjects(steps))
    ensures StepsIn(tail) == ReadSteps(AppSteps(steps))
  {
    var body := Body(StepObjects(steps));
    TailText(StepObjects(steps));
    GapOfTail(body, tail, 0);
    assert tail[0..] == tail;
    BodyFromStart(steps, body);
  }

  /** A piece that starts before the steps holds all of them. */
  lemma PieceFromFront(r: Request, steps: seq<MergedStep>, line: string, c: nat)
    requires line == MergedLine(r, steps) && WritableRequest(r) && AllWritable(steps)
    requires c <= |FrontOf(r, steps)| && c <= |line|
    ensures StepsIn(line[c..]) == ReadSteps(AppSteps(steps))
  {
    LineShape(r, steps);
    FrontIsSilent(r, steps);
    PieceOfSilent(FrontObjects(r, steps), Tail(StepObjects(steps)), line, c);
    TailFromStart(steps, Tail(StepObjects(steps)));
  }

  /** Where the list of the steps starts in the line. */
  function ListStart(r: Request, steps: seq<MergedStep>): nat {
    |FrontOf(r, steps)| + |STEPS_START|
  }

  lemma TailPiece(front: string, tail: string, body: string, line: string, c: nat)
    requires line == front + tail && tail == STEPS_START + body && |front| <= c <= |line|
    ensures line[c..] == tail[c - |front|..]
    ensures c >= |front| + |STEPS_START| ==> line[c..] == body[c - |front| - |STEPS_START|..]
  {}

  /** How many steps have their objects start before index `c` of the line. */
  function StepsBefore(r: Request, steps: seq<MergedStep>, c: nat): (k: nat)
    ensures k <= |steps|
  {
    if c <= ListStart(r, steps) then 0 else StartedBefore(StepObjects(steps), c - ListStart(r, steps))
  }

  lemma PieceOfTail(
    steps: seq<MergedStep>, front: string, tail: string, body: string, line: string, c: nat, start: nat, k: nat)
    requires AllWritable(steps) && line == front + tail && tail == STEPS_START + body
    requires body == Body(StepObjects(steps)) && start == |front| + |STEPS_START| && |front| <= c <= |line|
    requires k == if c <= start then 0 else StartedBefore(StepObjects(steps), c - start)
    ensures StepsIn(line[c..]) == ReadSteps(AppSteps(steps[k..]))
  {
    TailPiece(front, tail, body, line, c);
    if c <= start {
      GapOfTail(body, tail, c - |front|);
      BodyFromStart(steps, body);
      assert steps[0..] == steps;
    } else {
      var d := c - start;
      PieceOfBody(steps, body, d, k);
    }
  }

  /** From index `c` of the line on, the reader finds the application steps whose objects start there or later. */
  lemma PieceOfLine(r: Request, steps: seq<MergedStep>, line: string, c: nat)
    requires line == MergedLine(r, steps) && WritableRequest(r) && AllWritable(steps) && c <= |line|
    ensures StepsIn(line[c..]) == ReadSteps(AppSteps(steps[StepsBefore(r, steps, c)..]))
  {
    var front, tail, body := FrontOf(r, steps), Tail(StepObjects(steps)), Body(StepObjects(steps));
    if c <= |front| {
      PieceFromFront(r, steps, line, c);
      assert steps[0..] == steps;
    } else {
      LineShape(r, steps);
      TailText(StepObjects(steps));
      PieceOfTail(steps, front, tail, body, line, c, ListStart(r, steps), StepsBefore(r, steps, c));
    }
  }

  /** Where the object of step `k` starts in the line. */
  function StepStart(r: Request, steps: seq<MergedStep>, k: nat): nat
    requires k < |steps|
  {
    ListStart(r, steps) + StartOf(StepObjects(steps), k)
  }

  lemma ObjectInLine(front: string, list: string, line: string, obj: string, i: nat)
    requires OccursAt(list, obj, i) && line == front + (STEPS_START + (list + "]}"))
    ensures OccursAt(line, obj, |front| + |STEPS_START| + i)
  {
    OccursInLonger(list, "]}", obj, i);
    OccursShifted(STEPS_START, list + "]}", obj, i);
    OccursShifted(front, STEPS_START + (list + "]}"), obj, |STEPS_START| + i);
  }

  lemma ObjectStandsThere(objects: seq<string>, k: nat, front: string, line: string, at: nat)
    requires k < |objects| && line == front + (STEPS_START + Body(objects))
    requires at == |front| + |STEPS_START| + StartOf(objects, k)
    ensures OccursAt(line, objects[k], at)
  {
    ObjectIsAtItsStart(objects, k);
    ObjectInLine(front, List(objects), line, objects[k], StartOf(objects, k));
  }

  lemma LineEndsWithBody(r: Request, steps: seq<MergedStep>, objects: seq<string>, line: string)
    requires line == MergedLine(r, steps) && objects == StepObjects(steps)
    ensures line == FrontOf(r, steps) + (STEPS_START + Body(objects))
  {
    LineShape(r, steps);
    TailText(objects);
  }

  /** That is where it stands. */
  lemma StepStandsThere(r: Request, steps: seq<MergedStep>, k: nat, objects: seq<string>, line: string)
    requires k < |steps| && line == MergedLine(r, steps) && objects == StepObjects(steps)
    ensures OccursAt(line, objects[k], StepStart(r, steps, k))
  {
    LineEndsWithBody(r, steps, objects, line);
    ObjectStandsThere(objects, k, FrontOf(r, steps), line, StepStart(r, steps, k));
  }

  /** And that is how the steps before an index are counted. */
  lemma StepsBeforeMeaning(r: Request, steps: seq<MergedStep>, k: nat, c: nat)
    requires k < |steps|
    ensures k < StepsBefore(r, steps, c) <==> StepStart(r, steps, k) < c
  {
    var start := ListStart(r, steps);
    if c > start {
      var d := c - start;
      StartedBeforeMeaning(StepObjects(steps), d, k);
    }
  }

  // ---------- The whole file ----------

  lemma ListLacks(objects: seq<string>, c: char)
    requires c != ',' && forall i | 0 <= i < |objects| :: Without(objects[i], c)
    ensures Without(List(objects), c)
  {
    if objects != [] {
      JoinWithout(objects, ',', c);
    }
  }

  lemma TailIsOneLine(objects: seq<string>)
    requires forall i | 0 <= i < |objects| :: OneLineText(objects[i])
    ensures EndsObject(Tail(objects)) && OneLineText(Tail(objects))
  {
    ListLacks(objects, '\n');
    ListLacks(objects, '\0');
  }

  lemma FrontIsOneLine(r: Request, steps: seq<MergedStep>)
    requires WritableRequest(r)
    ensures OneLineText(FrontOf(r, steps))
  {
    var front := FrontObjects(r, steps);
    FrontIsSilent(r, steps);
    forall i | 0 <= i < |front| ensures OneLineText(front[i]) {
      assert Silent(front[i]);
    }
    JoinWithout(front, ',', '\n');
    JoinWithout(front, ',', '\0');
  }

  lemma PartsAreOneLine(line: string, front: string, tail: string)
    requires line == front + tail && OneLineText(front) && EndsObject(tail) && OneLineText(tail)
    ensures EndsObject(line) && OneLineText(line)
  {
    TwoLack(front, tail, '\n');
    TwoLack(front, tail, '\0');
    assert line[|line| - 1] == tail[|tail| - 1];
  }

  lemma LineIsOneLine(r: Request, steps: seq<MergedStep>, line: string)
    requires line == MergedLine(r, steps) && WritableRequest(r) && AllWritable(steps)
    ensures EndsObject(line) && OneLineText(line)
  {
    FrontIsOneLine(r, steps);
    LineShape(r, steps);
    StepObjectsAreScannable(steps);
    TailIsOneLine(StepObjects(steps));
    PartsAreOneLine(line, FrontOf(r, steps), Tail(StepObjects(steps)));
  }

  lemma LatestOfPiece(file: string, piece: string, maxSteps: nat)
    requires LastLine(file, None) == Some(piece)
    ensures Latest(file, maxSteps) == FirstN(StepsIn(piece), maxSteps)
  {}

  /** `file` is what complete lines, and then the agent's line for this request, make of the file. */
  ghost predicate Appended(file: string, r: Request, steps: seq<MergedStep>) {
    exists before: string, line: string ::
      && (before == "" || before[|before| - 1] == '\n')
      && line == MergedLine(r, steps) && file == before + (line + "\n")
  }

  /** Where the piece of the line starts that the reader keeps. */
  function KeptFrom(r: Request, steps: seq<MergedStep>): nat {
    PieceStart(|MergedLine(r, steps)|)
  }

  /** How many steps it does not get because their objects start before that. */
  function Unread(r: Request, steps: seq<MergedStep>): (k: nat)
    ensures k <= |steps|
  {
    StepsBefore(r, steps, KeptFrom(r, steps))
  }

  lemma UnreadMeaning(r: Request, steps: seq<MergedStep>, k: nat)
    requires k < |steps|
    ensures k < Unread(r, steps) <==> StepStart(r, steps, k) < KeptFrom(r, steps)
  {
    StepsBeforeMeaning(r, steps, k, KeptFrom(r, steps));
  }

  lemma {:induction false} AppStepsSplit(a: seq<MergedStep>, b: seq<MergedStep>)
    ensures AppSteps(a + b) == AppSteps(a) + AppSteps(b)
  {
    if a == [] {
      assert a + b == b;
    } else {
      assert (a + b)[1..] == a[1..] + b;
      AppStepsSplit(a[1..], b);
    }
  }

  /** How many of those are application steps. */
  function Lost(r: Request, steps: seq<MergedStep>): nat {
    |AppSteps(steps[..Unread(r, steps)])|
  }

  lemma AppStepsFrom(steps: seq<MergedStep>, k: nat, d: nat)
    requires k <= |steps| && d == |AppSteps(steps[..k])|
    ensures d <= |AppSteps(steps)| && AppSteps(steps[k..]) == AppSteps(steps)[d..]
  {
    AppStepsSplit(steps[..k], steps[k..]);
    assert steps == steps[..k] + steps[k..];
  }

  lemma OthersAreRead(r: Request, steps: seq<MergedStep>)
    ensures Lost(r, steps) <= |AppSteps(steps)|
    ensures AppSteps(steps[Unread(r, steps)..]) == AppSteps(steps)[Lost(r, steps)..]
  {
    AppStepsFrom(steps, Unread(r, steps), Lost(r, steps));
  }

  /** Nothing is lost of a line that fits the reader's buffer. */
  lemma ShortLineLosesNothing(r: Request, steps: seq<MergedStep>)
    requires |MergedLine(r, steps)| < LINE_BUFFER
    ensures Unread(r, steps) == 0 && Lost(r, steps) == 0
  {
    assert steps[..0] == [];
  }

  lemma AppendedPiece(before: string, line: string, file: string)
    requires before == "" || before[|before| - 1] == '\n'
    requires EndsObject(line) && OneLineText(line) && file == before + (line + "\n")
    ensures LastLine(file, None) == Some(line[PieceStart(|line|)..])
  {
    var found := EarlierLinesArePassed(before, line + "\n", None);
    LastPieceOf(line, found);
  }

  /**
   * After the agent has appended its line, of any length, to any file of complete lines, the collector reads one
   * step for each of the first `maxSteps` application steps of that request whose objects start in the line's last
   * piece, in order. No text needs to be free of braces.
   */
  lemma AppendedLineIsRead(file: string, r: Request, steps: seq<MergedStep>, maxSteps: nat)
    requires Appended(file, r, steps) && WritableRequest(r) && AllWritable(steps)
    ensures Lost(r, steps) <= |AppSteps(steps)|
    ensures Latest(file, maxSteps) == FirstN(ReadSteps(AppSteps(steps)[Lost(r, steps)..]), maxSteps)
  {
    OthersAreRead(r, steps);
    var before, line :|
      && (before == "" || before[|before| - 1] == '\n')
      && line == MergedLine(r, steps) && file == before + (line + "\n");
    LineIsOneLine(r, steps, line);
    AppendedPiece(before, line, file);
    LatestOfPiece(file, line[PieceStart(|line|)..], maxSteps);
    PieceOfLine(r, steps, line, PieceStart(|line|));
  }

  lemma SameReading(apps: seq<MergedStep>, n: nat)
    requires forall i | 0 <= i < |apps| :: apps[i].timeNs >= 0
    ensures FirstN(ReadSteps(apps), n) == FirstN(KeptSteps(apps), n)
      <==> forall i | 0 <= i < |apps| && i < n :: Survives(apps[i])
  {
    var read, kept := FirstN(ReadSteps(apps), n), FirstN(KeptSteps(apps), n);
    forall i | 0 <= i < |apps| && i < n ensures read[i] == kept[i] <==> Survives(apps[i]) {
      ReadBackIsKeptExactlyWhen(apps[i]);
    }
  }

  lemma {:induction false} AppStepsTakeTime(steps: seq<MergedStep>)
    requires AllWritable(steps)
    ensures forall i | 0 <= i < |AppSteps(steps)| :: AppSteps(steps)[i].timeNs >= 0
  {
    if steps != [] {
      assert Writable(steps[0]);
      AllWritableFrom(steps, 1);
      AppStepsTakeTime(steps[1..]);
    }
  }

  /** Those come back unchanged exactly when enough is seen of each of them. */
  lemma AppendedLineReadsBackExactlyWhen(
    file: string, r: Request, steps: seq<MergedStep>, apps: seq<MergedStep>, maxSteps: nat)
    requires Appended(file, r, steps) && WritableRequest(r) && AllWritable(steps)
    requires Lost(r, steps) <= |AppSteps(steps)| && apps == AppSteps(steps)[Lost(r, steps)..]
    ensures Latest(file, maxSteps) == FirstN(KeptSteps(apps), maxSteps)
      <==> forall i | 0 <= i < |apps| && i < maxSteps :: Survives(apps[i])
  {
    AppendedLineIsRead(file, r, steps, maxSteps);
    AppStepsTakeTime(steps);
    SameReading(apps, maxSteps);
  }

  lemma AllReadExactlyWhen(latest: seq<JvmStep>, apps: seq<MergedStep>, d: nat, n: nat)
    requires d <= |apps| <= n && latest == FirstN(ReadSteps(apps[d..]), n)
    requires forall i | 0 <= i < |apps| :: apps[i].timeNs >= 0
    ensures latest == KeptSteps(apps) <==> d == 0 && forall i | 0 <= i < |apps| :: Survives(apps[i])
  {
    if d == 0 {
      assert apps[d..] == apps;
      SameReading(apps, n);
    } else {
      assert |latest| < |KeptSteps(apps)|;
    }
  }

  /** With room for all of them, the whole request comes back exactly when, besides, none is lost with the line. */
  lemma WholeRequestReadsBackExactlyWhen(file: string, r: Request, steps: seq<MergedStep>, maxSteps: nat)
    requires Appended(file, r, steps) && WritableRequest(r) && AllWritable(steps) && |AppSteps(steps)| <= maxSteps
    ensures var apps := AppSteps(steps);
      Latest(file, maxSteps) == KeptSteps(apps)
      <==> Lost(r, steps) == 0 && forall i | 0 <= i < |apps| :: Survives(apps[i])
  {
    AppendedLineIsRead(file, r, steps, maxSteps);
    AppStepsTakeTime(steps);
    AllReadExactlyWhen(Latest(file, maxSteps), AppSteps(steps), Lost(r, steps), maxSteps);
  }
}
