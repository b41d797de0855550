/** The object that the agent writes for one merged step, and the step that the collector reads from it. */
module StepFront {
  import opened CutFields
  import opened EventNames
  import opened JsonFields
  import opened JsonText
  import opened MergedFile
  import opened MergedSteps
  import opened ObjectFront
  import opened ObjectScan
  import opened SqlText
  import opened Text
  import opened Wrappers

  /** A merged step, numbered by an `int`, whose texts neither end a line nor a C string; braces may be anywhere. */
  ghost predicate Writable(s: MergedStep) {
    && s.n < INT_BOUND && (s.layer == KERNEL || s.layer == JVM) && s.section in SECTIONS
    && (s.section == APPLICATION || s.section == DATABASE ==> s.layer == JVM)
    && (s.layer == JVM ==> s.timeNs >= 0)
    && OneLineText(s.stage) && OneLineText(s.desc) && OneLineText(s.process)
    && match s.sql case None => true case Some(sql) => OneLineText(sql)
  }

  // ---------- Its items ----------

  lemma StepNames()
    ensures IsName("n") && IsName("section") && IsName("layer") && IsName("stage") && IsName("desc")
    ensures IsName("process") && IsName("delta_us") && IsName("duration_us") && IsName("sql")
  {}

  lemma NumbersAreGood(n: nat)
    ensures OneLineText(Dec(n)) && Without(Dec(n), '"') && Without(Dec(n), '}')
  {
    DecIsPlain(n);
  }

  lemma DurationsAreGood(ns: int)
    ensures OneLineText(Fixed3(ns)) && Without(Fixed3(ns), '"') && Without(Fixed3(ns), '}')
  {
    var magnitude: nat := if ns < 0 then 0 - ns else ns;
    DecIsPlain(magnitude / 1000);
    var s := Fixed3(ns);
    assert forall i | 0 <= i < |s| :: s[i] == '-' || s[i] == '.' || '0' <= s[i] <= '9';
  }

  predicate PlainName(s: string) {
    OneLineText(s) && Without(s, '}') && |s| <= 31
  }

  lemma KernelNamesArePlain()
    ensures PlainName(NETWORK) && PlainName(KERNEL_SOCKET) && PlainName(WEB_SERVER)
  {}

  lemma OtherNamesArePlain()
    ensures PlainName(APPLICATION) && PlainName(DATABASE) && PlainName(RESPONSE)
  {}

  lemma SectionIsOneOf(section: string)
    requires section in SECTIONS
    ensures section == NETWORK || section == KERNEL_SOCKET || section == WEB_SERVER
      || section == APPLICATION || section == DATABASE || section == RESPONSE
  {}

  lemma SectionNamesArePlain(section: string)
    requires section in SECTIONS
    ensures OneLineText(section) && Without(section, '}') && |section| <= 31
  {
    SectionIsOneOf(section);
    KernelNamesArePlain();
    OtherNamesArePlain();
  }

  lemma LayersArePlain()
    ensures OneLineText(KERNEL) && OneLineText(JVM) && Without(KERNEL, '}') && Without(JVM, '}')
  {}

  lemma CommonItemsAreGood(s: MergedStep)
    requires Writable(s)
    ensures var items := CommonItems(s); forall k | 0 <= k < 6 :: GoodItem(items[k]) && items[k].next == ','
    ensures var items := CommonItems(s); !Braced(items[0]) && !Braced(items[1]) && !Braced(items[2])
  {
    StepNames();
    NumbersAreGood(s.n);
    SectionNamesArePlain(s.section);
    LayersArePlain();
  }

  lemma TrimmedIsOneLine(sql: string)
    requires OneLineText(sql)
    ensures OneLineText(TrimTo(sql, 120)) && |TrimTo(sql, 120)| <= 120
  {}

  lemma LastItemsAreGood(s: MergedStep)
    requires Writable(s)
    ensures var items := StepItems(s);
      forall k | 6 <= k < |items| :: GoodItem(items[k]) && (items[k].next == '}' <==> k == |items| - 1)
  {
    StepNames();
    DurationsAreGood(s.timeNs);
    if s.sql.Some? {
      TrimmedIsOneLine(s.sql.value);
    }
  }

  lemma StepItemsAreGood(s: MergedStep)
    requires Writable(s)
    ensures GoodItems(StepItems(s)) && DistinctKeys(StepItems(s))
  {
    var items := StepItems(s);
    CommonItemsAreGood(s);
    LastItemsAreGood(s);
    forall k | 0 <= k < |items| ensures GoodItem(items[k]) && (items[k].next == '}' <==> k == |items| - 1) {
      if k < 6 {
        assert items[k] == CommonItems(s)[k];
      }
    }
    StepKeysAreDistinct(s);
  }

  lemma StepKeysAreDistinct(s: MergedStep)
    ensures DistinctKeys(StepItems(s))
  {}

  // ---------- Where its first brace is ----------

  /** The index of the first text with a closing brace; the number of fields if there is none. */
  function BraceAt(s: MergedStep): nat {
    if !Without(s.stage, '}') then 3
    else if !Without(s.desc, '}') then 4
    else if !Without(s.process, '}') then 5
    else
      match s.sql
      case None => 7
      case Some(sql) => if Without(TrimTo(sql, 120), '}') then 8 else 7
  }

  lemma FirstBracedIs(items: seq<Item>, f: nat)
    requires f <= |items| && (f < |items| ==> Braced(items[f])) && forall k | 0 <= k < f :: !Braced(items[k])
    ensures FirstBraced(items) == f
  {}

  lemma StepBraceAt(s: MergedStep)
    requires Writable(s)
    ensures FirstBraced(StepItems(s)) == BraceAt(s)
  {
    var items := StepItems(s);
    CommonItemsAreGood(s);
    assert forall k | 0 <= k < 6 :: items[k] == CommonItems(s)[k];
    assert !Braced(items[6]);
    FirstBracedIs(items, BraceAt(s));
  }

  // ---------- How much of it is seen ----------

  /** The reader copies the object through its first closing brace, but no more than its buffer holds. */
  function SeenLength(items: seq<Item>): nat {
    if FrontLength(items) < OBJECT_BUFFER then FrontLength(items) else OBJECT_BUFFER - 1
  }

  /** How many characters of the value of item `j` that are; negative if not even its key is seen. */
  function SeenOf(s: MergedStep, j: nat): int
    requires j < |StepItems(s)|
  {
    SeenLength(StepItems(s)) - ValueAt(StepItems(s), j)
  }

  function Pow10(k: nat): nat {
    if k == 0 then 1 else 10 * Pow10(k - 1)
  }

  lemma {:induction false} DecLength(n: nat, k: nat)
    requires k > 0 && n < Pow10(k)
    ensures |Dec(n)| <= k
  {
    if n >= 10 {
      assert Pow10(k) == 10 * Pow10(k - 1);
      DecLength(n / 10, k - 1);
    }
  }

  lemma IntLength(n: nat)
    requires n < INT_BOUND
    ensures |Dec(n)| <= 10
  {
    assert Pow10(5) == 100000;
    assert Pow10(10) == 10_000_000_000;
    DecLength(n, 10);
  }

  lemma FirstItemsLength(s: MergedStep, items: seq<Item>)
    requires items == StepItems(s)
    ensures |Object(items[..2])| == 19 + |Dec(s.n)| + |Esc(s.section)|
    ensures |Object(items[..3])| == 30 + |Dec(s.n)| + |Esc(s.section)| + |Esc(s.layer)|
  {
    assert items[..0] == [] && |Object([])| == 1;
    LengthNext(items, 0);
    LengthNext(items, 1);
    LengthNext(items, 2);
  }

  lemma LayerIsShort(s: MergedStep, items: seq<Item>)
    requires Writable(s) && items == StepItems(s)
    ensures |Object(items[..3])| < OBJECT_BUFFER
  {
    FirstItemsLength(s, items);
    IntLength(s.n);
    SectionNamesArePlain(s.section);
    EscNotShorter(s.section);
    EscNotShorter(s.layer);
  }

  lemma LayerIsBeforeBrace(s: MergedStep, items: seq<Item>)
    requires Writable(s) && items == StepItems(s)
    ensures |Object(items[..3])| <= FrontLength(items) <= |Object(items)|
  {
    StepItemsAreGood(s);
    StepBraceAt(s);
    FrontEnds(items);
    FrontBehind(items, 2);
    OffsetNext(items, 2);
  }

  /** Number, section and layer are always seen. */
  lemma LayerIsSeen(s: MergedStep, items: seq<Item>)
    requires Writable(s) && items == StepItems(s)
    ensures |Object(items[..3])| <= SeenLength(items) <= FrontLength(items) <= |Object(items)|
  {
    LayerIsShort(s, items);
    LayerIsBeforeBrace(s, items);
  }

  // ---------- What is read ----------

  /** The step that the reader makes of it. */
  function ReadBack(s: MergedStep): JvmStep {
    JvmStep(
      s.section, StringOr(TextRead(s.desc, SeenOf(s, 4), 95), ""), StringOr(TextRead(s.stage, SeenOf(s, 3), 47), ""),
      StringOr(TextRead(s.process, SeenOf(s, 5), 47), ""),
      match s.sql case None => None case Some(sql) => TextRead(TrimTo(sql, 120), SeenOf(s, 7), 179),
      TimeRead(s.timeNs, SeenOf(s, 6)))
  }

  lemma Patterns()
    ensures "\"section\":\"" == KeyPattern("section") + "\"" && "\"desc\":\"" == KeyPattern("desc") + "\""
    ensures "\"stage\":\"" == KeyPattern("stage") + "\"" && "\"process\":\"" == KeyPattern("process") + "\""
    ensures "\"sql\":\"" == KeyPattern("sql") + "\"" && "\"duration_us\":" == KeyPattern("duration_us")
  {}

  lemma ParseObjectIs(obj: string, k: JvmStep)
    requires StringOr(ExtractString(obj, "\"section\":\"", 32), "") == k.section
    requires StringOr(ExtractString(obj, "\"desc\":\"", 96), "") == k.desc
    requires StringOr(ExtractString(obj, "\"stage\":\"", 48), "") == k.stage
    requires StringOr(ExtractString(obj, "\"process\":\"", 48), "") == k.process
    requires ExtractString(obj, "\"sql\":\"", 180) == k.sql
    requires ExtractNumber(obj, "\"duration_us\":") == k.durationUs
    ensures ParseObject(obj) == k
  {}

  /** What the reader copies of an object. */
  ghost predicate IsFront(s: MergedStep, front: string) {
    var items := StepItems(s);
    SeenLength(items) <= |Object(items)| && front == Object(items)[..SeenLength(items)]
  }

  lemma StepTextIsRead(s: MergedStep, j: nat, pattern: string, outLen: nat, front: string)
    requires Writable(s) && outLen > 0 && j < |StepItems(s)| && StepItems(s)[j].field.Str? && IsFront(s, front)
    requires pattern == KeyPattern(StepItems(s)[j].field.key) + "\""
    ensures ExtractString(front, pattern, outLen) == TextRead(StepItems(s)[j].field.value, SeenOf(s, j), outLen - 1)
  {
    StepItemsAreGood(s);
    ReadsText(StepItems(s), j, SeenLength(StepItems(s)), outLen);
  }

  lemma SectionIsBeforeLayer(s: MergedStep, items: seq<Item>)
    requires items == StepItems(s)
    ensures ValueAt(items, 1) + |Esc(s.section)| <= |Object(items[..3])|
  {
    OffsetNext(items, 2);
    LengthNext(items, 1);
  }

  lemma SectionIsSeen(s: MergedStep)
    requires Writable(s)
    ensures TextRead(s.section, SeenOf(s, 1), 31) == Some(s.section)
  {
    SectionIsBeforeLayer(s, StepItems(s));
    LayerIsSeen(s, StepItems(s));
    SectionNamesArePlain(s.section);
    AllIsShown(s.section, SeenOf(s, 1));
  }

  lemma SectionAndDescAreRead(s: MergedStep, front: string)
    requires Writable(s) && IsFront(s, front)
    ensures StringOr(ExtractString(front, "\"section\":\"", 32), "") == ReadBack(s).section
    ensures StringOr(ExtractString(front, "\"desc\":\"", 96), "") == ReadBack(s).desc
  {
    Patterns();
    SectionIsSeen(s);
    StepTextIsRead(s, 1, "\"section\":\"", 32, front);
    StepTextIsRead(s, 4, "\"desc\":\"", 96, front);
  }

  lemma StageAndProcessAreRead(s: MergedStep, front: string)
    requires Writable(s) && IsFront(s, front)
    ensures StringOr(ExtractString(front, "\"stage\":\"", 48), "") == ReadBack(s).stage
    ensures StringOr(ExtractString(front, "\"process\":\"", 48), "") == ReadBack(s).process
  {
    Patterns();
    StepTextIsRead(s, 3, "\"stage\":\"", 48, front);
    StepTextIsRead(s, 5, "\"process\":\"", 48, front);
  }

  lemma SqlIsRead(s: MergedStep, front: string)
    requires Writable(s) && IsFront(s, front)
    ensures ExtractString(front, "\"sql\":\"", 180) == ReadBack(s).sql
  {
    Patterns();
    if s.sql.Some? {
      StepTextIsRead(s, 7, "\"sql\":\"", 180, front);
    } else {
      StepItemsAreGood(s);
      StepNames();
      ReadsNothing(StepItems(s), "sql", SeenLength(StepItems(s)), 180);
    }
  }

  lemma DurationIsRead(s: MergedStep, front: string)
    requires Writable(s) && s.layer == JVM && IsFront(s, front)
    ensures ExtractNumber(front, "\"duration_us\":") == ReadBack(s).durationUs
  {
    Patterns();
    StepItemsAreGood(s);
    ReadsNumber(StepItems(s), 6, SeenLength(StepItems(s)), s.timeNs);
  }

  lemma FrontIsRead(s: MergedStep, front: string)
    requires Writable(s) && s.layer == JVM && IsFront(s, front)
    ensures ParseObject(front) == ReadBack(s)
  {
    SectionAndDescAreRead(s, front);
    StageAndProcessAreRead(s, front);
    SqlIsRead(s, front);
    DurationIsRead(s, front);
    ParseObjectIs(front, ReadBack(s));
  }

  // ---------- Which steps count ----------

  lemma LayerPattern()
    ensures JVM_LAYER == KeyPattern("layer") + "\"jvm\""
  {}

  lemma {:induction false} EscPlain(s: string)
    requires forall i | 0 <= i < |s| :: !Special(s[i])
    ensures Esc(s) == s
  {
    if s != "" {
      EscPlain(s[1..]);
    }
  }

  lemma EscPlainLayers()
    ensures Esc("jvm") == "jvm" && Esc("kernel") == "kernel"
  {
    EscPlain("jvm");
    EscPlain("kernel");
  }

  /** The pattern goes on differently from the value that stands there. */
  lemma OtherValueDiffers(it: Item, rest: string, more: string)
    requires it.field.Str? && Esc(it.field.value) != "" && |more| > 1 && Esc(it.field.value)[0] != more[1]
    ensures !OccursAt(ItemText(it) + rest, KeyPattern(it.field.key) + more, 0)
  {
    var t, p, q := ItemText(it) + rest, KeyPattern(it.field.key), |it.field.key| + 3;
    StrFieldChars(it.field, it.next);
    PatternChars(it.field.key);
    assert t[q + 1] == ItemText(it)[q + 1] == Esc(it.field.value)[0];
    assert (p + more)[q + 1] == more[1];
    Mismatch(t, p + more, 0, q + 1);
  }

  /** The object of a kernel step never names the application layer, whatever its texts hold. */
  lemma KernelStepLacksLayer(s: MergedStep)
    requires Writable(s) && s.layer == KERNEL
    ensures StrStr(Object(StepItems(s)), JVM_LAYER) == None
  {
    var items := StepItems(s);
    StepItemsAreGood(s);
    GoodItemsAreWellFormed(items);
    Around(items, 2);
    LayerPattern();
    EscPlainLayers();
    OtherValueDiffers(items[2], ItemsText(items[3..]), "\"jvm\"");
    OtherValueIsNotFound(items[..2], items[2], items[3..], "\"jvm\"");
  }

  /** So a kernel step never passes for an application step. */
  lemma KernelStepIsPassedOver(s: MergedStep)
    requires Writable(s) && s.layer == KERNEL
    ensures StepsIn(Object(StepItems(s))) == []
  {
    KernelStepLacksLayer(s);
    LackingHasNoSteps(Object(StepItems(s)));
  }

  lemma LayerItemText(it: Item)
    requires it.field == Str("layer", "jvm")
    ensures ItemText(it) == KeyPattern("layer") + "\"jvm\"" + [it.next]
  {
    EscPlainLayers();
    StrItemText(it);
    assert "\"" + ("jvm" + "\"" + [it.next]) == "\"jvm\"" + [it.next];
  }

  /** The layer of an application step is seen, and named nowhere else in the object. */
  lemma LayerIsInFront(s: MergedStep, items: seq<Item>, front: string)
    requires Writable(s) && s.layer == JVM && items == StepItems(s) && IsFront(s, front)
    ensures Contains(front, JVM_LAYER)
    ensures OnlyAt(Object(items), JVM_LAYER, |Object(items[..2])|) && |Object(items[..2])| < |Object(items[..3])|
  {
    StepItemsAreGood(s);
    LayerIsSeen(s, items);
    LayerPattern();
    LayerItemText(items[2]);
    OffsetNext(items, 2);
    FieldWithin(items, 2, SeenLength(items), "\"jvm\"", [items[2].next]);
    GoodItemsAreWellFormed(items);
    Around(items, 2);
    MoreOnlyThere(items[..2], items[2], items[3..], "\"jvm\"", [items[2].next]);
  }

  lemma BehindIsNothing(obj: string, p: string, o: nat, m: nat)
    requires OnlyAt(obj, p, o) && o < m <= |obj|
    ensures StrStr(obj[m..], p) == None
  {
    assert obj == obj[..m] + obj[m..];
    StrStrMeaning(obj[m..], p);
    if StrStr(obj[m..], p).Some? {
      OccursShifted(obj[..m], obj[m..], p, StrStr(obj[m..], p).value);
    }
  }

  lemma CutAtFirstBrace(obj: string, m: nat)
    requires obj != "" && obj[0] == '{' && m == IndexOf(obj, '}') + 1 <= |obj|
    ensures StepsIn(obj) == StepIn(obj[..m]) + StepsIn(obj[m..])
  {
    IndexFromIs(obj, '{', 0, 0);
    IndexFromIs(obj, '}', 0, m - 1);
    ScanNext(obj, 0, m - 1);
    assert obj[0..m] == obj[..m];
  }

  lemma FrontOfObject(s: MergedStep, items: seq<Item>) returns (front: string)
    requires Writable(s) && items == StepItems(s)
    ensures IsFront(s, front) && FrontLength(items) <= |Object(items)|
    ensures front == Clipped(Object(items)[..FrontLength(items)])
  {
    LayerIsSeen(s, items);
    front := Object(items)[..SeenLength(items)];
    assert Object(items)[..FrontLength(items)][..SeenLength(items)] == front;
  }

  /** An application object of any length yields exactly one step. */
  lemma ApplicationStepIsRead(s: MergedStep)
    requires Writable(s) && s.layer == JVM
    ensures StepsIn(Object(StepItems(s))) == [ReadBack(s)]
  {
    var items := StepItems(s);
    var obj, m := Object(items), FrontLength(items);
    var front := FrontOfObject(s, items);
    LayerIsSeen(s, items);
    LayerIsInFront(s, items, front);
    CutAtFirstBrace(obj, m);
    BehindIsNothing(obj, JVM_LAYER, |Object(items[..2])|, m);
    LackingHasNoSteps(obj[m..]);
    FrontIsRead(s, front);
  }

  // ---------- When the reading starts inside the object ----------

  lemma SectionNamesHaveNoBrace(section: string)
    requires section in SECTIONS
    ensures Without(section, '{')
  {
    SectionIsOneOf(section);
  }

  lemma NumbersHaveNoBrace(n: nat)
    ensures Without(Dec(n), '{')
  {
    DecIsPlain(n);
  }

  /** Up to the layer, the only opening brace is the first character. */
  lemma NoBraceBeforeLayer(s: MergedStep, items: seq<Item>)
    requires Writable(s) && items == StepItems(s)
    ensures Without(ItemsText(items[..3]), '{')
  {
    NumbersHaveNoBrace(s.n);
    SectionNamesHaveNoBrace(s.section);
    forall k | 0 <= k < 3 ensures Without(FieldText(items[..3][k].field), '{') {
      assert items[..3][k] == CommonItems(s)[k];
      FieldTextWithout(items[..3][k].field, '{');
    }
    ItemsTextWithout(items[..3], '{');
  }

  lemma BehindLayer(obj: string, front: string, o: nat, c: nat)
    requires front <= obj && front != "" && Without(front[1..], '{')
    requires o < |front| && OnlyAt(obj, JVM_LAYER, o) && 0 < c <= |obj|
    ensures StepsIn(obj[c..]) == []
  {
    var e := if c < |front| then |front| else c;
    BehindIsNothing(obj, JVM_LAYER, o, e);
    LackingHasNoSteps(obj[e..]);
    if c < |front| {
      assert obj[c..] == front[c..] + obj[e..];
      assert front[c..] == front[1..][c - 1..];
      StepsSkipGap(obj[c..], front[c..], obj[e..]);
    }
  }

  lemma ObjectPrefix(items: seq<Item>, j: nat)
    requires j <= |items|
    ensures Object(items[..j]) <= Object(items) && Object(items[..j])[1..] == ItemsText(items[..j])
  {
    assert items == items[..j] + items[j..];
    ItemsTextSplit(items[..j], items[j..]);
  }

  lemma StepIsReadFromItsStart(s: MergedStep)
    requires Writable(s)
    ensures Scannable(Object(StepItems(s)))
  {
    var items := StepItems(s);
    var obj := Object(items);
    StepItemsAreGood(s);
    ObjectEnds(items);
    if s.layer == KERNEL {
      KernelStepLacksLayer(s);
      LackingObjectIsPassed(obj);
    } else {
      var front := FrontOfObject(s, items);
      LayerIsInFront(s, items, front);
      NoBraceBeforeLayer(s, items);
      ObjectPrefix(items, 3);
      forall c | 0 < c <= |obj| ensures StepsIn(obj[c..]) == [] {
        BehindLayer(obj, Object(items[..3]), |Object(items[..2])|, c);
      }
    }
  }

  /** Whatever the texts hold, the section is read right and no more time than there was. */
  lemma SectionIsRight(s: MergedStep)
    requires Writable(s) && s.layer == JVM
    ensures var read := StepsIn(Object(StepItems(s)));
      |read| == 1 && read[0].section == s.section && 0.0 <= read[0].durationUs <= s.timeNs as real / 1000.0
  {
    ApplicationStepIsRead(s);
    TimeReadExactlyWhen(s.timeNs, SeenOf(s, 6));
  }
}
