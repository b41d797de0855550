/** What stands where in the line that the agent writes: header, sections and steps, each under its key. */
module LineFields {
  import opened JsonFields
  import opened JsonText
  import opened MergedFile
  import opened MergedNumbers
  import opened MergedRoundTrip
  import opened MergedSteps
  import opened ObjectFront
  import opened SqlText
  import opened StepFront
  import opened Text
  import opened Wrappers

  /** Behind the first occurrence of the key stands the value. */
  ghost predicate Shows(text: string, key: string, value: string) {
    StrStr(text, key).Some? && value <= text[StrStr(text, key).value + |key|..]
  }

  // ---------- A field at the front of a text ----------

  ghost predicate FirstWithKey(items: seq<Item>, j: nat)
    requires j < |items|
  {
    forall k | 0 <= k < j :: items[k].field.key != items[j].field.key
  }

  lemma FieldInText(items: seq<Item>, j: nat, more: string, after: string, text: string, tail: string)
    requires WellFormedItems(items) && j < |items| && FirstWithKey(items, j)
    requires ItemText(items[j]) == KeyPattern(items[j].field.key) + more + after
    requires text == Object(items) + tail
    ensures var p := KeyPattern(items[j].field.key) + more;
      && StrStr(text, p).Some? && StrStr(text, p).value + |p| <= |text|
      && text[StrStr(text, p).value + |p|..] == after + (ItemsText(items[j + 1..]) + tail)
  {
    var obj, p := Object(items), KeyPattern(items[j].field.key) + more;
    assert items == items[..j] + [items[j]] + items[j + 1..];
    FieldIsFound(items[..j], items[j], items[j + 1..], more, after);
    FoundStays(obj, text, p);
    BehindFound(obj, tail, StrStr(obj, p).value + |p|, after, ItemsText(items[j + 1..]));
  }

  lemma BehindFound(obj: string, tail: string, i: nat, after: string, rest: string)
    requires i <= |obj| && obj[i..] == after + rest
    ensures (obj + tail)[i..] == after + (rest + tail)
  {
    assert (obj + tail)[i..] == obj[i..] + tail;
  }

  /** A string field reads back, whatever follows the object's first fields. */
  lemma TextReadsBack(items: seq<Item>, j: nat, text: string, tail: string, outLen: nat)
    requires WellFormedItems(items) && j < |items| && FirstWithKey(items, j) && items[j].field.Str?
    requires text == Object(items) + tail && outLen > 0
    ensures ExtractString(text, KeyPattern(items[j].field.key) + "\"", outLen)
      == Some(Cut(items[j].field.value, outLen - 1))
  {
    var it, v, rest := items[j], items[j].field.value, ItemsText(items[j + 1..]) + tail;
    StrItemText(it);
    FieldInText(items, j, "\"", Esc(v) + "\"" + [it.next], text, tail);
    Regroup2(Esc(v), "\"", [it.next], rest);
    UnescapedEsc(v, [it.next] + rest, Esc(v) + "\"" + [it.next] + rest, outLen - 1);
  }

  /** A bare field shows its text, and what follows it. */
  lemma BareIsShown(items: seq<Item>, j: nat, text: string, tail: string)
    requires WellFormedItems(items) && j < |items| && FirstWithKey(items, j) && items[j].field.Bare?
    requires text == Object(items) + tail
    ensures Shows(text, KeyPattern(items[j].field.key), items[j].field.text + [items[j].next])
  {
    var it := items[j];
    BareItemText(it, it.field.text + [it.next]);
    FieldInText(items, j, "", it.field.text + [it.next], text, tail);
    NothingMore(KeyPattern(it.field.key));
  }

  lemma NumberIsRead(text: string, key: string, ns: int, next: char)
    requires Shows(text, key, Fixed3(ns) + [next]) && next in {',', '}'}
    ensures ExtractNumber(text, key) == ns as real / 1000.0
  {
    var behind := text[StrStr(text, key).value + |key|..];
    var rest := behind[|Fixed3(ns)|..];
    assert (Fixed3(ns) + [next])[|Fixed3(ns)|] == next == behind[|Fixed3(ns)|] == rest[0];
    assert behind[..|Fixed3(ns)|] == (Fixed3(ns) + [next])[..|Fixed3(ns)|] == Fixed3(ns);
    assert behind == Fixed3(ns) + rest;
    SignedReadsBack(ns, rest);
  }

  // ---------- The header ----------

  lemma HeaderKeys(r: Request, steps: seq<MergedStep>)
    requires WritableRequest(r)
    ensures var items := FirstItems(r, steps);
      && WellFormedItems(items) && |items| == 9
      && forall j | 0 <= j < 6 :: FirstWithKey(items, j)
  {
    HeaderItemsAreGood(r);
    SectionItemsAreGood(SECTIONS[0], SectionCount(steps, SECTIONS[0]), SectionTime(steps, SECTIONS[0]));
    GoodItemsAreWellFormed(FirstItems(r, steps));
  }

  lemma LineFront(r: Request, steps: seq<MergedStep>) returns (tail: string)
    ensures MergedLine(r, steps) == Object(FirstItems(r, steps)) + tail
  {
    LineShape(r, steps);
    var others := SectionObjects(steps)[1..];
    FrontText(Object(FirstItems(r, steps)), others, Tail(StepObjects(steps)));
    tail := "," + Join(others, ',') + Tail(StepObjects(steps));
  }

  lemma HeaderPatterns()
    ensures "\"uri\":\"" == KeyPattern("uri") + "\"" && "\"client\":\"" == KeyPattern("client") + "\""
    ensures "\"server\":\"" == KeyPattern("server") + "\"" && "\"id\":" == KeyPattern("id")
    ensures "\"total_ms\":" == KeyPattern("total_ms")
  {}

  lemma LineField(r: Request, steps: seq<MergedStep>, items: seq<Item>, line: string, j: nat, outLen: nat)
    requires WritableRequest(r) && items == FirstItems(r, steps) && line == MergedLine(r, steps)
    requires j < 6 && outLen > 0
    ensures |items| == 9
    ensures items[j].field.Str? ==>
      ExtractString(line, KeyPattern(items[j].field.key) + "\"", outLen) == Some(Cut(items[j].field.value, outLen - 1))
    ensures items[j].field.Bare? ==>
      Shows(line, KeyPattern(items[j].field.key), items[j].field.text + [items[j].next])
  {
    HeaderKeys(r, steps);
    var tail := LineFront(r, steps);
    if items[j].field.Str? {
      TextReadsBack(items, j, line, tail, outLen);
    } else {
      BareIsShown(items, j, line, tail);
    }
  }

  /** The texts of the request come back from the line, each under its own key. */
  lemma HeaderReadsBack(r: Request, steps: seq<MergedStep>, line: string, outLen: nat)
    requires WritableRequest(r) && outLen > 0 && line == MergedLine(r, steps)
    ensures ExtractString(line, "\"uri\":\"", outLen) == Some(Cut(r.uri, outLen - 1))
    ensures ExtractString(line, "\"client\":\"", outLen) == Some(Cut(r.client, outLen - 1))
    ensures ExtractString(line, "\"server\":\"", outLen) == Some(Cut(r.server, outLen - 1))
  {
    var items := FirstItems(r, steps);
    HeaderPatterns();
    LineField(r, steps, items, line, 1, outLen);
    LineField(r, steps, items, line, 2, outLen);
    LineField(r, steps, items, line, 3, outLen);
  }

  /** So do its numbers. */
  lemma HeaderShows(r: Request, steps: seq<MergedStep>, line: string)
    requires WritableRequest(r) && line == MergedLine(r, steps)
    ensures Shows(line, "\"id\":", Dec(r.id) + ",")
    ensures Shows(line, "\"total_ms\":", r.totalMs + ",")
  {
    var items := FirstItems(r, steps);
    HeaderPatterns();
    LineField(r, steps, items, line, 0, 1);
    LineField(r, steps, items, line, 4, 1);
  }

  lemma ListText(first: seq<Item>, objects: seq<string>, others: string)
    requires |objects| > 1 && objects[0] == Object(first) && others == Join(objects[1..], ',')
    ensures List(objects) == ("{" + ItemsText(first)) + "," + others
  {}

  lemma BracketFirst(text: string, others: string, rest: string, list: string)
    requires list == ("{" + text) + "," + others
    ensures "[{" + (text + ("," + others + rest)) == "[" + (list + rest)
  {}

  lemma SectionsShow(items: seq<Item>, text: string, tail: string)
    requires WellFormedItems(items) && |items| == 9 && FirstWithKey(items, 5) && items[5] == SECTIONS_ITEM
    requires text == Object(items) + tail
    ensures Shows(text, "\"sections\":", "[{" + (ItemsText(items[6..]) + tail))
  {
    BareItemText(items[5], "[{");
    FieldInText(items, 5, "", "[{", text, tail);
    NothingMore(KeyPattern("sections"));
    assert "\"sections\":" == KeyPattern("sections");
  }

  lemma FirstSection(r: Request, steps: seq<MergedStep>)
    ensures |SectionObjects(steps)| == 6 && SectionObjects(steps)[0] == Object(FirstItems(r, steps)[6..])
    ensures FirstItems(r, steps)[5] == SECTIONS_ITEM
  {
    var first := SectionItems(SECTIONS[0], SectionCount(steps, SECTIONS[0]), SectionTime(steps, SECTIONS[0]));
    assert FirstItems(r, steps)[6..] == first;
  }

  /** Behind its key follows the list of the sections' objects, and behind that the list of the steps'. */
  lemma ListsFollow(r: Request, steps: seq<MergedStep>, line: string)
    requires WritableRequest(r) && line == MergedLine(r, steps)
    ensures Shows(line, "\"sections\":", "[" + (List(SectionObjects(steps)) + Tail(StepObjects(steps))))
  {
    var items, objects, rest := FirstItems(r, steps), SectionObjects(steps), Tail(StepObjects(steps));
    FirstSection(r, steps);
    var others := Join(objects[1..], ',');
    HeaderKeys(r, steps);
    LineShape(r, steps);
    FrontText(Object(items), objects[1..], rest);
    SectionsShow(items, line, "," + others + rest);
    ListText(items[6..], objects, others);
    BracketFirst(ItemsText(items[6..]), others, rest, List(objects));
  }

  // ---------- The sections ----------

  lemma SectionPatterns()
    ensures "\"name\":\"" == KeyPattern("name") + "\"" && "\"steps\":" == KeyPattern("steps")
    ensures "\"total_us\":" == KeyPattern("total_us")
  {}

  lemma SectionKeys(section: string, count: nat, totalNs: int)
    requires section in SECTIONS
    ensures var items := SectionItems(section, count, totalNs);
      |items| == 3 && WellFormedItems(items) && forall j | 0 <= j < 3 :: FirstWithKey(items, j)
  {
    SectionItemsAreGood(section, count, totalNs);
    GoodItemsAreWellFormed(SectionItems(section, count, totalNs));
  }

  lemma SectionField(section: string, count: nat, totalNs: int, items: seq<Item>, obj: string, j: nat, outLen: nat)
    requires section in SECTIONS && items == SectionItems(section, count, totalNs) && obj == Object(items)
    requires j < 3 && outLen > 0
    ensures |items| == 3
    ensures items[j].field.Str? ==>
      ExtractString(obj, KeyPattern(items[j].field.key) + "\"", outLen) == Some(Cut(items[j].field.value, outLen - 1))
    ensures items[j].field.Bare? ==>
      Shows(obj, KeyPattern(items[j].field.key), items[j].field.text + [items[j].next])
  {
    SectionKeys(section, count, totalNs);
    assert obj == obj + "";
    if items[j].field.Str? {
      TextReadsBack(items, j, obj, "", outLen);
    } else {
      BareIsShown(items, j, obj, "");
    }
  }

  lemma SectionFields(section: string, count: nat, totalNs: int, items: seq<Item>, obj: string, outLen: nat)
    requires section in SECTIONS && items == SectionItems(section, count, totalNs) && obj == Object(items)
    requires outLen > 0
    ensures ExtractString(obj, "\"name\":\"", outLen) == Some(Cut(section, outLen - 1))
    ensures Shows(obj, "\"steps\":", Dec(count) + ",")
    ensures ExtractNumber(obj, "\"total_us\":") == totalNs as real / 1000.0
  {
    SectionPatterns();
    SectionField(section, count, totalNs, items, obj, 0, outLen);
    SectionField(section, count, totalNs, items, obj, 1, 1);
    SectionField(section, count, totalNs, items, obj, 2, 1);
    NumberIsRead(obj, "\"total_us\":", totalNs, '}');
  }

  /** Each section's object names it, and gives the count and the time of its steps. */
  lemma SectionReadsBack(steps: seq<MergedStep>, i: nat, outLen: nat)
    requires i < 6 && outLen > 0
    ensures var obj, section := SectionObjects(steps)[i], SECTIONS[i];
      && ExtractString(obj, "\"name\":\"", outLen) == Some(Cut(section, outLen - 1))
      && Shows(obj, "\"steps\":", Dec(SectionCount(steps, section)) + ",")
      && ExtractNumber(obj, "\"total_us\":") == SectionTime(steps, section) as real / 1000.0
    ensures SECTIONS ==
      ["Network layer", "Kernel socket layer", "Web server", "Application", "Database", "Response path"]
  {
    var section := SECTIONS[i];
    var count, time := SectionCount(steps, section), SectionTime(steps, section);
    SectionFields(section, count, time, SectionItems(section, count, time), SectionObjects(steps)[i], outLen);
  }

  // ---------- The steps ----------

  lemma StepPatterns()
    ensures "\"n\":" == KeyPattern("n") && "\"layer\":\"" == KeyPattern("layer") + "\""
    ensures "\"delta_us\":" == KeyPattern("delta_us") && "\"duration_us\":" == KeyPattern("duration_us")
  {}

  lemma StepKeys(s: MergedStep)
    requires Writable(s)
    ensures WellFormedItems(StepItems(s)) && forall j | 0 <= j < |StepItems(s)| :: FirstWithKey(StepItems(s), j)
  {
    StepItemsAreGood(s);
    GoodItemsAreWellFormed(StepItems(s));
  }

  /** The object of a step of either layer holds its number and its texts, each under its own key. */
  lemma StepTextsReadBack(s: MergedStep, obj: string, outLen: nat)
    requires Writable(s) && outLen > 0 && obj == Object(StepItems(s))
    ensures ExtractString(obj, "\"section\":\"", outLen) == Some(Cut(s.section, outLen - 1))
    ensures ExtractString(obj, "\"layer\":\"", outLen) == Some(Cut(s.layer, outLen - 1))
    ensures ExtractString(obj, "\"stage\":\"", outLen) == Some(Cut(s.stage, outLen - 1))
    ensures ExtractString(obj, "\"desc\":\"", outLen) == Some(Cut(s.desc, outLen - 1))
    ensures ExtractString(obj, "\"process\":\"", outLen) == Some(Cut(s.process, outLen - 1))
  {
    var items := StepItems(s);
    Patterns();
    StepPatterns();
    StepKeys(s);
    assert obj == obj + "";
    TextReadsBack(items, 1, obj, "", outLen);
    TextReadsBack(items, 2, obj, "", outLen);
    TextReadsBack(items, 3, obj, "", outLen);
    TextReadsBack(items, 4, obj, "", outLen);
    TextReadsBack(items, 5, obj, "", outLen);
  }

  lemma StepField(s: MergedStep, items: seq<Item>, obj: string, j: nat, outLen: nat)
    requires Writable(s) && items == StepItems(s) && obj == Object(items) && j < |items| && outLen > 0
    ensures items[j].field.Str? ==>
      ExtractString(obj, KeyPattern(items[j].field.key) + "\"", outLen) == Some(Cut(items[j].field.value, outLen - 1))
    ensures items[j].field.Bare? ==>
      Shows(obj, KeyPattern(items[j].field.key), items[j].field.text + [items[j].next])
  {
    StepKeys(s);
    assert obj == obj + "";
    if items[j].field.Str? {
      TextReadsBack(items, j, obj, "", outLen);
    } else {
      BareIsShown(items, j, obj, "");
    }
  }

  /** Its number stands there, and its time under the key of its layer. */
  lemma StepNumbersReadBack(s: MergedStep, items: seq<Item>, obj: string)
    requires Writable(s) && items == StepItems(s) && obj == Object(items)
    ensures Shows(obj, "\"n\":", Dec(s.n) + ",")
    ensures s.layer == "kernel" ==> ExtractNumber(obj, "\"delta_us\":") == s.timeNs as real / 1000.0
    ensures s.layer == "jvm" ==> ExtractNumber(obj, "\"duration_us\":") == s.timeNs as real / 1000.0
  {
    StepPatterns();
    StepField(s, items, obj, 0, 1);
    StepField(s, items, obj, 6, 1);
    NumberIsRead(obj, KeyPattern(items[6].field.key), s.timeNs, items[6].next);
  }

  /** Its statement comes back cut to 120 characters, and there is none if it has none. */
  lemma StepSqlReadsBack(s: MergedStep, items: seq<Item>, obj: string, outLen: nat)
    requires Writable(s) && items == StepItems(s) && obj == Object(items) && outLen > 0
    ensures ExtractString(obj, "\"sql\":\"", outLen)
      == if s.sql.Some? then Some(Cut(TrimTo(s.sql.value, 120), outLen - 1)) else None
  {
    Patterns();
    if s.sql.Some? {
      StepField(s, items, obj, 7, outLen);
    } else {
      StepItemsAreGood(s);
      StepNames();
      GoodItemsAreWellFormed(items);
      ReadsNothing(items, "sql", |obj|, outLen);
      assert obj[..|obj|] == obj;
    }
  }
}
