/** `merged_requests.jsonl`: one line per request, appended by the Java agent, read back by the C collector. */
module MergedFile {
  import opened JsonFields
  import opened JsonText
  import opened MergedSteps
  import opened SqlText
  import opened Text
  import opened Wrappers

  // ---------- Numbers with three decimals ----------

  function Pad3(r: nat): string
    requires r < 1000
  {
    [Digit(r / 100), Digit(r / 10 % 10), Digit(r % 10)]
  }

  /** `%.3f` of microseconds, from nanoseconds. */
  function Fixed3(ns: int): string {
    var magnitude: nat := if ns < 0 then 0 - ns else ns;
    (if ns < 0 then "-" else "") + Dec(magnitude / 1000) + "." + Pad3(magnitude % 1000)
  }

  /** The value of the digits after a decimal point. */
  function Fraction(digits: string): real {
    if digits == "" then 0.0 else (DigitValue(digits[0]) as real + Fraction(digits[1..])) / 10.0
  }

  /** The digits after a decimal point at index `n`. */
  function Decimals(t: string, n: nat): string
    requires n <= |t|
  {
    if n < |t| && t[n] == '.' then t[n + 1..][..DigitRun(t[n + 1..])] else ""
  }

  function UnsignedValue(t: string): Option<real> {
    var n := DigitRun(t);
    if n == 0 then None else Some(Value(t[..n], 10) as real + Fraction(Decimals(t, n)))
  }

  /** The decimal part of `strtod`: an optional sign, digits, and optional decimals. */
  function StrToD(s: string): Option<real> {
    if s != "" && s[0] == '-' then
      match UnsignedValue(s[1..])
      case None => None
      case Some(v) => Some(0.0 - v)
    else UnsignedValue(s)
  }

  // ---------- The Java writer ----------

  /** `totalMs` is the number as printed; how it was rounded is not modelled. */
  datatype Request = Request(id: nat, uri: string, client: string, server: string, totalMs: string)

  function HeaderItems(r: Request): seq<Item> {
    [ Item(Bare("id", Dec(r.id)), ','), Item(Str("uri", r.uri), ','), Item(Str("client", r.client), ','),
      Item(Str("server", r.server), ','), Item(Bare("total_ms", r.totalMs), ',') ]
  }

  function SectionItems(section: string, count: nat, totalNs: int): seq<Item> {
    [ Item(Str("name", section), ','), Item(Bare("steps", Dec(count)), ','),
      Item(Bare("total_us", Fixed3(totalNs)), '}') ]
  }

  function SectionObject(steps: seq<MergedStep>, section: string): string {
    Object(SectionItems(section, SectionCount(steps, section), SectionTime(steps, section)))
  }

  function ObjectsOf(steps: seq<MergedStep>, sections: seq<string>): seq<string> {
    seq(|sections|, i requires 0 <= i < |sections| => SectionObject(steps, sections[i]))
  }

  function SectionObjects(steps: seq<MergedStep>): seq<string> {
    ObjectsOf(steps, SECTIONS)
  }

  function TimeKey(layer: string): string {
    if layer == KERNEL then "delta_us" else "duration_us"
  }

  function CommonItems(s: MergedStep): seq<Item> {
    [ Item(Bare("n", Dec(s.n)), ','), Item(Str("section", s.section), ','), Item(Str("layer", s.layer), ','),
      Item(Str("stage", s.stage), ','), Item(Str("desc", s.desc), ','), Item(Str("process", s.process), ',') ]
  }

  function StepItems(s: MergedStep): seq<Item> {
    CommonItems(s) + match s.sql
    case None => [Item(Bare(TimeKey(s.layer), Fixed3(s.timeNs)), '}')]
    case Some(sql) => [Item(Bare(TimeKey(s.layer), Fixed3(s.timeNs)), ','), Item(Str("sql", TrimTo(sql, 120)), '}')]
  }

  function StepObjects(steps: seq<MergedStep>): seq<string> {
    seq(|steps|, i requires 0 <= i < |steps| => Object(StepItems(steps[i])))
  }

  function List(objects: seq<string>): string {
    if objects == [] then "" else Join(objects, ',')
  }

  function MergedLine(r: Request, steps: seq<MergedStep>): string {
    "{" + ItemsText(HeaderItems(r)) + "\"sections\":[" + List(SectionObjects(steps)) + "]"
    + ",\"steps\":[" + List(StepObjects(steps)) + "]}"
  }

  lemma {:induction false} JoinSnoc(objects: seq<string>, obj: string)
    requires objects != []
    ensures Join(objects + [obj], ',') == Join(objects, ',') + "," + obj
  {
    if |objects| == 1 {
      assert (objects + [obj])[1..] == [obj];
    } else {
      assert (objects + [obj])[1..] == objects[1..] + [obj];
      JoinSnoc(objects[1..], obj);
      var first, rest := objects[0] + ",", Join(objects[1..], ',');
      assert first + (rest + "," + obj) == (first + rest) + "," + obj;
    }
  }

  /** Appending one more object to a list being written. */
  lemma ListGrows(start: string, objects: seq<string>, k: nat)
    requires k < |objects|
    ensures start + List(objects[..k + 1]) == start + List(objects[..k]) + (if k > 0 then "," else "") + objects[k]
  {
    assert objects[..k + 1] == objects[..k] + [objects[k]];
    if k > 0 {
      JoinSnoc(objects[..k], objects[k]);
      var list := List(objects[..k]);
      assert start + (list + "," + objects[k]) == start + list + "," + objects[k];
    }
  }

  method SumSection(steps: seq<MergedStep>, section: string) returns (count: nat, total: int)
    ensures count == SectionCount(steps, section) && total == SectionTime(steps, section)
  {
    count, total := 0, 0;
    for j := 0 to |steps|
      invariant count == SectionCount(steps[..j], section) && total == SectionTime(steps[..j], section)
    {
      assert steps[..j + 1][..j] == steps[..j];
      if steps[j].section == section {
        count, total := count + 1, total + steps[j].timeNs;
      }
    }
    assert steps[..|steps|] == steps;
  }

  method AppendSectionsJson(before: string, steps: seq<MergedStep>) returns (sb: string)
    ensures sb == before + "\"sections\":[" + List(SectionObjects(steps)) + "]"
  {
    sb := before + "\"sections\":[";
    ghost var start, objects := sb, SectionObjects(steps);
    for k := 0 to |SECTIONS|
      invariant sb == start + List(objects[..k])
    {
      var count, total := SumSection(steps, SECTIONS[k]);
      if k > 0 {
        sb := sb + ",";
      }
      var obj := Object(SectionItems(SECTIONS[k], count, total));
      sb := sb + obj;
      assert objects[k] == obj;
      ListGrows(start, objects, k);
    }
    assert objects[..|SECTIONS|] == objects;
    sb := sb + "]";
  }

  method AppendSteps(before: string, steps: seq<MergedStep>) returns (sb: string)
    ensures sb == before + List(StepObjects(steps))
  {
    sb := before;
    ghost var objects := StepObjects(steps);
    for k := 0 to |steps|
      invariant sb == before + List(objects[..k])
    {
      if k > 0 {
        sb := sb + ",";
      }
      sb := sb + Object(StepItems(steps[k]));
      assert objects[k] == Object(StepItems(steps[k]));
      ListGrows(before, objects, k);
    }
    assert objects[..|steps|] == objects;
  }

  /** One line per request. */
  method WriteMergedRequest(r: Request, steps: seq<MergedStep>) returns (line: string)
    ensures line == MergedLine(r, steps)
  {
    line := AppendSectionsJson("{" + ItemsText(HeaderItems(r)), steps);
    line := AppendSteps(line + ",\"steps\":[", steps);
    line := line + "]}";
  }

  // ---------- The C reader: the last line ----------

  const LINE_BUFFER := 8192
  const OBJECT_BUFFER := 1024

  /** How much one `fgets` takes: through the first newline, but less than the buffer. */
  function ChunkLength(s: string): (n: nat)
    requires s != ""
    ensures 0 < n <= |s|
  {
    var k := IndexOf(s, '\n');
    var line := if k < |s| then k + 1 else |s|;
    if line < LINE_BUFFER then line else LINE_BUFFER - 1
  }

  predicate IsBlank(c: char) {
    c == '\n' || c == '\r' || c == ' ' || c == '\t'
  }

  function TrimRight(s: string): string {
    if s != "" && IsBlank(s[|s| - 1]) then TrimRight(s[..|s| - 1]) else s
  }

  function LastLine(file: string, found: Option<string>): Option<string>
    decreases |file|
  {
    if file == "" then found
    else
      var line := TrimRight(CStr(file[..ChunkLength(file)]));
      LastLine(file[ChunkLength(file)..], if line == "" then found else Some(line))
  }

  method ReadLastNonemptyLine(file: string) returns (out: Option<string>)
    ensures out == LastLine(file, None)
  {
    out := None;
    var rest := file;
    while rest != ""
      invariant LastLine(rest, out) == LastLine(file, None)
      decreases |rest|
    {
      var n := ChunkLength(rest);
      var line := CStr(rest[..n]);
      ghost var whole := line;
      while line != "" && IsBlank(line[|line| - 1])
        invariant TrimRight(line) == TrimRight(whole)
        decreases |line|
      {
        line := line[..|line| - 1];
      }
      rest := rest[n..];
      if line != "" {
        out := Some(line);
      }
    }
  }

  // ---------- The C reader: objects and steps ----------

  /** From each opening brace to the next closing one. */
  function Scan(s: string): seq<string>
    decreases |s|
  {
    var k := IndexFrom(s, '{', 0);
    var e := IndexFrom(s, '}', k);
    if e == |s| then [] else [s[k..e + 1]] + Scan(s[e + 1..])
  }

  datatype JvmStep = JvmStep(
    section: string, desc: string, stage: string, process: string, sql: Option<string>, durationUs: real)

  function Clipped(obj: string): string {
    Cut(obj, OBJECT_BUFFER - 1)
  }

  predicate IsJvm(obj: string) {
    Contains(obj, "\"layer\":\"jvm\"")
  }

  function StringOr(v: Option<string>, default: string): string {
    match v case Some(s) => s case None => default
  }

  /** The number that a text starts with; 0 if it starts with none. */
  function NumberIn(text: string): real {
    match StrToD(text) case None => 0.0 case Some(v) => v
  }

  function ExtractNumber(obj: string, key: string): real {
    match StrStr(obj, key)
    case None => 0.0
    case Some(i) => NumberIn(obj[i + |key|..])
  }

  function ParseObject(obj: string): JvmStep {
    JvmStep(
      StringOr(ExtractString(obj, "\"section\":\"", 32), ""), StringOr(ExtractString(obj, "\"desc\":\"", 96), ""),
      StringOr(ExtractString(obj, "\"stage\":\"", 48), ""), StringOr(ExtractString(obj, "\"process\":\"", 48), ""),
      ExtractString(obj, "\"sql\":\"", 180), ExtractNumber(obj, "\"duration_us\":"))
  }

  function StepIn(obj: string): seq<JvmStep> {
    if IsJvm(Clipped(obj)) then [ParseObject(Clipped(obj))] else []
  }

  function JvmStepsOf(objects: seq<string>): seq<JvmStep> {
    if objects == [] then [] else StepIn(objects[0]) + JvmStepsOf(objects[1..])
  }

  lemma {:induction false} JvmStepsSplit(a: seq<string>, b: seq<string>)
    ensures JvmStepsOf(a + b) == JvmStepsOf(a) + JvmStepsOf(b)
  {
    if a == [] {
      assert a + b == b;
    } else {
      assert (a + b)[1..] == a[1..] + b;
      JvmStepsSplit(a[1..], b);
    }
  }

  lemma JvmStepsCons(obj: string, more: seq<string>)
    ensures JvmStepsOf([obj] + more) == StepIn(obj) + JvmStepsOf(more)
  {
    assert ([obj] + more)[1..] == more;
  }

  function FirstN<T>(s: seq<T>, n: nat): seq<T> {
    if |s| <= n then s else s[..n]
  }

  function Latest(file: string, maxSteps: nat): seq<JvmStep> {
    match LastLine(file, None)
    case None => []
    case Some(line) => FirstN(JvmStepsOf(Scan(line)), maxSteps)
  }

  function DurationIn(steps: seq<JvmStep>, section: string): real {
    if steps == [] then 0.0
    else
      var s := steps[|steps| - 1];
      DurationIn(steps[..|steps| - 1], section) + (if s.section == section then s.durationUs else 0.0)
  }

  lemma DurationSnoc(steps: seq<JvmStep>, s: JvmStep, section: string)
    ensures DurationIn(steps + [s], section) ==
      DurationIn(steps, section) + (if s.section == section then s.durationUs else 0.0)
  {
    assert (steps + [s])[..|steps|] == steps;
  }

  lemma FirstNext<T>(done: seq<T>, s: T, rest: seq<T>, n: nat)
    requires |done| <= n
    ensures FirstN(done + ([s] + rest), n) ==
      if |done| < n then FirstN((done + [s]) + rest, n) else FirstN(done + rest, n)
  {
    assert done + ([s] + rest) == (done + [s]) + rest;
    if |done| == n {
      assert FirstN(done + ([s] + rest), n) == done == FirstN(done + rest, n);
    }
  }

  lemma ScanStep(p: string, k: nat, e: nat)
    requires k == IndexFrom(p, '{', 0) && e == IndexFrom(p, '}', k)
    ensures e < |p| ==> Scan(p) == [p[k..e + 1]] + Scan(p[e + 1..])
    ensures e == |p| ==> Scan(p) == []
  {
  }

  lemma ScanNext(p: string, k: nat, e: nat)
    requires k == IndexFrom(p, '{', 0) && e == IndexFrom(p, '}', k)
    ensures e < |p| ==> JvmStepsOf(Scan(p)) == StepIn(p[k..e + 1]) + JvmStepsOf(Scan(p[e + 1..]))
    ensures e == |p| ==> JvmStepsOf(Scan(p)) == []
  {
    ScanStep(p, k, e);
    if e < |p| {
      JvmStepsCons(p[k..e + 1], Scan(p[e + 1..]));
    }
  }

  method ParseLatestJvmSteps(file: string, maxSteps: nat)
    returns (steps: seq<JvmStep>, springUs: real, dbUs: real)
    ensures steps == Latest(file, maxSteps)
    ensures springUs == DurationIn(steps, "Application") && dbUs == DurationIn(steps, "Database")
  {
    steps, springUs, dbUs := [], 0.0, 0.0;
    if maxSteps == 0 {
      return;
    }
    var last := ReadLastNonemptyLine(file);
    if last.None? {
      return;
    }
    var p := last.value;
    ghost var goal := Latest(file, maxSteps);
    assert [] + JvmStepsOf(Scan(p)) == JvmStepsOf(Scan(p));
    while IndexFrom(p, '{', 0) < |p|
      invariant |steps| <= maxSteps
      invariant FirstN(steps + JvmStepsOf(Scan(p)), maxSteps) == goal
      invariant springUs == DurationIn(steps, "Application") && dbUs == DurationIn(steps, "Database")
      decreases |p|
    {
      var k := IndexFrom(p, '{', 0);
      var e := IndexFrom(p, '}', k);
      ScanNext(p, k, e);
      if e == |p| {
        break;
      }
      var obj := Clipped(p[k..e + 1]);
      p := p[e + 1..];
      ghost var rest := JvmStepsOf(Scan(p));
      assert [] + rest == rest;
      if IsJvm(obj) {
        FirstNext(steps, ParseObject(obj), rest, maxSteps);
        if |steps| < maxSteps {
          steps, springUs, dbUs := AddStep(steps, springUs, dbUs, ParseObject(obj));
        }
      }
    }
    ScanNext(p, IndexFrom(p, '{', 0), IndexFrom(p, '}', IndexFrom(p, '{', 0)));
    assert steps + [] == steps;
  }

  /** Stores one step and adds its duration to the total of its section, if that is one of the two kept. */
  method AddStep(before: seq<JvmStep>, spring: real, db: real, s: JvmStep)
    returns (steps: seq<JvmStep>, springUs: real, dbUs: real)
    requires spring == DurationIn(before, "Application") && db == DurationIn(before, "Database")
    ensures steps == before + [s]
    ensures springUs == DurationIn(steps, "Application") && dbUs == DurationIn(steps, "Database")
  {
    steps, springUs, dbUs := before + [s], spring, db;
    if s.section == "Application" {
      springUs := springUs + s.durationUs;
    }
    if s.section == "Database" {
      dbUs := dbUs + s.durationUs;
    }
    DurationSnoc(before, s, "Application");
    DurationSnoc(before, s, "Database");
  }
}
