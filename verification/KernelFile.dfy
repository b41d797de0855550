/** The handoff file `kernel_request.txt`: written by the C collector, read by the Java agent. */
module KernelFile {
  import opened Events
  import opened EventNames
  import opened Text
  import opened Timelines
  import opened Wrappers

  // ---------- The C writer ----------

  datatype Endpoints = Endpoints(clientAddr: U32, clientPort: U16, serverAddr: U32, serverPort: U16)

  /** The endpoint on the application port, if only one is on it, becomes the server. */
  function Normalised(e: Event, appPort: U16): Endpoints {
    if e.sport == appPort && e.dport != appPort then Endpoints(e.daddr, e.dport, e.saddr, e.sport)
    else Endpoints(e.saddr, e.sport, e.daddr, e.dport)
  }

  /** The address bytes, lowest first. */
  function IpToStr(addr: U32): string {
    Join([Dec(addr % 256), Dec(addr / 0x100 % 256), Dec(addr / 0x1_0000 % 256), Dec(addr / 0x100_0000 % 256)], '.')
  }

  function HostPort(addr: U32, port: U16): string {
    IpToStr(addr) + ":" + Dec(port)
  }

  function StepLine(i: nat, te: TimelineEntry): string {
    Join(["STEP", Dec(i + 1), EventName(te.e.kind), EventDesc(te.e.kind), Dec(te.deltaNs), te.e.comm,
          Dec(te.e.pid), Dec(te.e.cpu)], '|')
  }

  function StepLines(entries: seq<TimelineEntry>): seq<string> {
    seq(|entries|, i requires 0 <= i < |entries| => StepLine(i, entries[i]))
  }

  function HeaderLines(socket: U64, first: Event, appPort: U16): seq<string> {
    var ends := Normalised(first, appPort);
    [ Join(["CLIENT", HostPort(ends.clientAddr, ends.clientPort)], '|'),
      Join(["SERVER", HostPort(ends.serverAddr, ends.serverPort)], '|'),
      Join(["SOCKET", "0x" + Hex(socket)], '|'),
      Join(["PROCESS", first.comm, Dec(first.pid)], '|') ]
  }

  function TrailerLines(entries: seq<TimelineEntry>): seq<string> {
    [Join(["TOTAL_NS", Dec(TotalNs(entries))], '|'), Join(["COUNT", Dec(|entries|)], '|')]
  }

  function FileLines(socket: U64, entries: seq<TimelineEntry>, appPort: U16): seq<string>
    requires entries != []
  {
    HeaderLines(socket, entries[0].e, appPort) + StepLines(entries) + TrailerLines(entries)
  }

  method PrintSteps(tl: Timeline) returns (f: string)
    requires tl.count <= MAX_EVENTS
    ensures f == Unlines(StepLines(tl.entries[..tl.count]))
  {
    ghost var lines := StepLines(tl.entries[..tl.count]);
    f := "";
    var i := 0;
    while i < tl.count
      invariant 0 <= i <= tl.count
      invariant f == Unlines(lines[..i])
    {
      var line := StepLine(i, tl.entries[i]);
      assert lines[i] == line;
      f := f + line + "\n";
      UnlinesTake(lines, i);
      i := i + 1;
    }
    assert lines[..i] == lines;
  }

  /** The whole file is rewritten for each finished request; an empty timeline writes nothing. */
  method WriteKernelRequestFile(tl: Timeline, appPort: U16) returns (file: Option<string>)
    requires tl.count <= MAX_EVENTS
    ensures tl.count == 0 ==> file == None
    ensures tl.count > 0 ==> file == Some(Unlines(FileLines(tl.socket, tl.entries[..tl.count], appPort)))
  {
    if tl.count == 0 {
      return None;
    }
    var header := HeaderLines(tl.socket, tl.entries[0].e, appPort);
    var f := header[0] + "\n" + header[1] + "\n" + header[2] + "\n" + header[3] + "\n";
    HeaderText(header);
    var steps := PrintSteps(tl);
    f := f + steps;
    var total := if tl.count < 2 then 0
                 else Sub64(tl.entries[tl.count - 1].e.timestamp, tl.entries[0].e.timestamp);
    ghost var entries := tl.entries[..tl.count];
    assert TrailerLines(entries) == [Join(["TOTAL_NS", Dec(total)], '|'), Join(["COUNT", Dec(tl.count)], '|')];
    UnlinesSplit(header, StepLines(entries));
    TrailerText(header + StepLines(entries), TrailerLines(entries));
    f := f + Join(["TOTAL_NS", Dec(total)], '|') + "\n" + Join(["COUNT", Dec(tl.count)], '|') + "\n";
    return Some(f);
  }

  lemma UnlinesTake(lines: seq<string>, k: nat)
    requires k < |lines|
    ensures Unlines(lines[..k + 1]) == Unlines(lines[..k]) + lines[k] + "\n"
  {
    AddLine(lines[..k], lines[k]);
    assert lines[..k] + [lines[k]] == lines[..k + 1];
  }

  lemma AddLine(lines: seq<string>, line: string)
    ensures Unlines(lines + [line]) == Unlines(lines) + line + "\n"
  {
    UnlinesSplit(lines, [line]);
    assert Unlines([line]) == line + "\n" + Unlines([]);
    assert Unlines(lines) + (line + "\n" + "") == Unlines(lines) + line + "\n";
  }

  lemma TwoLines(lines: seq<string>)
    requires |lines| == 2
    ensures Unlines(lines) == lines[0] + "\n" + lines[1] + "\n"
  {
    AddLine([], lines[0]);
    AddLine([lines[0]], lines[1]);
    assert [] + [lines[0]] == [lines[0]] && [lines[0]] + [lines[1]] == lines && "" + lines[0] == lines[0];
  }

  lemma HeaderText(lines: seq<string>)
    requires |lines| == 4
    ensures Unlines(lines) == lines[0] + "\n" + lines[1] + "\n" + lines[2] + "\n" + lines[3] + "\n"
  {
    assert lines == lines[..2] + lines[2..];
    UnlinesSplit(lines[..2], lines[2..]);
    TwoLines(lines[..2]);
    TwoLines(lines[2..]);
    Regroup(lines[0] + "\n" + lines[1] + "\n", lines[2], lines[3]);
  }

  lemma Regroup(front: string, a: string, b: string)
    ensures front + (a + "\n" + b + "\n") == front + a + "\n" + b + "\n"
  {}

  lemma TrailerText(lines: seq<string>, trailer: seq<string>)
    requires |trailer| == 2
    ensures Unlines(lines + trailer) == Unlines(lines) + trailer[0] + "\n" + trailer[1] + "\n"
  {
    AddLine(lines, trailer[0]);
    AddLine(lines + [trailer[0]], trailer[1]);
    assert lines + [trailer[0]] + [trailer[1]] == lines + trailer;
  }

  lemma StepLinesSnoc(entries: seq<TimelineEntry>, te: TimelineEntry)
    ensures StepLines(entries + [te]) == StepLines(entries) + [StepLine(|entries|, te)]
  {
  }

  // ---------- The Java reader ----------

  datatype KernelStep = KernelStep(
    n: int, name: string, desc: string, deltaNs: int, comm: string, pid: int, cpu: int,
    totalNs: int, client: string, server: string, socket: string, process: string, processPid: int)

  /** The reader's local variables; `failed` once an exception has ended the read loop. */
  datatype Reader = Reader(
    client: string, server: string, socket: string, process: string, processPid: int, totalNs: int,
    steps: seq<KernelStep>, failed: bool)

  const NEW_READER := Reader("?", "?", "?", "?", 0, 0, [], false)

  function ParseLongSafe(s: string): int {
    match ParseSigned(Trim(s), LONG_BOUND)
    case Some(v) => v
    case None => 0
  }

  function FieldOr(p: seq<string>, i: nat, default: string): string {
    if |p| > i then p[i] else default
  }

  function ReadStep(st: Reader, p: seq<string>): Reader {
    if |p| < 5 then st
    else
      match (ParseSigned(Trim(p[1]), INT_BOUND), ParseSigned(Trim(p[4]), LONG_BOUND))
      case (Some(n), Some(delta)) =>
        st.(steps := st.steps + [KernelStep(
          n, Trim(p[2]), Trim(p[3]), delta,
          if |p| > 5 then Trim(p[5]) else st.process,
          if |p| > 6 then ParseLongSafe(p[6]) else st.processPid,
          if |p| > 7 then ParseLongSafe(p[7]) else 0,
          0, "", "", "", "", 0)])
      case _ => st.(failed := true)
  }

  function ReadLine(st: Reader, line: string): Reader {
    var p := JavaSplit(line, '|');
    if |p| == 0 then st
    else if p[0] == "CLIENT" then st.(client := FieldOr(p, 1, "?"))
    else if p[0] == "SERVER" then st.(server := FieldOr(p, 1, "?"))
    else if p[0] == "SOCKET" then st.(socket := FieldOr(p, 1, "?"))
    else if p[0] == "PROCESS" then
      st.(process := FieldOr(p, 1, "?"), processPid := if |p| > 2 then ParseLongSafe(p[2]) else st.processPid)
    else if p[0] == "TOTAL_NS" then
      if |p| <= 1 then st
      else
        match ParseSigned(Trim(p[1]), LONG_BOUND)
        case Some(v) => st.(totalNs := v)
        case None => st.(failed := true)
    else if p[0] == "STEP" then ReadStep(st, p)
    else st
  }

  function ReadLines(st: Reader, lines: seq<string>): Reader
    decreases |lines|
  {
    if st.failed || lines == [] then st else ReadLines(ReadLine(st, lines[0]), lines[1..])
  }

  function Completed(st: Reader, ks: KernelStep): KernelStep {
    ks.(client := st.client, server := st.server, totalNs := st.totalNs, socket := st.socket,
        process := st.process, processPid := st.processPid)
  }

  function CompletedSteps(st: Reader): seq<KernelStep> {
    seq(|st.steps|, i requires 0 <= i < |st.steps| => Completed(st, st.steps[i]))
  }

  /** The read loop: line by line, until the end of the text or the first exception. */
  method ReadAllLines(file: string) returns (st: Reader)
    ensures st == ReadLines(NEW_READER, Lines(file))
  {
    st := NEW_READER;
    var text := file;
    while text != "" && !st.failed
      invariant ReadLines(st, Lines(text)) == ReadLines(NEW_READER, Lines(file))
      decreases |text|
    {
      ReadLinesNext(st, text);
      var line := text[..LineEnd(text)];
      text := AfterLine(text);
      st := ReadLine(st, line);
    }
  }

  lemma ReadLinesNext(st: Reader, text: string)
    requires text != "" && !st.failed
    ensures ReadLines(st, Lines(text)) == ReadLines(ReadLine(st, text[..LineEnd(text)]), Lines(AfterLine(text)))
  {
    assert Lines(text)[1..] == Lines(AfterLine(text));
  }

  /** Fills the shared fields into every step. */
  method CompleteSteps(st: Reader) returns (steps: seq<KernelStep>)
    ensures steps == CompletedSteps(st)
  {
    steps := st.steps;
    var i := 0;
    while i < |steps|
      invariant 0 <= i <= |steps| == |st.steps|
      invariant forall j | 0 <= j < i :: steps[j] == Completed(st, st.steps[j])
      invariant forall j | i <= j < |steps| :: steps[j] == st.steps[j]
    {
      steps := steps[i := Completed(st, steps[i])];
      i := i + 1;
    }
  }

  method ReadKernelSteps(file: string) returns (steps: seq<KernelStep>)
    ensures steps == CompletedSteps(ReadLines(NEW_READER, Lines(file)))
  {
    var st := ReadAllLines(file);
    steps := CompleteSteps(st);
  }

  function SplitHostPort(value: string): (string, string) {
    if value == "" || value == "?" then ("?", "?")
    else
      var idx := LastIndexOf(value, ':');
      if idx <= 0 || idx == |value| - 1 then (value, "?") else (value[..idx], value[idx + 1..])
  }

  function LastIndexOf(s: string, c: char): (idx: int)
    ensures -1 <= idx < |s|
  {
    if s == "" then -1 else if s[|s| - 1] == c then |s| - 1 else LastIndexOf(s[..|s| - 1], c)
  }

  // ---------- Round trip ----------

  /** A process name that a pipe-separated line can carry. */
  predicate Carriable(comm: string) {
    Without(comm, '|') && OneLine(comm)
  }

  /** What the reader should produce for one entry, before the shared fields are filled in. */
  function StepOf(i: nat, te: TimelineEntry): KernelStep {
    KernelStep(i + 1, EventName(te.e.kind), EventDesc(te.e.kind), te.deltaNs, Trim(te.e.comm), te.e.pid, te.e.cpu,
               0, "", "", "", "", 0)
  }

  predicate AllFit(entries: seq<TimelineEntry>) {
    forall j | 0 <= j < |entries| :: entries[j].deltaNs < LONG_BOUND
  }

  /** How many entries come before the first whose delta does not fit a Java `long`. */
  function FitCount(entries: seq<TimelineEntry>): (n: nat)
    ensures n <= |entries|
    ensures n == |entries| <==> AllFit(entries)
    ensures AllFit(entries[..n]) && (n < |entries| ==> entries[n].deltaNs >= LONG_BOUND)
  {
    if entries == [] then 0
    else
      var front := entries[..|entries| - 1];
      var n := FitCount(front);
      if n == |front| && entries[|front|].deltaNs < LONG_BOUND then |entries| else n
  }

  lemma {:induction false} FitsBefore(entries: seq<TimelineEntry>, j: nat)
    requires j < |entries| && entries[j].deltaNs >= LONG_BOUND
    ensures FitCount(entries) <= j
  {
    if j < |entries| - 1 {
      FitsBefore(entries[..|entries| - 1], j);
    }
  }

  function Readable(entries: seq<TimelineEntry>): seq<KernelStep> {
    seq(FitCount(entries), i requires 0 <= i < FitCount(entries) => StepOf(i, entries[i]))
  }

  lemma LabelIsPlain(s: string)
    requires IsLabel(s)
    ensures Without(s, '|') && OneLine(s) && Trim(s) == s
  {
    TrimmedIsKept(s);
  }

  lemma NumbersArePlain(n: nat)
    ensures Without(Dec(n), '|') && Without(Dec(n), ':') && OneLine(Dec(n)) && Dec(n) != ""
    ensures Without(Hex(n), '|') && OneLine(Hex(n))
  {
    DecIsPlain(n);
    HexIsPlain(n);
  }

  lemma PidReadsBack(pid: U32)
    ensures ParseLongSafe(Dec(pid)) == pid
  {
    ParseDec(pid, LONG_BOUND);
  }

  lemma StepLineFields(i: nat, te: TimelineEntry)
    requires Carriable(te.e.comm)
    ensures JavaSplit(StepLine(i, te), '|') ==
      ["STEP", Dec(i + 1), EventName(te.e.kind), EventDesc(te.e.kind), Dec(te.deltaNs), te.e.comm,
       Dec(te.e.pid), Dec(te.e.cpu)]
    ensures OneLine(StepLine(i, te))
  {
    NumbersArePlain(i + 1);
    NumbersArePlain(te.deltaNs);
    NumbersArePlain(te.e.pid);
    NumbersArePlain(te.e.cpu);
    NamesAreLabels(te.e.kind);
    LabelIsPlain(EventName(te.e.kind));
    LabelIsPlain(EventDesc(te.e.kind));
    var fields := ["STEP", Dec(i + 1), EventName(te.e.kind), EventDesc(te.e.kind), Dec(te.deltaNs), te.e.comm,
                   Dec(te.e.pid), Dec(te.e.cpu)];
    JavaSplitJoin(fields, '|');
    JoinWithout(fields, '|', '\n');
    JoinWithout(fields, '|', '\r');
  }

  lemma StepTag(st: Reader, line: string)
    requires JavaSplit(line, '|') != [] && JavaSplit(line, '|')[0] == "STEP"
    ensures ReadLine(st, line) == ReadStep(st, JavaSplit(line, '|'))
  {}

  lemma ReadStepFields(st: Reader, i: nat, te: TimelineEntry, p: seq<string>)
    requires i + 1 < INT_BOUND && |p| == 8
    requires p[1] == Dec(i + 1) && p[2] == EventName(te.e.kind) && p[3] == EventDesc(te.e.kind)
    requires p[4] == Dec(te.deltaNs) && p[5] == te.e.comm && p[6] == Dec(te.e.pid) && p[7] == Dec(te.e.cpu)
    ensures ReadStep(st, p) ==
      if te.deltaNs < LONG_BOUND then st.(steps := st.steps + [StepOf(i, te)]) else st.(failed := true)
  {
    ParseDec(i + 1, INT_BOUND);
    ParseDec(te.deltaNs, LONG_BOUND);
    PidReadsBack(te.e.pid);
    PidReadsBack(te.e.cpu);
    NamesAreLabels(te.e.kind);
    LabelIsPlain(EventName(te.e.kind));
    LabelIsPlain(EventDesc(te.e.kind));
  }

  lemma ReadsStepLine(st: Reader, i: nat, te: TimelineEntry)
    requires Carriable(te.e.comm) && i + 1 < INT_BOUND
    ensures ReadLine(st, StepLine(i, te)) ==
      if te.deltaNs < LONG_BOUND then st.(steps := st.steps + [StepOf(i, te)]) else st.(failed := true)
  {
    StepLineFields(i, te);
    StepTag(st, StepLine(i, te));
    ReadStepFields(st, i, te, JavaSplit(StepLine(i, te), '|'));
  }

  lemma {:induction false} ReadLinesSplit(st: Reader, a: seq<string>, b: seq<string>)
    ensures ReadLines(st, a + b) == ReadLines(ReadLines(st, a), b)
    decreases |a|
  {
    if a == [] {
      assert a + b == b;
    } else if !st.failed {
      assert (a + b)[1..] == a[1..] + b;
      ReadLinesSplit(ReadLine(st, a[0]), a[1..], b);
    }
  }

  function AfterSteps(st: Reader, entries: seq<TimelineEntry>): Reader {
    st.(steps := st.steps + Readable(entries), failed := !AllFit(entries))
  }

  function AfterStep(st: Reader, i: nat, te: TimelineEntry): Reader {
    if st.failed then st
    else if te.deltaNs < LONG_BOUND then st.(steps := st.steps + [StepOf(i, te)])
    else st.(failed := true)
  }

  lemma {:induction false} ReadsStepLines(st: Reader, entries: seq<TimelineEntry>)
    requires !st.failed && |entries| < INT_BOUND
    requires forall j | 0 <= j < |entries| :: Carriable(entries[j].e.comm)
    ensures ReadLines(st, StepLines(entries)) == AfterSteps(st, entries)
  {
    if entries == [] {
      assert st.steps + Readable(entries) == st.steps;
    } else {
      var front, te := entries[..|entries| - 1], entries[|entries| - 1];
      assert entries == front + [te];
      ReadsStepLines(st, front);
      AfterStepsSnoc(st, front, te);
      ReadsOneMore(st, front, te);
    }
  }

  lemma AfterStepsSnoc(st: Reader, front: seq<TimelineEntry>, te: TimelineEntry)
    requires !st.failed
    ensures AfterSteps(st, front + [te]) == AfterStep(AfterSteps(st, front), |front|, te)
  {
    ReadableSnoc(front, te);
    assert st.steps + (Readable(front) + [StepOf(|front|, te)]) == st.steps + Readable(front) + [StepOf(|front|, te)];
  }

  lemma ReadableSnoc(front: seq<TimelineEntry>, te: TimelineEntry)
    ensures AllFit(front + [te]) <==> AllFit(front) && te.deltaNs < LONG_BOUND
    ensures Readable(front + [te]) ==
      if AllFit(front + [te]) then Readable(front) + [StepOf(|front|, te)] else Readable(front)
  {
    var all := front + [te];
    assert all[..|all| - 1] == front;
    assert all[|front|] == te && forall j | 0 <= j < |front| :: all[j] == front[j];
  }

  lemma ReadsOneMore(st: Reader, front: seq<TimelineEntry>, te: TimelineEntry)
    requires Carriable(te.e.comm) && |front| + 1 < INT_BOUND
    ensures ReadLines(st, StepLines(front + [te])) == AfterStep(ReadLines(st, StepLines(front)), |front|, te)
  {
    StepLinesSnoc(front, te);
    ReadLinesSplit(st, StepLines(front), [StepLine(|front|, te)]);
    ReadOne(ReadLines(st, StepLines(front)), StepLine(|front|, te));
    ReadsStepLine(ReadLines(st, StepLines(front)), |front|, te);
  }

  lemma ReadOne(st: Reader, line: string)
    ensures ReadLines(st, [line]) == if st.failed then st else ReadLine(st, line)
  {
    assert [line][1..] == [];
  }

  lemma IpIsPlain(addr: U32)
    ensures var s := IpToStr(addr); s != "" && Without(s, '|') && Without(s, ':') && OneLine(s)
  {
    var parts := [Dec(addr % 256), Dec(addr / 0x100 % 256), Dec(addr / 0x1_0000 % 256), Dec(addr / 0x100_0000 % 256)];
    NumbersArePlain(addr % 256);
    NumbersArePlain(addr / 0x100 % 256);
    NumbersArePlain(addr / 0x1_0000 % 256);
    NumbersArePlain(addr / 0x100_0000 % 256);
    JoinWithout(parts, '.', '|');
    JoinWithout(parts, '.', ':');
    JoinWithout(parts, '.', '\n');
    JoinWithout(parts, '.', '\r');
  }

  lemma {:induction false} LastIndexOfAfter(f: string, c: char, rest: string)
    requires Without(rest, c)
    ensures LastIndexOf(f + [c] + rest, c) == |f|
  {
    var s := f + [c] + rest;
    if rest != "" {
      var shorter := rest[..|rest| - 1];
      assert s[|s| - 1] == rest[|rest| - 1] && s[..|s| - 1] == f + [c] + shorter;
      LastIndexOfAfter(f, c, shorter);
    }
  }

  /** Four numerals below 256 and a port: the numbers that a pair of texts stands for, the lowest byte first. */
  ghost predicate Spells(texts: (string, string), addr: U32, port: U16) {
    var bytes := Split(texts.0, '.');
    && |bytes| == 4
    && (forall i | 0 <= i < 4 :: IsNumeral(bytes[i], 10) && Value(bytes[i], 10) < 256)
    && addr == Value(bytes[0], 10) + 0x100 * Value(bytes[1], 10)
             + 0x1_0000 * Value(bytes[2], 10) + 0x100_0000 * Value(bytes[3], 10)
    && IsNumeral(texts.1, 10) && Value(texts.1, 10) == port
  }

  lemma ByteIsRead(b: nat)
    requires b < 256
    ensures IsNumeral(Dec(b), 10) && Value(Dec(b), 10) == b && Without(Dec(b), '.')
  {
    NumeralValue(b, 10);
    DecIsPlain(b);
  }

  lemma BytesAddUp(addr: U32)
    ensures addr == addr % 256 + 0x100 * (addr / 0x100 % 256) + 0x1_0000 * (addr / 0x1_0000 % 256)
      + 0x100_0000 * (addr / 0x100_0000 % 256)
  {}

  /** The address text gives back the address, byte by byte. */
  lemma IpSpells(addr: U32, port: U16)
    ensures Spells((IpToStr(addr), Dec(port)), addr, port)
  {
    var bytes := [Dec(addr % 256), Dec(addr / 0x100 % 256), Dec(addr / 0x1_0000 % 256), Dec(addr / 0x100_0000 % 256)];
    ByteIsRead(addr % 256);
    ByteIsRead(addr / 0x100 % 256);
    ByteIsRead(addr / 0x1_0000 % 256);
    ByteIsRead(addr / 0x100_0000 % 256);
    BytesAddUp(addr);
    SplitJoin(bytes, '.');
    NumeralValue(port, 10);
  }

  /** The agent recovers address and port, as numbers, from the endpoint text. */
  lemma SplitHostPortRecovers(addr: U32, port: U16)
    ensures Spells(SplitHostPort(HostPort(addr, port)), addr, port)
  {
    EndpointParts(addr, port);
    IpSpells(addr, port);
  }

  lemma {:induction false} LastIndexOfNone(s: string, c: char)
    requires Without(s, c)
    ensures LastIndexOf(s, c) == -1
  {
    if s != "" {
      LastIndexOfNone(s[..|s| - 1], c);
    }
  }

  /** From a text without a colon it takes no port, and from an empty one no address either. */
  lemma NoPortIsUnknown(value: string)
    requires Without(value, ':')
    ensures SplitHostPort(value) == (if value == "" then "?" else value, "?")
  {
    LastIndexOfNone(value, ':');
  }

  lemma EndpointParts(addr: U32, port: U16)
    ensures SplitHostPort(HostPort(addr, port)) == (IpToStr(addr), Dec(port))
  {
    IpIsPlain(addr);
    NumbersArePlain(port);
    LastIndexOfAfter(IpToStr(addr), ':', Dec(port));
    var value := HostPort(addr, port);
    assert value == IpToStr(addr) + [':'] + Dec(port);
    assert value[..|IpToStr(addr)|] == IpToStr(addr) && value[|IpToStr(addr)| + 1..] == Dec(port);
  }

  lemma HostPortIsPlain(addr: U32, port: U16)
    ensures var s := HostPort(addr, port); s != "" && Without(s, '|') && OneLine(s)
  {
    IpIsPlain(addr);
    NumbersArePlain(port);
  }

  lemma PairLine(tag: string, text: string)
    requires Without(tag, '|') && OneLine(tag) && Without(text, '|') && OneLine(text) && text != ""
    ensures var line := Join([tag, text], '|'); JavaSplit(line, '|') == [tag, text] && OneLine(line)
  {
    JavaSplitJoin([tag, text], '|');
    JoinWithout([tag, text], '|', '\n');
    JoinWithout([tag, text], '|', '\r');
  }

  lemma ProcessLine(comm: string, pid: U32)
    requires Carriable(comm)
    ensures var line := Join(["PROCESS", comm, Dec(pid)], '|');
      JavaSplit(line, '|') == ["PROCESS", comm, Dec(pid)] && OneLine(line)
  {
    var fields := ["PROCESS", comm, Dec(pid)];
    NumbersArePlain(pid);
    JavaSplitJoin(fields, '|');
    JoinWithout(fields, '|', '\n');
    JoinWithout(fields, '|', '\r');
  }

  /** The shared fields, as the reader holds them after the header. */
  function AfterHeader(socket: U64, first: Event, appPort: U16): Reader {
    var ends := Normalised(first, appPort);
    NEW_READER.(client := HostPort(ends.clientAddr, ends.clientPort),
                server := HostPort(ends.serverAddr, ends.serverPort),
                socket := "0x" + Hex(socket), process := first.comm, processPid := first.pid)
  }

  lemma ReadsEndpoints(st: Reader, client: string, server: string)
    requires Without(client, '|') && OneLine(client) && client != ""
    requires Without(server, '|') && OneLine(server) && server != ""
    ensures ReadLine(st, Join(["CLIENT", client], '|')) == st.(client := client)
    ensures ReadLine(st, Join(["SERVER", server], '|')) == st.(server := server)
  {
    PairLine("CLIENT", client);
    PairLine("SERVER", server);
  }

  lemma ReadsSocket(st: Reader, socket: U64)
    ensures ReadLine(st, Join(["SOCKET", "0x" + Hex(socket)], '|')) == st.(socket := "0x" + Hex(socket))
    ensures OneLine(Join(["SOCKET", "0x" + Hex(socket)], '|'))
  {
    NumbersArePlain(socket);
    PairLine("SOCKET", "0x" + Hex(socket));
  }

  lemma ReadsProcess(st: Reader, comm: string, pid: U32)
    requires Carriable(comm)
    ensures ReadLine(st, Join(["PROCESS", comm, Dec(pid)], '|')) == st.(process := comm, processPid := pid)
  {
    ProcessLine(comm, pid);
    PidReadsBack(pid);
  }

  lemma ReadsHeader(socket: U64, first: Event, appPort: U16)
    requires Carriable(first.comm)
    ensures ReadLines(NEW_READER, HeaderLines(socket, first, appPort)) == AfterHeader(socket, first, appPort)
  {
    var ends := Normalised(first, appPort);
    var lines := HeaderLines(socket, first, appPort);
    var client := HostPort(ends.clientAddr, ends.clientPort);
    var server := HostPort(ends.serverAddr, ends.serverPort);
    HostPortIsPlain(ends.clientAddr, ends.clientPort);
    HostPortIsPlain(ends.serverAddr, ends.serverPort);
    var one := NEW_READER.(client := client);
    var two := one.(server := server);
    var three := two.(socket := "0x" + Hex(socket));
    ReadsEndpoints(NEW_READER, client, server);
    ReadsEndpoints(one, client, server);
    ReadsSocket(two, socket);
    ReadsProcess(three, first.comm, first.pid);
    ReadOne(NEW_READER, lines[0]);
    ReadOne(one, lines[1]);
    ReadOne(two, lines[2]);
    ReadOne(three, lines[3]);
    FourLines(NEW_READER, lines);
  }

  lemma HeaderIsPlain(socket: U64, first: Event, appPort: U16)
    requires Carriable(first.comm)
    ensures forall i | 0 <= i < 4 :: OneLine(HeaderLines(socket, first, appPort)[i])
  {
    var ends := Normalised(first, appPort);
    HostPortIsPlain(ends.clientAddr, ends.clientPort);
    HostPortIsPlain(ends.serverAddr, ends.serverPort);
    PairLine("CLIENT", HostPort(ends.clientAddr, ends.clientPort));
    PairLine("SERVER", HostPort(ends.serverAddr, ends.serverPort));
    ReadsSocket(NEW_READER, socket);
    ProcessLine(first.comm, first.pid);
  }

  lemma FourLines(st: Reader, lines: seq<string>)
    requires |lines| == 4
    ensures ReadLines(st, lines) ==
      ReadLines(ReadLines(ReadLines(ReadLines(st, [lines[0]]), [lines[1]]), [lines[2]]), [lines[3]])
  {
    ReadLinesSplit(st, lines[..3], [lines[3]]);
    ReadLinesSplit(st, lines[..2], [lines[2]]);
    ReadLinesSplit(st, lines[..1], [lines[1]]);
    assert lines == lines[..3] + [lines[3]] && lines[..3] == lines[..2] + [lines[2]];
    assert lines[..2] == lines[..1] + [lines[1]] && lines[..1] == [lines[0]];
  }

  lemma ReadsTrailer(st: Reader, entries: seq<TimelineEntry>)
    ensures ReadLines(st, TrailerLines(entries)) ==
      if st.failed then st
      else if TotalNs(entries) < LONG_BOUND then st.(totalNs := TotalNs(entries)) else st.(failed := true)
    ensures forall i | 0 <= i < 2 :: OneLine(TrailerLines(entries)[i])
  {
    var lines := TrailerLines(entries);
    NumbersArePlain(TotalNs(entries));
    NumbersArePlain(|entries|);
    PairLine("TOTAL_NS", Dec(TotalNs(entries)));
    PairLine("COUNT", Dec(|entries|));
    ParseDec(TotalNs(entries), LONG_BOUND);
    ReadOne(st, lines[0]);
    ReadOne(ReadLines(st, [lines[0]]), lines[1]);
    ReadLinesSplit(st, [lines[0]], [lines[1]]);
    assert lines == [lines[0]] + [lines[1]];
  }

  /** A step line without the later fields takes the process that was named before it, and processor 0. */
  lemma ShortStepIsRead(st: Reader, n: nat, name: string, desc: string, delta: nat, line: string)
    requires IsLabel(name) && IsLabel(desc) && n < INT_BOUND && delta < LONG_BOUND
    requires line == Join(["STEP", Dec(n), name, desc, Dec(delta)], '|')
    ensures ReadLine(st, line) ==
      st.(steps := st.steps + [KernelStep(n, name, desc, delta, st.process, st.processPid, 0, 0, "", "", "", "", 0)])
  {
    var fields := ["STEP", Dec(n), name, desc, Dec(delta)];
    NumbersArePlain(n);
    NumbersArePlain(delta);
    LabelIsPlain(name);
    LabelIsPlain(desc);
    JavaSplitJoin(fields, '|');
    StepTag(st, line);
    ParseDec(n, INT_BOUND);
    ParseDec(delta, LONG_BOUND);
  }

  /** And a file that is no more than such a line leaves everything else unknown. */
  lemma LoneStepIsRead(n: nat, name: string, desc: string, delta: nat, line: string)
    requires IsLabel(name) && IsLabel(desc) && n < INT_BOUND && delta < LONG_BOUND
    requires line == Join(["STEP", Dec(n), name, desc, Dec(delta)], '|')
    ensures CompletedSteps(ReadLines(NEW_READER, [line])) ==
      [KernelStep(n, name, desc, delta, "?", 0, 0, 0, "?", "?", "?", "?", 0)]
  {
    ShortStepIsRead(NEW_READER, n, name, desc, delta, line);
    ReadOne(NEW_READER, line);
  }

  /** One entry as the agent should see it. */
  function Delivered(socket: U64, entries: seq<TimelineEntry>, appPort: U16, i: nat): KernelStep
    requires i < |entries|
  {
    var ends := Normalised(entries[0].e, appPort);
    var e := entries[i].e;
    KernelStep(
      i + 1, EventName(e.kind), EventDesc(e.kind), entries[i].deltaNs, Trim(e.comm), e.pid, e.cpu,
      TotalNs(entries), HostPort(ends.clientAddr, ends.clientPort), HostPort(ends.serverAddr, ends.serverPort),
      "0x" + Hex(socket), entries[0].e.comm, entries[0].e.pid)
  }

  /** What the agent reads from what the collector writes. */
  function HandedOver(socket: U64, entries: seq<TimelineEntry>, appPort: U16): seq<KernelStep>
    requires entries != []
  {
    CompletedSteps(ReadLines(NEW_READER, Lines(Unlines(FileLines(socket, entries, appPort)))))
  }

  lemma FileIsPlain(socket: U64, entries: seq<TimelineEntry>, appPort: U16)
    requires entries != [] && forall i | 0 <= i < |entries| :: Carriable(entries[i].e.comm)
    ensures Lines(Unlines(FileLines(socket, entries, appPort))) == FileLines(socket, entries, appPort)
  {
    HeaderIsPlain(socket, entries[0].e, appPort);
    forall i | 0 <= i < |entries| ensures OneLine(StepLines(entries)[i]) {
      StepLineFields(i, entries[i]);
    }
    ReadsTrailer(NEW_READER, entries);
    LinesUnlines(FileLines(socket, entries, appPort));
  }

  lemma ReadsFile(socket: U64, entries: seq<TimelineEntry>, appPort: U16)
    requires 0 < |entries| < INT_BOUND
    requires forall i | 0 <= i < |entries| :: Carriable(entries[i].e.comm)
    ensures ReadLines(NEW_READER, Lines(Unlines(FileLines(socket, entries, appPort)))) ==
      AfterHeader(socket, entries[0].e, appPort).(
        steps := Readable(entries),
        totalNs := if AllFit(entries) && TotalNs(entries) < LONG_BOUND then TotalNs(entries) else 0,
        failed := !(AllFit(entries) && TotalNs(entries) < LONG_BOUND))
  {
    var header, body := HeaderLines(socket, entries[0].e, appPort), StepLines(entries);
    var st := AfterHeader(socket, entries[0].e, appPort);
    FileIsPlain(socket, entries, appPort);
    ReadLinesSplit(NEW_READER, header + body, TrailerLines(entries));
    ReadLinesSplit(NEW_READER, header, body);
    ReadsHeader(socket, entries[0].e, appPort);
    ReadsStepLines(st, entries);
    assert [] + Readable(entries) == Readable(entries);
    ReadsTrailer(AfterSteps(st, entries), entries);
  }

  /**
   * The handoff: for process names free of separators and line breaks, the agent gets every entry up to
   * the first delta of 2^63 or more, and the total unless it or a delta is that large.
   */
  lemma HandoffRoundTrip(socket: U64, entries: seq<TimelineEntry>, appPort: U16)
    requires 0 < |entries| < INT_BOUND
    requires forall i | 0 <= i < |entries| :: Carriable(entries[i].e.comm)
    ensures var steps := HandedOver(socket, entries, appPort);
      && |steps| == FitCount(entries)
      && forall i | 0 <= i < |steps| ::
        steps[i] == Delivered(socket, entries, appPort, i).(
          totalNs := if AllFit(entries) && TotalNs(entries) < LONG_BOUND then TotalNs(entries) else 0)
  {
    ReadsFile(socket, entries, appPort);
  }

  /** Every entry arrives, completely, but for blanks at the ends of its process name. */
  ghost predicate LosslessButForBlanks(socket: U64, entries: seq<TimelineEntry>, appPort: U16)
    requires entries != []
  {
    var steps := HandedOver(socket, entries, appPort);
    |steps| == |entries| && forall i | 0 <= i < |steps| :: steps[i] == Delivered(socket, entries, appPort, i)
  }

  lemma CarriableHandoff(socket: U64, entries: seq<TimelineEntry>, appPort: U16)
    requires 0 < |entries| < INT_BOUND
    requires forall i | 0 <= i < |entries| :: Carriable(entries[i].e.comm)
    ensures LosslessButForBlanks(socket, entries, appPort) <==> AllFit(entries) && TotalNs(entries) < LONG_BOUND
  {
    HandoffRoundTrip(socket, entries, appPort);
    var steps := HandedOver(socket, entries, appPort);
    if LosslessButForBlanks(socket, entries, appPort) {
      assert steps[0] == Delivered(socket, entries, appPort, 0);
      assert steps[0].totalNs == TotalNs(entries);
    }
  }

  // ---------- Process names of any kind ----------

  lemma {:induction false} SplitFields(s: string, sep: char, c: char)
    ensures forall i | 0 <= i < |Split(s, sep)| :: Without(Split(s, sep)[i], sep)
    ensures Without(s, c) ==> forall i | 0 <= i < |Split(s, sep)| :: Without(Split(s, sep)[i], c)
    decreases |s|
  {
    var k := IndexOf(s, sep);
    if k < |s| {
      SplitFields(s[k + 1..], sep, c);
    }
  }

  lemma {:induction false} DroppedFields(fields: seq<string>)
    ensures DropTrailingEmpty(fields) <= fields
  {
    if fields != [] && fields[|fields| - 1] == "" {
      DroppedFields(fields[..|fields| - 1]);
    }
  }

  /** Whatever a line holds, its fields are free of separators and line breaks. */
  lemma FieldsAreCarriable(line: string)
    requires OneLine(line)
    ensures forall i | 0 <= i < |JavaSplit(line, '|')| :: Carriable(JavaSplit(line, '|')[i])
  {
    SplitFields(line, '|', '\n');
    SplitFields(line, '|', '\r');
    DroppedFields(Split(line, '|'));
  }

  lemma {:induction false} TrimmedStaysCarriable(s: string)
    requires Carriable(s)
    ensures Carriable(Trim(s))
    decreases |s|
  {
    if s != "" && s[0] <= ' ' {
      TrimmedStaysCarriable(s[1..]);
    } else if s != "" && s[|s| - 1] <= ' ' {
      TrimmedStaysCarriable(s[..|s| - 1]);
    }
  }

  lemma LineHeadIsOneLine(t: string)
    requires t != ""
    ensures OneLine(t[..LineEnd(t)]) && Lines(t) == [t[..LineEnd(t)]] + Lines(AfterLine(t))
  {}

  lemma {:induction false} LinesAreOneLine(t: string)
    ensures forall i | 0 <= i < |Lines(t)| :: OneLine(Lines(t)[i])
    decreases |t|
  {
    if t != "" {
      LinesAreOneLine(AfterLine(t));
      LineHeadIsOneLine(t);
    }
  }

  /** All names that the reader holds. */
  ghost predicate NamesAreCarriable(st: Reader) {
    Carriable(st.process) && forall i | 0 <= i < |st.steps| :: Carriable(st.steps[i].comm)
  }

  lemma ReadLineKeepsNames(st: Reader, line: string)
    requires NamesAreCarriable(st) && OneLine(line)
    ensures NamesAreCarriable(ReadLine(st, line))
  {
    var p := JavaSplit(line, '|');
    FieldsAreCarriable(line);
    if |p| > 5 {
      TrimmedStaysCarriable(p[5]);
    }
  }

  /** The reader can never end up with a name that has a separator or a line break in it. */
  lemma {:induction false} ReadLinesKeepNames(st: Reader, lines: seq<string>)
    requires NamesAreCarriable(st) && forall i | 0 <= i < |lines| :: OneLine(lines[i])
    ensures NamesAreCarriable(ReadLines(st, lines))
    decreases |lines|
  {
    if !st.failed && lines != [] {
      ReadLineKeepsNames(st, lines[0]);
      ReadLinesKeepNames(ReadLine(st, lines[0]), lines[1..]);
    }
  }

  /** Every entry arrives exactly as it was recorded. */
  ghost predicate Lossless(socket: U64, entries: seq<TimelineEntry>, appPort: U16)
    requires entries != []
  {
    var steps := HandedOver(socket, entries, appPort);
    && |steps| == |entries|
    && forall i | 0 <= i < |steps| ::
      steps[i] == Delivered(socket, entries, appPort, i).(comm := entries[i].e.comm)
  }

  /** A name that arrives as it is: no separator, no line break, no blank at its ends. */
  predicate PlainName(comm: string) {
    Carriable(comm) && Trim(comm) == comm
  }

  predicate AllPlain(entries: seq<TimelineEntry>) {
    forall i | 0 <= i < |entries| :: PlainName(entries[i].e.comm)
  }

  lemma NamesAreRead(socket: U64, entries: seq<TimelineEntry>, appPort: U16, i: nat)
    requires i < |entries| && Lossless(socket, entries, appPort)
    ensures Carriable(entries[i].e.comm)
  {
    var text := Unlines(FileLines(socket, entries, appPort));
    LinesAreOneLine(text);
    ReadLinesKeepNames(NEW_READER, Lines(text));
    assert HandedOver(socket, entries, appPort)[i].comm == entries[i].e.comm;
  }

  lemma LosslessNames(socket: U64, entries: seq<TimelineEntry>, appPort: U16)
    requires 0 < |entries| < INT_BOUND && Lossless(socket, entries, appPort)
    ensures AllPlain(entries)
  {
    forall i | 0 <= i < |entries| ensures Carriable(entries[i].e.comm) {
      NamesAreRead(socket, entries, appPort, i);
    }
    HandoffRoundTrip(socket, entries, appPort);
    var steps := HandedOver(socket, entries, appPort);
    forall i | 0 <= i < |entries| ensures PlainName(entries[i].e.comm) {
      assert steps[i].comm == entries[i].e.comm;
    }
  }

  lemma PlainNamesStay(socket: U64, entries: seq<TimelineEntry>, appPort: U16)
    requires entries != [] && AllPlain(entries)
    ensures Lossless(socket, entries, appPort) <==> LosslessButForBlanks(socket, entries, appPort)
  {
    forall i | 0 <= i < |entries|
      ensures Delivered(socket, entries, appPort, i).(comm := entries[i].e.comm)
        == Delivered(socket, entries, appPort, i)
    {
      assert PlainName(entries[i].e.comm);
    }
  }

  /**
   * The handoff is lossless exactly when every delta and the total fit a Java `long`, and no process name has a
   * separator, a line break or a blank at its ends. Process names may be any texts.
   */
  lemma HandoffIsLosslessExactlyWhen(socket: U64, entries: seq<TimelineEntry>, appPort: U16)
    requires 0 < |entries| < INT_BOUND
    ensures Lossless(socket, entries, appPort) <==>
      AllFit(entries) && TotalNs(entries) < LONG_BOUND && AllPlain(entries)
  {
    if Lossless(socket, entries, appPort) {
      LosslessNames(socket, entries, appPort);
    }
    if AllPlain(entries) {
      PlainNamesStay(socket, entries, appPort);
      CarriableHandoff(socket, entries, appPort);
    }
  }

  // ---------- What the delivered fields stand for ----------

  /** The two endpoints of an event, the server's being the one on the application's port if only one of them is. */
  ghost predicate EndpointsOf(ks: KernelStep, e: Event, appPort: U16) {
    var client, server := SplitHostPort(ks.client), SplitHostPort(ks.server);
    if e.sport == appPort && e.dport != appPort then
      Spells(client, e.daddr, e.dport) && Spells(server, e.saddr, e.sport)
    else
      Spells(client, e.saddr, e.sport) && Spells(server, e.daddr, e.dport)
  }

  /** Every step that the agent gets names the endpoints and the socket of the request's first event. */
  lemma EndpointsArrive(socket: U64, entries: seq<TimelineEntry>, appPort: U16, i: nat)
    requires 0 < |entries| < INT_BOUND
    requires forall i | 0 <= i < |entries| :: Carriable(entries[i].e.comm)
    requires i < |HandedOver(socket, entries, appPort)|
    ensures var ks := HandedOver(socket, entries, appPort)[i];
      && EndpointsOf(ks, entries[0].e, appPort)
      && "0x" <= ks.socket && IsNumeral(ks.socket[2..], 16) && Value(ks.socket[2..], 16) == socket
  {
    HandoffRoundTrip(socket, entries, appPort);
    var ends := Normalised(entries[0].e, appPort);
    SplitHostPortRecovers(ends.clientAddr, ends.clientPort);
    SplitHostPortRecovers(ends.serverAddr, ends.serverPort);
    NumeralValue(socket, 16);
    assert ("0x" + Hex(socket))[2..] == Hex(socket);
  }
}
