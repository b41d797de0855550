/** The agent's span tracer for one thread: enter and exit over a stack of open spans and a list of finished ones. */
module Tracers {
  import opened Wrappers

  const TOMCAT := "TOMCAT"
  const SPRING_MVC := "SPRING_MVC"

  // ---------- The abstract tracer ----------

  datatype SpanRec = SpanRec(
    stage: string, className: string, methodName: string, methodDesc: string, sql: Option<string>,
    depth: nat, startNs: int, endNs: int, threw: bool)

  function Max(a: int, b: int): int {
    if a >= b then a else b
  }

  function DurationNs(s: SpanRec): nat {
    Max(0, s.endNs - s.startNs)
  }

  datatype Dump = Dump(requestId: nat, totalNs: nat, spans: seq<SpanRec>)

  /** `stack` has the oldest open span first. */
  datatype State = State(
    active: bool, requestId: nat, startNs: int, endNs: int, stack: seq<SpanRec>, spans: seq<SpanRec>,
    nextId: nat, dumps: seq<Dump>)

  /** A call of the instrumentation, with the successive clock readings that it may take. */
  datatype Op =
    | Enter(stage: string, className: string, methodName: string, methodDesc: string, sql: Option<string>,
            requestClock: int, spanClock: int)
    | Exit(stage: string, className: string, methodName: string, threw: bool,
           spanClock: int, requestClock: int, lateClock: int)

  predicate StartsRequest(stage: string) {
    stage == TOMCAT || stage == SPRING_MVC
  }

  function Entered(st: State, op: Op): State
    requires op.Enter?
  {
    var open :=
      if !st.active && StartsRequest(op.stage) then
        State(true, st.nextId, op.requestClock, 0, [], [], st.nextId + 1, st.dumps)
      else st;
    if !open.active then open
    else open.(stack := open.stack + [SpanRec(op.stage, op.className, op.methodName, op.methodDesc, op.sql,
                                              |open.stack|, op.spanClock, 0, false)])
  }

  function TotalNs(startNs: int, endNs: int, lateClock: int): nat {
    Max(0, (if endNs == 0 then lateClock else endNs) - startNs)
  }

  function Exited(st: State, op: Op): State
    requires op.Exit?
  {
    if !st.active || st.stack == [] then st
    else
      var n := |st.stack|;
      var span := st.stack[n - 1].(endNs := op.spanClock, threw := op.threw);
      var popped := st.(stack := st.stack[..n - 1], spans := st.spans + [span]);
      if op.stage != TOMCAT then popped
      else
        State(false, 0, 0, 0, [], [], st.nextId,
              st.dumps + [Dump(st.requestId, TotalNs(st.startNs, op.requestClock, op.lateClock), popped.spans)])
  }

  function Step(st: State, op: Op): State {
    match op
    case Enter(_, _, _, _, _, _, _) => Entered(st, op)
    case Exit(_, _, _, _, _, _, _) => Exited(st, op)
  }

  function Run(st: State, ops: seq<Op>): State
    decreases |ops|
  {
    if ops == [] then st else Run(Step(st, ops[0]), ops[1..])
  }

  function Idle(nextId: nat, dumps: seq<Dump>): State {
    State(false, 0, 0, 0, [], [], nextId, dumps)
  }

  // ---------- Any run, balanced or not ----------

  ghost predicate DepthsArePositions(st: State) {
    forall i | 0 <= i < |st.stack| :: st.stack[i].depth == i
  }

  /** Whatever the calls, the open span at position `i` from the bottom has depth `i`. */
  lemma {:induction false} DepthsStayPositions(st: State, ops: seq<Op>)
    requires DepthsArePositions(st)
    ensures DepthsArePositions(Run(st, ops))
    decreases |ops|
  {
    if ops != [] {
      DepthsStayPositions(Step(st, ops[0]), ops[1..]);
    }
  }

  // ---------- Nothing is lost on any run ----------

  /** A span as it was entered. */
  function Stamp(s: SpanRec): SpanRec {
    s.(endNs := 0, threw := false)
  }

  function Stamped(spans: seq<SpanRec>): seq<SpanRec> {
    seq(|spans|, i requires 0 <= i < |spans| => Stamp(spans[i]))
  }

  /** The spans entered since the open request began, after one more call. */
  function EnteredAfter(entered: seq<SpanRec>, st: State, op: Op): seq<SpanRec> {
    match op
    case Enter(stage, className, methodName, methodDesc, sql, _, spanClock) =>
      if !st.active && !StartsRequest(stage) then entered
      else
        var before := if st.active then entered else [];
        before + [SpanRec(stage, className, methodName, methodDesc, sql, if st.active then |st.stack| else 0,
                          spanClock, 0, false)]
    case Exit(stage, _, _, _, _, _, _) =>
      if st.active && st.stack != [] && stage == TOMCAT then [] else entered
  }

  function EnteredBy(entered: seq<SpanRec>, st: State, ops: seq<Op>): seq<SpanRec>
    decreases |ops|
  {
    if ops == [] then entered else EnteredBy(EnteredAfter(entered, st, ops[0]), Step(st, ops[0]), ops[1..])
  }

  /** Open and finished spans together are the spans entered since the request began, each once. */
  ghost predicate Accounted(entered: seq<SpanRec>, stack: seq<SpanRec>, spans: seq<SpanRec>) {
    multiset(entered) == multiset(Stamped(stack)) + multiset(Stamped(spans))
  }

  lemma StampedSnoc(spans: seq<SpanRec>, s: SpanRec)
    ensures Stamped(spans + [s]) == Stamped(spans) + [Stamp(s)]
  {}

  lemma EnterAccounts(entered: seq<SpanRec>, st: State, op: Op)
    requires op.Enter? && (st.active ==> Accounted(entered, st.stack, st.spans))
    ensures var next := Step(st, op);
      next.active ==> Accounted(EnteredAfter(entered, st, op), next.stack, next.spans)
  {
    var next := Step(st, op);
    if next.active {
      var s := next.stack[|next.stack| - 1];
      assert Stamp(s) == s;
      StampedSnoc(if st.active then st.stack else [], s);
    }
  }

  lemma TopAccounts(entered: seq<SpanRec>, stack: seq<SpanRec>, top: SpanRec, spans: seq<SpanRec>, done: SpanRec)
    requires Accounted(entered, stack + [top], spans) && Stamp(done) == Stamp(top)
    ensures Accounted(entered, stack, spans + [done])
  {
    StampedSnoc(stack, top);
    StampedSnoc(spans, done);
  }

  /** A dump holds all spans of its request but those still open, which are lost with it. */
  lemma ExitAccounts(entered: seq<SpanRec>, st: State, op: Op)
    requires op.Exit? && st.active && Accounted(entered, st.stack, st.spans)
    ensures var next := Step(st, op);
      && (next.active ==> Accounted(EnteredAfter(entered, st, op), next.stack, next.spans))
      && (!next.active ==>
            && st.stack != [] && next.dumps == st.dumps + [next.dumps[|st.dumps|]]
            && Accounted(entered, st.stack[..|st.stack| - 1], next.dumps[|st.dumps|].spans))
  {
    if st.stack != [] {
      var n := |st.stack|;
      var top := st.stack[n - 1];
      assert st.stack == st.stack[..n - 1] + [top];
      TopAccounts(entered, st.stack[..n - 1], top, st.spans, top.(endNs := op.spanClock, threw := op.threw));
    }
  }

  /** Whatever the calls, balanced or not, every span entered since the request began is open or finished, once. */
  lemma {:induction false} EverySpanIsAccounted(entered: seq<SpanRec>, st: State, ops: seq<Op>)
    requires st.active ==> Accounted(entered, st.stack, st.spans)
    ensures var end := Run(st, ops); end.active ==> Accounted(EnteredBy(entered, st, ops), end.stack, end.spans)
    decreases |ops|
  {
    if ops != [] {
      var next := Step(st, ops[0]);
      if ops[0].Enter? {
        EnterAccounts(entered, st, ops[0]);
      } else if st.active {
        ExitAccounts(entered, st, ops[0]);
      }
      EverySpanIsAccounted(EnteredAfter(entered, st, ops[0]), next, ops[1..]);
    }
  }

  // ---------- Well-nested runs ----------

  /** One method call: what its enter and its exit report. */
  datatype Info = Info(
    stage: string, className: string, methodName: string, methodDesc: string, sql: Option<string>,
    requestStart: int, start: int, threw: bool, end: int, requestEnd: int, late: int)

  /** A list of call trees. */
  datatype Forest = Empty | Node(info: Info, children: Forest, next: Forest)

  function EnterOp(i: Info): Op {
    Enter(i.stage, i.className, i.methodName, i.methodDesc, i.sql, i.requestStart, i.start)
  }

  function ExitOp(i: Info): Op {
    Exit(i.stage, i.className, i.methodName, i.threw, i.end, i.requestEnd, i.late)
  }

  /** The instrumentation calls of a well-nested execution. */
  function Ops(f: Forest): seq<Op> {
    match f
    case Empty => []
    case Node(i, children, next) => [EnterOp(i)] + Ops(children) + [ExitOp(i)] + Ops(next)
  }

  function RecOf(i: Info, depth: nat): SpanRec {
    SpanRec(i.stage, i.className, i.methodName, i.methodDesc, i.sql, depth, i.start, i.end, i.threw)
  }

  /** All calls, callees before callers, each at its nesting depth. */
  function PostOrder(f: Forest, depth: nat): seq<SpanRec> {
    match f
    case Empty => []
    case Node(i, children, next) => PostOrder(children, depth + 1) + [RecOf(i, depth)] + PostOrder(next, depth)
  }

  predicate NoTomcat(f: Forest) {
    match f
    case Empty => true
    case Node(i, children, next) => i.stage != TOMCAT && NoTomcat(children) && NoTomcat(next)
  }

  /** SPRING_MVC occurs only under TOMCAT, and TOMCAT never nests. */
  predicate RequestsAreRooted(f: Forest) {
    match f
    case Empty => true
    case Node(i, children, next) =>
      && (if i.stage == TOMCAT then NoTomcat(children) else i.stage != SPRING_MVC && RequestsAreRooted(children))
      && RequestsAreRooted(next)
  }

  /** One dump per TOMCAT subtree, in order, numbered from `id`. */
  function Requests(f: Forest, id: nat): seq<Dump>
    decreases f, 0
  {
    match f
    case Empty => []
    case Node(i, children, next) =>
      RequestsOfCall(i, children, id) + Requests(next, id + |RequestsOfCall(i, children, id)|)
  }

  function RequestsOfCall(i: Info, children: Forest, id: nat): seq<Dump>
    decreases children, 1
  {
    if i.stage == TOMCAT then
      [Dump(id, TotalNs(i.requestStart, i.requestEnd, i.late), PostOrder(children, 1) + [RecOf(i, 0)])]
    else Requests(children, id)
  }

  lemma {:induction false} RunSplit(st: State, a: seq<Op>, b: seq<Op>)
    ensures Run(st, a + b) == Run(Run(st, a), b)
    decreases |a|
  {
    if a == [] {
      assert a + b == b;
    } else {
      assert (a + b)[1..] == a[1..] + b;
      RunSplit(Step(st, a[0]), a[1..], b);
    }
  }

  lemma RunOne(st: State, op: Op)
    ensures Run(st, [op]) == Step(st, op)
  {
    assert [op][1..] == [];
  }

  lemma RunNode(st: State, i: Info, children: Forest, next: Forest)
    ensures Run(st, Ops(Node(i, children, next))) ==
      Run(Step(Run(Step(st, EnterOp(i)), Ops(children)), ExitOp(i)), Ops(next))
  {
    var a, b, c, d := [EnterOp(i)], Ops(children), [ExitOp(i)], Ops(next);
    RunSplit(st, a + b + c, d);
    RunSplit(st, a + b, c);
    RunSplit(st, a, b);
    RunOne(st, EnterOp(i));
    RunOne(Run(st, a + b), ExitOp(i));
  }

  /** Inside a request a balanced run pops what it pushed and lists its calls in post-order. */
  lemma {:induction false} InsideRequest(st: State, f: Forest)
    requires st.active && NoTomcat(f)
    ensures Run(st, Ops(f)) == st.(spans := st.spans + PostOrder(f, |st.stack|))
    decreases f
  {
    match f
    case Empty =>
      assert st.spans + [] == st.spans;
    case Node(i, children, next) =>
      RunNode(st, i, children, next);
      var pushed := Step(st, EnterOp(i));
      InsideRequest(pushed, children);
      var back := Step(Run(pushed, Ops(children)), ExitOp(i));
      var depth := |st.stack|;
      assert pushed.stack[..depth] == st.stack;
      assert back == st.(spans := st.spans + PostOrder(children, depth + 1) + [RecOf(i, depth)]);
      InsideRequest(back, next);
      assert back.spans + PostOrder(next, depth) == st.spans + PostOrder(f, depth);
  }

  /** From the idle state, the dumps are exactly the TOMCAT subtrees, and the tracer is idle again. */
  lemma {:induction false} TracingComputesPostOrder(nextId: nat, dumps: seq<Dump>, f: Forest)
    requires RequestsAreRooted(f)
    ensures Run(Idle(nextId, dumps), Ops(f)) ==
      Idle(nextId + |Requests(f, nextId)|, dumps + Requests(f, nextId))
    decreases f, 0
  {
    match f
    case Empty =>
      assert dumps + [] == dumps;
    case Node(i, children, next) =>
      var here := RequestsOfCall(i, children, nextId);
      var rest := Requests(next, nextId + |here|);
      assert Requests(f, nextId) == here + rest && dumps + (here + rest) == dumps + here + rest;
      RunNode(Idle(nextId, dumps), i, children, next);
      TracingOneCall(nextId, dumps, i, children);
      TracingComputesPostOrder(nextId + |here|, dumps + here, next);
  }

  lemma {:induction false} TracingOneCall(nextId: nat, dumps: seq<Dump>, i: Info, children: Forest)
    requires RequestsAreRooted(Node(i, children, Empty))
    ensures var here := RequestsOfCall(i, children, nextId);
      Step(Run(Step(Idle(nextId, dumps), EnterOp(i)), Ops(children)), ExitOp(i)) ==
        Idle(nextId + |here|, dumps + here)
    decreases children, 1
  {
    if i.stage == TOMCAT {
      InsideRequest(Step(Idle(nextId, dumps), EnterOp(i)), children);
      assert [] + PostOrder(children, 1) == PostOrder(children, 1);
    } else {
      TracingComputesPostOrder(nextId, dumps, children);
    }
  }

  /** What a request's dump says of the whole and of its root, reading by reading. */
  lemma DumpOfCall(nextId: nat, dumps: seq<Dump>, i: Info, children: Forest)
    requires i.stage == "TOMCAT" && NoTomcat(children)
    ensures var st := Step(Run(Step(Idle(nextId, dumps), EnterOp(i)), Ops(children)), ExitOp(i));
      && st.dumps != [] && st.dumps[..|st.dumps| - 1] == dumps && st.nextId == nextId + 1 && !st.active
      && var d := st.dumps[|st.dumps| - 1];
      && d.requestId == nextId
      && (i.requestEnd != 0 && i.requestEnd > i.requestStart ==> d.totalNs == i.requestEnd - i.requestStart)
      && (i.requestEnd == 0 && i.late > i.requestStart ==> d.totalNs == i.late - i.requestStart)
      && ((if i.requestEnd == 0 then i.late else i.requestEnd) <= i.requestStart ==> d.totalNs == 0)
      && d.spans != []
      && var root := d.spans[|d.spans| - 1];
      && root.stage == "TOMCAT" && root.className == i.className && root.methodName == i.methodName
      && root.methodDesc == i.methodDesc && root.sql == i.sql
      && root.depth == 0 && root.startNs == i.start && root.endNs == i.end && root.threw == i.threw
  {
    TracingOneCall(nextId, dumps, i, children);
  }

  /** Without a TOMCAT root a balanced SPRING_MVC call leaves its request open, undumped. */
  lemma UnrootedRequestStaysOpen(nextId: nat, dumps: seq<Dump>, i: Info, children: Forest)
    requires i.stage == "SPRING_MVC" && NoTomcat(children)
    ensures var st := Run(Idle(nextId, dumps), Ops(Node(i, children, Empty)));
      st.active && st.stack == [] && st.dumps == dumps && st.spans == PostOrder(children, 1) + [RecOf(i, 0)]
  {
    RunNode(Idle(nextId, dumps), i, children, Empty);
    InsideRequest(Step(Idle(nextId, dumps), EnterOp(i)), children);
    assert [] + PostOrder(children, 1) == PostOrder(children, 1);
  }

  // ---------- Intervals ----------

  /** The clock readings of the spans, in the order in which they are taken. */
  function Clock(f: Forest): seq<int> {
    match f
    case Empty => []
    case Node(i, children, next) => [i.start] + Clock(children) + [i.end] + Clock(next)
  }

  ghost predicate Sorted(ts: seq<int>) {
    forall a, b | 0 <= a < b < |ts| :: ts[a] <= ts[b]
  }

  /** Every call lies between the bounds, inside its caller and after its elder siblings. */
  predicate Nested(f: Forest, lo: int, hi: int) {
    match f
    case Empty => lo <= hi
    case Node(i, children, next) => lo <= i.start && Nested(children, i.start, i.end) && Nested(next, i.end, hi)
  }

  /** A clock that never runs backwards nests the intervals, and only such a clock does. */
  lemma {:induction false} SteadyClockNests(f: Forest, lo: int, hi: int)
    ensures Nested(f, lo, hi) <==> Sorted([lo] + Clock(f) + [hi])
    decreases f
  {
    match f
    case Empty =>
      var all := [lo] + Clock(f) + [hi];
      assert all == [lo, hi];
      if Sorted(all) {
        assert all[0] <= all[1];
      }
    case Node(i, children, next) =>
      SteadyClockNests(children, i.start, i.end);
      SteadyClockNests(next, i.end, hi);
      SortedNode(lo, i.start, Clock(children), i.end, Clock(next), hi);
  }

  lemma SortedNode(lo: int, start: int, inner: seq<int>, end: int, rest: seq<int>, hi: int)
    ensures Sorted([lo] + ([start] + inner + [end] + rest) + [hi])
      <==> lo <= start && Sorted([start] + inner + [end]) && Sorted([end] + rest + [hi])
  {
    SortedOverlap([lo, start] + inner, end, rest + [hi]);
    SortedPrepend(lo, [start] + inner + [end]);
    assert [lo] + ([start] + inner + [end] + rest) + [hi] == [lo, start] + inner + [end] + (rest + [hi]);
    assert [lo, start] + inner + [end] == [lo] + ([start] + inner + [end]);
    assert [end] + (rest + [hi]) == [end] + rest + [hi];
  }

  lemma SortedPrepend(lo: int, ts: seq<int>)
    requires ts != []
    ensures Sorted([lo] + ts) <==> lo <= ts[0] && Sorted(ts)
  {
    var all := [lo] + ts;
    if Sorted(all) {
      assert all[0] <= all[1];
      forall i, j | 0 <= i < j < |ts| ensures ts[i] <= ts[j] {
        assert all[i + 1] <= all[j + 1];
      }
    }
    if lo <= ts[0] && Sorted(ts) {
      forall i, j | 0 <= i < j < |all| ensures all[i] <= all[j] {
        assert all[j] == ts[j - 1];
        if i > 0 {
          assert all[i] == ts[i - 1];
        }
      }
    }
  }

  lemma SortedOverlap(a: seq<int>, m: int, b: seq<int>)
    ensures Sorted(a + [m] + b) <==> Sorted(a + [m]) && Sorted([m] + b)
  {
    var all, left, right := a + [m] + b, a + [m], [m] + b;
    assert forall i | 0 <= i < |left| :: all[i] == left[i];
    assert forall i | |a| <= i < |all| :: all[i] == right[i - |a|];
    if Sorted(left) && Sorted(right) {
      forall i, j | 0 <= i < j < |all| ensures all[i] <= all[j] {
        if i <= |a| && |a| <= j {
          assert i == |a| || left[i] <= left[|a|];
          assert j == |a| || right[0] <= right[j - |a|];
        } else if j < |a| {
          assert left[i] <= left[j];
        } else {
          assert right[i - |a|] <= right[j - |a|];
        }
      }
    }
    if Sorted(all) {
      forall i, j | 0 <= i < j < |right| ensures right[i] <= right[j] {
        assert all[|a| + i] <= all[|a| + j];
      }
    }
  }

  function SumAtDepth(spans: seq<SpanRec>, depth: nat): nat {
    if spans == [] then 0
    else (if spans[0].depth == depth then DurationNs(spans[0]) else 0) + SumAtDepth(spans[1..], depth)
  }

  lemma {:induction false} SumAtDepthSplit(a: seq<SpanRec>, b: seq<SpanRec>, depth: nat)
    ensures SumAtDepth(a + b, depth) == SumAtDepth(a, depth) + SumAtDepth(b, depth)
  {
    if a == [] {
      assert a + b == b;
    } else {
      assert (a + b)[1..] == a[1..] + b;
      SumAtDepthSplit(a[1..], b, depth);
    }
  }

  lemma {:induction false} NothingAbove(f: Forest, base: nat, depth: nat)
    requires depth < base
    ensures SumAtDepth(PostOrder(f, base), depth) == 0
    decreases f
  {
    match f
    case Empty =>
    case Node(i, children, next) =>
      NothingAbove(children, base + 1, depth);
      NothingAbove(next, base, depth);
      SumNode(i, children, next, base, depth);
  }

  lemma SumNode(i: Info, children: Forest, next: Forest, base: nat, depth: nat)
    ensures SumAtDepth(PostOrder(Node(i, children, next), base), depth) ==
      SumAtDepth(PostOrder(children, base + 1), depth) + (if base == depth then Max(0, i.end - i.start) else 0)
      + SumAtDepth(PostOrder(next, base), depth)
  {
    SumAtDepthSplit(PostOrder(children, base + 1) + [RecOf(i, base)], PostOrder(next, base), depth);
    SumAtDepthSplit(PostOrder(children, base + 1), [RecOf(i, base)], depth);
    assert [RecOf(i, base)][1..] == [];
  }

  lemma {:induction false} NestedBounds(f: Forest, lo: int, hi: int)
    requires Nested(f, lo, hi)
    ensures lo <= hi
    decreases f
  {
    if f.Node? {
      NestedBounds(f.children, f.info.start, f.info.end);
      NestedBounds(f.next, f.info.end, hi);
    }
  }

  /** Calls at one depth cannot overlap: together they take no longer than the interval that holds them. */
  lemma {:induction false} EachDepthFits(f: Forest, lo: int, hi: int, base: nat, depth: nat)
    requires Nested(f, lo, hi)
    ensures lo <= hi && SumAtDepth(PostOrder(f, base), depth) <= hi - lo
    decreases f
  {
    NestedBounds(f, lo, hi);
    match f
    case Empty =>
    case Node(i, children, next) =>
      SumNode(i, children, next, base, depth);
      NestedBounds(children, i.start, i.end);
      EachDepthFits(next, i.end, hi, base, depth);
      if base == depth {
        NothingAbove(children, base + 1, depth);
      } else {
        EachDepthFits(children, i.start, i.end, base + 1, depth);
      }
  }

  /** A call takes at least as long as its direct callees together. */
  lemma CalleesFit(i: Info, children: Forest, lo: int, hi: int, depth: nat)
    requires Nested(Node(i, children, Empty), lo, hi)
    ensures SumAtDepth(PostOrder(children, depth + 1), depth + 1) <= DurationNs(RecOf(i, depth))
  {
    EachDepthFits(children, i.start, i.end, depth + 1, depth + 1);
  }

  /** The spans of a request at any one depth add up to at most the request's reported time. */
  lemma RequestDepthsFit(i: Info, children: Forest, depth: nat)
    requires i.stage == TOMCAT && NoTomcat(children)
    requires Sorted([i.requestStart, i.start] + Clock(children) + [i.end, i.requestEnd, i.late])
    ensures var dump := RequestsOfCall(i, children, 0)[0];
      SumAtDepth(dump.spans, depth) <= dump.totalNs
  {
    var all := [i.requestStart, i.start] + Clock(children) + [i.end, i.requestEnd, i.late];
    var inner := [i.start] + Clock(children) + [i.end];
    assert forall k | 0 <= k < |inner| :: inner[k] == all[k + 1];
    SteadyClockNests(children, i.start, i.end);
    NestedBounds(children, i.start, i.end);
    var f := Node(i, children, Empty);
    assert all[0] <= all[1] && all[|all| - 3] <= all[|all| - 2] <= all[|all| - 1];
    EachDepthFits(f, i.requestStart, i.requestEnd, 0, depth);
    assert PostOrder(f, 0) == PostOrder(children, 1) + [RecOf(i, 0)];
  }
}
