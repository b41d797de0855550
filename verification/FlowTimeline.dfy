/** The agent's mutable objects: spans, a thread's timeline, and the tracer that drives them. */
module FlowTimelines {
  import opened Tracers
  import opened Wrappers

  class Span {
    const stage: string
    const className: string
    const methodName: string
    const methodDesc: string
    const sql: Option<string>
    const depth: nat
    const startNs: int
    var endNs: int
    var threw: bool

    constructor (stage: string, className: string, methodName: string, methodDesc: string, sql: Option<string>,
                 depth: nat, startNs: int)
      ensures Rec() == SpanRec(stage, className, methodName, methodDesc, sql, depth, startNs, 0, false)
    {
      this.stage, this.className, this.methodName, this.methodDesc := stage, className, methodName, methodDesc;
      this.sql, this.depth, this.startNs := sql, depth, startNs;
      endNs, threw := 0, false;
    }

    ghost function Rec(): SpanRec
      reads this
    {
      SpanRec(stage, className, methodName, methodDesc, sql, depth, startNs, endNs, threw)
    }

    method Finish(endNs: int, threw: bool)
      modifies this
      ensures Rec() == old(Rec()).(endNs := endNs, threw := threw)
    {
      this.endNs, this.threw := endNs, threw;
    }
  }

  ghost function Recs(ss: seq<Span>): seq<SpanRec>
    reads ss
  {
    seq(|ss|, i requires 0 <= i < |ss| reads ss => ss[i].Rec())
  }

  lemma RecsSnoc(ss: seq<Span>, s: Span)
    ensures Recs(ss + [s]) == Recs(ss) + [s.Rec()]
  {}

  ghost predicate Distinct(ss: seq<Span>) {
    forall i, j | 0 <= i < j < |ss| :: ss[i] != ss[j]
  }

  /** Every entered span is in exactly one of the two lists, once; an open span's depth is its position. */
  ghost predicate Partition(entered: seq<Span>, stack: seq<Span>, spans: seq<Span>) {
    && multiset(entered) == multiset(stack) + multiset(spans)
    && Distinct(stack) && Distinct(spans) && (forall s :: s in stack ==> s !in spans)
    && (forall i | 0 <= i < |stack| :: stack[i].depth == i)
  }

  lemma PushKeepsPartition(entered: seq<Span>, stack: seq<Span>, spans: seq<Span>, s: Span)
    requires Partition(entered, stack, spans) && s !in stack && s !in spans && s.depth == |stack|
    ensures Partition(entered + [s], stack + [s], spans)
  {}

  lemma MoveKeepsPartition(entered: seq<Span>, stack: seq<Span>, spans: seq<Span>, top: Span)
    requires Partition(entered, stack + [top], spans)
    ensures Partition(entered, stack, spans + [top]) && top !in stack && top !in spans
  {
    var all := stack + [top];
    assert all[|stack|] == top;
    assert forall i | 0 <= i < |stack| :: stack[i] == all[i];
    assert top in all;
    assert forall s | s in stack :: s in all;
  }

  class FlowTimeline {
    var active: bool
    var requestId: nat
    var startNs: int
    var endNs: int
    /** Oldest open span first. */
    var stack: seq<Span>
    var spans: seq<Span>

    constructor ()
      ensures !active && requestId == 0 && startNs == 0 && endNs == 0 && stack == [] && spans == []
    {
      active, requestId, startNs, endNs, stack, spans := false, 0, 0, 0, [], [];
    }

    method Start(requestId: nat, clock: int)
      modifies this
      ensures active && this.requestId == requestId && startNs == clock && endNs == 0 && stack == [] && spans == []
    {
      active, this.requestId, startNs, endNs := true, requestId, clock, 0;
      stack, spans := [], [];
    }

    method Finish(clock: int)
      modifies this`endNs, this`active
      ensures endNs == clock && !active
    {
      endNs := clock;
      active := false;
    }

    method Total(lateClock: int) returns (ns: nat)
      ensures ns == TotalNs(startNs, endNs, lateClock)
      ensures endNs != 0 && endNs > startNs ==> ns == endNs - startNs
      ensures endNs == 0 && lateClock > startNs ==> ns == lateClock - startNs
    {
      var effectiveEnd := if endNs == 0 then lateClock else endNs;
      ns := if effectiveEnd - startNs > 0 then effectiveEnd - startNs else 0;
    }

    method Push(span: Span)
      modifies this`stack
      ensures stack == old(stack) + [span]
    {
      stack := stack + [span];
    }

    /** The names are compared, but the youngest span is popped either way. */
    method Pop(className: string, methodName: string) returns (span: Span?)
      modifies this`stack
      ensures old(stack) == [] ==> span == null && stack == []
      ensures old(stack) != [] ==> span != null && stack + [span] == old(stack)
    {
      if stack == [] {
        return null;
      }
      var top := stack[|stack| - 1];
      if top.className == className && top.methodName == methodName {
        stack := stack[..|stack| - 1];
        return top;
      }
      stack := stack[..|stack| - 1];
      return top;
    }

    method Add(span: Span)
      modifies this`spans
      ensures spans == old(spans) + [span]
    {
      spans := spans + [span];
    }

    method Reset()
      modifies this
      ensures !active && requestId == 0 && startNs == 0 && endNs == 0 && stack == [] && spans == []
    {
      active, requestId, startNs, endNs := false, 0, 0, 0;
      stack, spans := [], [];
    }
  }

  class Tracer {
    const timeline: FlowTimeline
    var nextId: nat
    var dumps: seq<Dump>
    /** The spans entered since the current request started. */
    ghost var Opened: seq<Span>

    ghost predicate Valid()
      reads this, timeline
    {
      Partition(Opened, timeline.stack, timeline.spans)
    }

    ghost function Abstract(): State
      reads this, timeline, timeline.stack, timeline.spans
    {
      State(timeline.active, timeline.requestId, timeline.startNs, timeline.endNs,
            Recs(timeline.stack), Recs(timeline.spans), nextId, dumps)
    }

    constructor (nextId: nat)
      ensures Valid() && fresh(timeline) && Abstract() == Idle(nextId, [])
    {
      timeline := new FlowTimeline();
      this.nextId, dumps, Opened := nextId, [], [];
    }

    /** Pushes a new span; nothing else changes. */
    method Open(op: Op)
      requires Valid() && op.Enter?
      modifies this`Opened, timeline`stack
      ensures Valid()
      ensures timeline.stack != [] && fresh(timeline.stack[|timeline.stack| - 1])
      ensures Opened == old(Opened) + [timeline.stack[|timeline.stack| - 1]]
      ensures Abstract() == old(Abstract()).(stack := old(Abstract()).stack
        + [SpanRec(op.stage, op.className, op.methodName, op.methodDesc, op.sql, |old(timeline.stack)|,
                   op.spanClock, 0, false)])
    {
      var span := new Span(op.stage, op.className, op.methodName, op.methodDesc, op.sql,
                           |timeline.stack|, op.spanClock);
      RecsSnoc(timeline.stack, span);
      PushKeepsPartition(Opened, timeline.stack, timeline.spans, span);
      timeline.Push(span);
      Opened := Opened + [span];
    }

    method Enter(op: Op)
      requires Valid() && op.Enter?
      modifies this, timeline
      ensures Valid() && Abstract() == Entered(old(Abstract()), op)
      ensures !timeline.active ==> Opened == old(Opened)
      ensures timeline.active ==>
        && timeline.stack != [] && fresh(timeline.stack[|timeline.stack| - 1])
        && Opened == (if old(timeline.active) then old(Opened) else []) + [timeline.stack[|timeline.stack| - 1]]
    {
      if !timeline.active && (op.stage == TOMCAT || op.stage == SPRING_MVC) {
        timeline.Start(nextId, op.requestClock);
        nextId := nextId + 1;
        Opened := [];
      }
      if !timeline.active {
        return;
      }
      assert Abstract() ==
        if !old(timeline.active) then State(true, old(nextId), op.requestClock, 0, [], [], old(nextId) + 1, dumps)
        else old(Abstract());
      Open(op);
    }

    /** Stamps a span that is in neither list, and appends it to the finished ones. */
    method Retire(span: Span, op: Op)
      requires op.Exit? && span !in timeline.stack && span !in timeline.spans
      modifies span, timeline`spans
      ensures timeline.spans == old(timeline.spans) + [span]
      ensures Recs(timeline.stack) == old(Recs(timeline.stack))
      ensures Recs(timeline.spans) ==
        old(Recs(timeline.spans)) + [old(span.Rec()).(endNs := op.spanClock, threw := op.threw)]
    {
      span.Finish(op.spanClock, op.threw);
      assert Recs(timeline.stack) == old(Recs(timeline.stack));
      assert Recs(timeline.spans) == old(Recs(timeline.spans));
      RecsSnoc(timeline.spans, span);
      timeline.Add(span);
    }

    /** Pops the youngest open span, which is then in neither list. */
    method TakeYoungest(op: Op) returns (span: Span?)
      requires Valid() && op.Exit?
      modifies timeline`stack
      ensures old(timeline.stack) == [] ==> span == null && timeline.stack == []
      ensures old(timeline.stack) != [] ==>
        && span != null && timeline.stack + [span] == old(timeline.stack)
        && span !in timeline.stack && span !in timeline.spans
        && Partition(Opened, timeline.stack, timeline.spans + [span])
        && Recs(timeline.stack) + [span.Rec()] == old(Recs(timeline.stack))
      ensures Recs(timeline.spans) == old(Recs(timeline.spans))
    {
      span := timeline.Pop(op.className, op.methodName);
      if span != null {
        MoveKeepsPartition(Opened, timeline.stack, timeline.spans, span);
        RecsSnoc(timeline.stack, span);
      }
    }

    /** Moves the youngest open span to the finished list, stamping its end. */
    method Close(op: Op) returns (ok: bool)
      requires Valid() && op.Exit?
      modifies timeline`stack, timeline`spans, timeline.stack
      ensures Valid()
      ensures ok <==> old(timeline.stack) != []
      ensures !ok ==> Abstract() == old(Abstract())
      ensures ok ==>
        var st := old(Abstract());
        var n := |st.stack|;
        && timeline.spans != []
        && Abstract() == st.(stack := st.stack[..n - 1],
                             spans := st.spans + [st.stack[n - 1].(endNs := op.spanClock, threw := op.threw)])
    {
      var span := TakeYoungest(op);
      if span == null {
        return false;
      }
      assert span == old(timeline.stack)[|timeline.stack|];
      ghost var left, top := Recs(timeline.stack), span.Rec();
      assert (left + [top])[..|left|] == left;
      Retire(span, op);
      return true;
    }

    /** Ends the request and hands it on. */
    method Complete(op: Op)
      requires Valid() && op.Exit? && timeline.spans != []
      modifies this, timeline
      ensures Valid() && Opened == []
      ensures var st := old(Abstract());
        Abstract() == State(false, 0, 0, 0, [], [], st.nextId,
          st.dumps + [Dump(st.requestId, TotalNs(st.startNs, op.requestClock, op.lateClock), st.spans)])
    {
      timeline.Finish(op.requestClock);
      DumpTimeline(op.lateClock);
      timeline.Reset();
      Opened := [];
    }

    method Exit(op: Op)
      requires Valid() && op.Exit?
      modifies this, timeline, timeline.stack
      ensures Valid() && Abstract() == Exited(old(Abstract()), op)
      ensures Opened ==
        if old(timeline.active) && old(timeline.stack) != [] && op.stage == TOMCAT then [] else old(Opened)
    {
      if !timeline.active {
        return;
      }
      var ok := Close(op);
      if ok && op.stage == TOMCAT {
        Complete(op);
      }
    }

    method DumpTimeline(lateClock: int)
      modifies this`dumps
      ensures dumps == if timeline.spans == [] then old(dumps) else
        old(dumps) + [Dump(timeline.requestId, TotalNs(timeline.startNs, timeline.endNs, lateClock),
                           Recs(timeline.spans))]
    {
      if timeline.spans == [] {
        return;
      }
      var totalNs := timeline.Total(lateClock);
      var recs: seq<SpanRec> := [];
      for i := 0 to |timeline.spans|
        invariant recs == Recs(timeline.spans)[..i]
      {
        var s := timeline.spans[i];
        assert Recs(timeline.spans)[..i + 1] == Recs(timeline.spans)[..i] + [s.Rec()];
        recs := recs + [SpanRec(s.stage, s.className, s.methodName, s.methodDesc, s.sql, s.depth, s.startNs,
                                s.endNs, s.threw)];
      }
      assert recs == Recs(timeline.spans);
      dumps := dumps + [Dump(timeline.requestId, totalNs, recs)];
    }
  }
}
