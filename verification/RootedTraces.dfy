/** The exact condition under which tracing dumps the TOMCAT subtrees and nothing else. */
module RootedTraces {
  import opened Tracers

  /** The shape of a properly rooted dump: the root, and only the root, has depth 0, and it comes last. */
  ghost predicate RootedDump(d: Dump) {
    && d.spans != []
    && (forall i | 0 <= i < |d.spans| :: d.spans[i].depth == 0 <==> i == |d.spans| - 1)
    && d.spans[|d.spans| - 1].stage == TOMCAT
  }

  /** Some dump from the `n`-th on is not properly rooted. */
  ghost predicate Spoiled(st: State, n: nat) {
    exists k :: n <= k < |st.dumps| && !RootedDump(st.dumps[k])
  }

  predicate WrongRoot(s: SpanRec) {
    s.depth == 0 && s.stage != TOMCAT
  }

  /** A request is open whose outermost call is no TOMCAT call. */
  ghost predicate Unrooted(st: State) {
    && st.active && DepthsArePositions(st)
    && ((st.stack != [] && WrongRoot(st.stack[0])) || exists i :: 0 <= i < |st.spans| && WrongRoot(st.spans[i]))
  }

  ghost predicate Lost(st: State, n: nat) {
    Spoiled(st, n) || (Unrooted(st) && n <= |st.dumps|)
  }

  lemma StepKeepsDumps(st: State, op: Op)
    ensures st.dumps <= Step(st, op).dumps
  {}

  lemma SpoiledStays(st: State, op: Op, n: nat)
    requires Spoiled(st, n)
    ensures Spoiled(Step(st, op), n)
  {
    StepKeepsDumps(st, op);
    var k :| n <= k < |st.dumps| && !RootedDump(st.dumps[k]);
    assert Step(st, op).dumps[k] == st.dumps[k];
  }

  lemma UnrootedEnter(st: State, op: Op)
    requires Unrooted(st) && op.Enter?
    ensures Unrooted(Step(st, op)) && Step(st, op).dumps == st.dumps
  {
    assert st.stack != [] ==> Step(st, op).stack[0] == st.stack[0];
    assert Step(st, op).spans == st.spans;
  }

  lemma UnrootedDump(st: State, top: SpanRec, d: Dump)
    requires Unrooted(st) && st.stack != [] && d.spans == st.spans + [top]
    requires top.depth == |st.stack| - 1 && top.stage == st.stack[|st.stack| - 1].stage
    ensures !RootedDump(d)
  {
    var n := |st.spans|;
    assert d.spans[n] == top;
    if i :| 0 <= i < n && WrongRoot(st.spans[i]) {
      assert d.spans[i] == st.spans[i];
    }
  }

  lemma UnrootedExit(st: State, op: Op)
    requires Unrooted(st) && op.Exit?
    ensures Unrooted(Step(st, op)) || Spoiled(Step(st, op), |st.dumps|)
    ensures st.dumps <= Step(st, op).dumps
  {
    if st.stack != [] {
      var n := |st.stack|;
      var top := st.stack[n - 1].(endNs := op.spanClock, threw := op.threw);
      var after := Step(st, op);
      if op.stage == TOMCAT {
        UnrootedDump(st, top, after.dumps[|st.dumps|]);
      } else {
        assert after.spans[|st.spans|] == top;
        assert forall i | 0 <= i < |st.spans| :: after.spans[i] == st.spans[i];
        assert n > 1 ==> after.stack[0] == st.stack[0];
      }
    }
  }

  /** Once a request has the wrong root, the run either leaves it open or dumps it wrongly. */
  lemma LostStep(st: State, op: Op, n: nat)
    requires Lost(st, n)
    ensures Lost(Step(st, op), n)
  {
    if Spoiled(st, n) {
      SpoiledStays(st, op, n);
    } else if op.Enter? {
      UnrootedEnter(st, op);
    } else {
      UnrootedExit(st, op);
    }
  }

  lemma {:induction false} LostForEver(st: State, ops: seq<Op>, n: nat)
    requires Lost(st, n)
    ensures Lost(Run(st, ops), n)
    decreases |ops|
  {
    if ops != [] {
      LostStep(st, ops[0], n);
      LostForEver(Step(st, ops[0]), ops[1..], n);
    }
  }

  /** The rest of a node's run after its enter and its callees. */
  lemma LostInNode(st: State, i: Info, children: Forest, next: Forest, n: nat)
    requires Lost(Run(Step(st, EnterOp(i)), Ops(children)), n)
    ensures Lost(Run(st, Ops(Node(i, children, next))), n)
  {
    RunNode(st, i, children, next);
    var inner := Run(Step(st, EnterOp(i)), Ops(children));
    LostStep(inner, ExitOp(i), n);
    LostForEver(Step(inner, ExitOp(i)), Ops(next), n);
  }

  /** A TOMCAT call that ends inside another call dumps without a root. */
  lemma InnerTomcatSpoils(st: State, i: Info, children: Forest)
    requires st.active && st.stack != [] && i.stage == TOMCAT && NoTomcat(children)
    ensures Spoiled(Step(Run(Step(st, EnterOp(i)), Ops(children)), ExitOp(i)), |st.dumps|)
  {
    var pushed := Step(st, EnterOp(i));
    InsideRequest(pushed, children);
    var after := Step(Run(pushed, Ops(children)), ExitOp(i));
    var d := after.dumps[|st.dumps|];
    assert d.spans[|d.spans| - 1].depth == |st.stack|;
  }

  lemma {:induction false} NestedTomcatSpoils(st: State, f: Forest)
    requires st.active && st.stack != [] && !NoTomcat(f)
    ensures Lost(Run(st, Ops(f)), |st.dumps|)
    decreases f
  {
    var i, children, next := f.info, f.children, f.next;
    var pushed := Step(st, EnterOp(i));
    RunNode(st, i, children, next);
    if !NoTomcat(children) {
      NestedTomcatSpoils(pushed, children);
      LostInNode(st, i, children, next, |st.dumps|);
    } else if i.stage == TOMCAT {
      InnerTomcatSpoils(st, i, children);
      LostForEver(Step(Run(pushed, Ops(children)), ExitOp(i)), Ops(next), |st.dumps|);
    } else {
      InsideRequest(pushed, children);
      var back := Step(Run(pushed, Ops(children)), ExitOp(i));
      assert pushed.stack[..|st.stack|] == st.stack;
      NestedTomcatSpoils(back, next);
    }
  }

  predicate RootedCall(i: Info, children: Forest) {
    if i.stage == TOMCAT then NoTomcat(children) else i.stage != SPRING_MVC && RequestsAreRooted(children)
  }

  lemma {:induction false} UnrootedIsLost(id: nat, dumps: seq<Dump>, f: Forest)
    requires !RequestsAreRooted(f)
    ensures Lost(Run(Idle(id, dumps), Ops(f)), |dumps|)
    decreases f
  {
    var i, children, next := f.info, f.children, f.next;
    var st := Idle(id, dumps);
    var pushed := Step(st, EnterOp(i));
    if RootedCall(i, children) {
      var here := RequestsOfCall(i, children, id);
      RunNode(st, i, children, next);
      TracingOneCall(id, dumps, i, children);
      UnrootedIsLost(id + |here|, dumps + here, next);
      FewerDumps(Run(st, Ops(f)), |dumps|, |dumps + here|);
    } else {
      if i.stage == TOMCAT {
        NestedTomcatSpoils(pushed, children);
      } else if i.stage == SPRING_MVC {
        assert WrongRoot(pushed.stack[0]);
        LostForEver(pushed, Ops(children), |dumps|);
      } else {
        UnrootedIsLost(id, dumps, children);
      }
      LostInNode(st, i, children, next, |dumps|);
    }
  }

  lemma FewerDumps(st: State, n: nat, m: nat)
    requires Lost(st, m) && n <= m
    ensures Lost(st, n)
  {
    if Spoiled(st, m) {
      var k :| m <= k < |st.dumps| && !RootedDump(st.dumps[k]);
      assert Spoiled(st, n);
    }
  }

  lemma {:induction false} InnerDepths(f: Forest, depth: nat)
    ensures forall k | 0 <= k < |PostOrder(f, depth)| :: PostOrder(f, depth)[k].depth >= depth
    decreases f
  {
    if f.Node? {
      InnerDepths(f.children, depth + 1);
      InnerDepths(f.next, depth);
    }
  }

  lemma {:induction false} RequestsAreRootedDumps(f: Forest, id: nat)
    ensures forall k | 0 <= k < |Requests(f, id)| :: RootedDump(Requests(f, id)[k])
    decreases f, 0
  {
    if f.Node? {
      RequestOfCallIsRooted(f.info, f.children, id);
      RequestsAreRootedDumps(f.next, id + |RequestsOfCall(f.info, f.children, id)|);
    }
  }

  lemma {:induction false} RequestOfCallIsRooted(i: Info, children: Forest, id: nat)
    ensures forall k | 0 <= k < |RequestsOfCall(i, children, id)| :: RootedDump(RequestsOfCall(i, children, id)[k])
    decreases children, 1
  {
    if i.stage == TOMCAT {
      InnerDepths(children, 1);
    } else {
      RequestsAreRootedDumps(children, id);
    }
  }

  lemma RootedIsNotSpoiled(st: State, dumps: seq<Dump>, more: seq<Dump>)
    requires st.dumps == dumps + more && forall k | 0 <= k < |more| :: RootedDump(more[k])
    ensures !Spoiled(st, |dumps|)
  {
    forall k | |dumps| <= k < |st.dumps| ensures RootedDump(st.dumps[k]) {
      assert st.dumps[k] == more[k - |dumps|];
    }
  }

  /**
   * From the idle state a balanced run dumps exactly its TOMCAT subtrees and ends idle if and only if SPRING_MVC
   * occurs only under TOMCAT and TOMCAT never nests.
   */
  lemma TracesExactlyWhenRooted(id: nat, dumps: seq<Dump>, f: Forest)
    ensures Run(Idle(id, dumps), Ops(f)) == Idle(id + |Requests(f, id)|, dumps + Requests(f, id))
      <==> RequestsAreRooted(f)
  {
    if RequestsAreRooted(f) {
      TracingComputesPostOrder(id, dumps, f);
    } else {
      var st := Run(Idle(id, dumps), Ops(f));
      UnrootedIsLost(id, dumps, f);
      RequestsAreRootedDumps(f, id);
      if st.dumps == dumps + Requests(f, id) {
        RootedIsNotSpoiled(st, dumps, Requests(f, id));
      }
    }
  }
}
