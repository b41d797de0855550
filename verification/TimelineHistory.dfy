/** What the timeline table holds and exports, as a function of the whole event history. */
module TimelineHistory {
  import opened Events
  import opened ProbeTable
  import opened Timelines
  import opened Wrappers

  /** Both settings come from the environment; port 0 tracks every port. */
  datatype Config = Config(filterPort: U16, minSteps: nat)

  predicate Passes(cfg: Config, e: Event) {
    cfg.filterPort == 0 || e.dport == cfg.filterPort || e.sport == cfg.filterPort
  }

  function Dispatch(cfg: Config, st: State, e: Event): State {
    if e.kind.TcpV4Rcv? then
      if Passes(cfg, e) then Started(st, e.socketPtr, e) else st
    else if e.kind.TcpSendmsg? then
      Finished(st, e.socketPtr, e, cfg.minSteps)
    else
      Added(st, e.socketPtr, e)
  }

  function Run(cfg: Config, history: seq<Event>): State {
    if history == [] then INITIAL_STATE
    else Dispatch(cfg, Run(cfg, history[..|history| - 1]), history[|history| - 1])
  }

  // ---------- The declarative side ----------

  /** An event that the recorder looks at: a receive that the port filter drops is not one. */
  predicate Relevant(cfg: Config, e: Event) {
    e.kind.TcpV4Rcv? ==> Passes(cfg, e)
  }

  predicate Starts(cfg: Config, e: Event) {
    e.kind.TcpV4Rcv? && Passes(cfg, e)
  }

  /** A socket's own relevant events, in order. */
  function Own(cfg: Config, history: seq<Event>, s: U64): seq<Event> {
    if history == [] then []
    else
      var before, e := Own(cfg, history[..|history| - 1], s), history[|history| - 1];
      if e.socketPtr == s && Relevant(cfg, e) then before + [e] else before
  }

  /** The distinct nonzero sockets that ever start a request, in order of their first start. */
  function Starters(cfg: Config, history: seq<Event>): seq<U64> {
    if history == [] then []
    else
      var before, e := Starters(cfg, history[..|history| - 1]), history[|history| - 1];
      if Starts(cfg, e) && e.socketPtr != 0 && e.socketPtr !in before
      then before + [e.socketPtr] else before
  }

  /** Where a socket's last request starts among its own events; -1 if it never starts one. */
  function LastStart(own: seq<Event>): (r: int)
    ensures -1 <= r < |own|
  {
    if own == [] then -1
    else if own[|own| - 1].kind.TcpV4Rcv? then |own| - 1
    else LastStart(own[..|own| - 1])
  }

  /** A socket's own events since its last start, inclusive. */
  function Window(own: seq<Event>): seq<Event> {
    if LastStart(own) < 0 then [] else own[LastStart(own)..]
  }

  ghost predicate Answered(window: seq<Event>) {
    exists i | 0 <= i < |window| :: window[i].kind.TcpSendmsg?
  }

  function First64(window: seq<Event>): seq<Event> {
    if |window| <= MAX_EVENTS then window else window[..MAX_EVENTS]
  }

  /** Each event with its distance from the one before. */
  function WithDeltas(events: seq<Event>): seq<TimelineEntry> {
    seq(|events|, i requires 0 <= i < |events| =>
      TimelineEntry(events[i], if i == 0 then 0 else Sub64(events[i].timestamp, events[i - 1].timestamp)))
  }

  /** What a socket's slot should hold, given its own events. */
  ghost function Expected(own: seq<Event>): Recording
    requires Window(own) != []
  {
    var window := Window(own);
    if Answered(window) then Recording(window[0].timestamp, false, [])
    else Recording(window[0].timestamp, true, WithDeltas(First64(window)))
  }

  // ---------- Whole-run refinement ----------

  /** The window opens with a receive and holds no other. */
  lemma {:induction false} LastStartMeaning(own: seq<Event>)
    ensures LastStart(own) >= 0 <==> exists j :: 0 <= j < |own| && own[j].kind.TcpV4Rcv?
    ensures LastStart(own) >= 0 ==> own[LastStart(own)].kind.TcpV4Rcv?
    ensures forall j | LastStart(own) < j < |own| :: !own[j].kind.TcpV4Rcv?
  {
    if own != [] {
      LastStartMeaning(own[..|own| - 1]);
    }
  }

  lemma WindowAfter(own: seq<Event>, e: Event)
    ensures Window(own + [e]) ==
      if e.kind.TcpV4Rcv? then [e] else if Window(own) == [] then [] else Window(own) + [e]
  {
    assert (own + [e])[..|own|] == own;
  }

  lemma {:induction false} AppendedIsWithDeltas(window: seq<Event>, e: Event)
    ensures Appended(WithDeltas(First64(window)), e) == WithDeltas(First64(window + [e]))
  {
    if |window| < MAX_EVENTS {
      var before, after := WithDeltas(window), WithDeltas(window + [e]);
      assert forall i | 0 <= i < |window| :: after[i] == before[i];
    } else {
      assert First64(window + [e]) == First64(window);
    }
  }

  lemma AnsweredAfter(window: seq<Event>, e: Event)
    ensures Answered(window + [e]) <==> Answered(window) || e.kind.TcpSendmsg?
  {
    assert (window + [e])[|window|] == e;
    if Answered(window) {
      var i :| 0 <= i < |window| && window[i].kind.TcpSendmsg?;
      assert (window + [e])[i].kind.TcpSendmsg?;
    }
  }

  lemma ExpectedAfter(own: seq<Event>, e: Event)
    requires Window(own) != [] && !e.kind.TcpV4Rcv?
    ensures Window(own + [e]) != []
    ensures var before := Expected(own);
      Expected(own + [e]) ==
        if e.kind.TcpSendmsg? || !before.active then Recording(before.startTs, false, [])
        else before.(entries := Appended(before.entries, e))
  {
    WindowAfter(own, e);
    AnsweredAfter(Window(own), e);
    AppendedIsWithDeltas(Window(own), e);
  }

  function Lookup(st: State, s: U64): Option<Recording> {
    if s in st.held then Some(st.held[s]) else None
  }

  /** One event changes at most the recording of its own socket. */
  lemma DispatchIsLocal(cfg: Config, st: State, e: Event, s: U64)
    requires s != e.socketPtr
    ensures Lookup(Dispatch(cfg, st, e), s) == Lookup(st, s)
  {
  }

  /** It admits a socket only if it starts that socket's first request and there is room. */
  lemma DispatchAdmits(cfg: Config, st: State, e: Event)
    requires |st.held| <= SIZE
    ensures Dispatch(cfg, st, e).held.Keys ==
      if Starts(cfg, e) && e.socketPtr != 0 && |st.held| < SIZE then st.held.Keys + {e.socketPtr} else st.held.Keys
  {
    if Starts(cfg, e) {
      StartAdmits(st, e);
    } else {
      OthersAdmitNone(st, e, cfg.minSteps);
    }
  }

  lemma StartAdmits(st: State, e: Event)
    requires |st.held| <= SIZE
    ensures Started(st, e.socketPtr, e).held.Keys ==
      if e.socketPtr != 0 && |st.held| < SIZE then st.held.Keys + {e.socketPtr} else st.held.Keys
  {
    if e.socketPtr in st.held {
      assert st.held.Keys + {e.socketPtr} == st.held.Keys;
    }
  }

  lemma OthersAdmitNone(st: State, e: Event, minSteps: nat)
    ensures Added(st, e.socketPtr, e).held.Keys == st.held.Keys
    ensures Finished(st, e.socketPtr, e, minSteps).held.Keys == st.held.Keys
  {
    if e.socketPtr in st.held {
      assert st.held.Keys + {e.socketPtr} == st.held.Keys;
    }
  }

  ghost predicate Refines(st: State, own: seq<Event>, s: U64) {
    s in st.held ==> s != 0 && Window(own) != [] && st.held[s] == Expected(own)
  }

  lemma DispatchKeepsRefinement(cfg: Config, st: State, own: seq<Event>, e: Event)
    requires Refines(st, own, e.socketPtr)
    ensures Refines(Dispatch(cfg, st, e), if Relevant(cfg, e) then own + [e] else own, e.socketPtr)
  {
    if e.kind.TcpV4Rcv? {
      WindowAfter(own, e);
      AnsweredAfter([], e);
      AppendedIsWithDeltas([], e);
    } else if e.socketPtr in st.held {
      ExpectedAfter(own, e);
    }
  }

  /** Every held timeline is its socket's own events since its last start, cut to 64, or closed if answered. */
  lemma {:induction false} TimelineRefinement(cfg: Config, history: seq<Event>, s: U64)
    ensures Refines(Run(cfg, history), Own(cfg, history, s), s)
  {
    if history != [] {
      var front, e := history[..|history| - 1], history[|history| - 1];
      TimelineRefinement(cfg, front, s);
      if e.socketPtr == s {
        DispatchKeepsRefinement(cfg, Run(cfg, front), Own(cfg, front, s), e);
      } else {
        DispatchIsLocal(cfg, Run(cfg, front), e, s);
      }
    }
  }

  /** The sockets held are the first 1024 that started a request. */
  lemma {:induction false} HeldAreTheFirstStarters(cfg: Config, history: seq<Event>)
    ensures Run(cfg, history).held.Keys == AdmittedSet(Starters(cfg, history))
    ensures |AdmittedSet(Starters(cfg, history))| == |Admitted(Starters(cfg, history))|
  {
    if history != [] {
      var front, e := history[..|history| - 1], history[|history| - 1];
      HeldAreTheFirstStarters(cfg, front);
      DispatchAdmits(cfg, Run(cfg, front), e);
      AdmittedAfter(Starters(cfg, front), e.socketPtr);
    }
  }

  /** `Starters` lists the nonzero sockets that ever start a request. */
  lemma {:induction false} StartersMeaning(cfg: Config, history: seq<Event>, s: U64)
    ensures s in Starters(cfg, history) <==> s != 0 && LastStart(Own(cfg, history, s)) >= 0
  {
    if history != [] {
      var front, e := history[..|history| - 1], history[|history| - 1];
      StartersMeaning(cfg, front, s);
      if e.socketPtr == s && Relevant(cfg, e) {
        var own := Own(cfg, front, s);
        assert (own + [e])[..|own|] == own;
      }
    }
  }

  /**
   * A socket's own events are its events without the receives that the port filter drops, each once, in order.
   * Port 0 drops none; any other port keeps the receives that come from it or go to it.
   */
  lemma {:induction false} OwnPositions(cfg: Config, history: seq<Event>, s: U64) returns (ps: seq<nat>)
    ensures |ps| == |Own(cfg, history, s)| && forall j, k | 0 <= j < k < |ps| :: ps[j] < ps[k]
    ensures forall k | 0 <= k < |ps| :: ps[k] < |history| && Own(cfg, history, s)[k] == history[ps[k]]
    ensures cfg.filterPort == 0 ==> forall i: nat | i < |history| :: i in ps <==> history[i].socketPtr == s
    ensures cfg.filterPort != 0 ==> forall i: nat | i < |history| :: var e := history[i];
      i in ps <==> e.socketPtr == s && (e.kind != TcpV4Rcv || e.sport == cfg.filterPort || e.dport == cfg.filterPort)
  {
    if history == [] {
      ps := [];
    } else {
      var n := |history| - 1;
      ps := OwnPositions(cfg, history[..n], s);
      if history[n].socketPtr == s && Relevant(cfg, history[n]) {
        ps := ps + [n];
      }
    }
  }

  /** A socket starts a request exactly by a receive: by any without a filter, else by one from or to its port. */
  lemma {:induction false} StartersOnEvents(cfg: Config, history: seq<Event>, s: U64)
    ensures cfg.filterPort == 0 ==>
      (s in Starters(cfg, history)
       <==> s != 0 && exists i | 0 <= i < |history| :: history[i].socketPtr == s && history[i].kind == TcpV4Rcv)
    ensures cfg.filterPort != 0 ==>
      (s in Starters(cfg, history)
       <==> s != 0 && exists i | 0 <= i < |history| ::
         && history[i].socketPtr == s && history[i].kind == TcpV4Rcv
         && (history[i].sport == cfg.filterPort || history[i].dport == cfg.filterPort))
  {
    if history != [] {
      var n := |history| - 1;
      StartersOnEvents(cfg, history[..n], s);
      assert forall i | 0 <= i < n :: history[..n][i] == history[i];
    }
  }

  /** Each starter is listed once, and a longer history only adds starters at the end. */
  lemma {:induction false} StartersAreOrdered(cfg: Config, history: seq<Event>)
    ensures var ss := Starters(cfg, history); forall i, j | 0 <= i < j < |ss| :: ss[i] != ss[j]
    ensures forall n | 0 <= n <= |history| :: Starters(cfg, history[..n]) <= Starters(cfg, history)
  {
    if history != [] {
      var front := history[..|history| - 1];
      StartersAreOrdered(cfg, front);
      assert Starters(cfg, history) == Starters(cfg, front) || (exists s ::
        s !in Starters(cfg, front) && Starters(cfg, history) == Starters(cfg, front) + [s]);
      forall n | 0 <= n <= |history| ensures Starters(cfg, history[..n]) <= Starters(cfg, history) {
        if n < |history| {
          assert history[..n] == front[..n];
        } else {
          assert history[..n] == history;
        }
      }
    }
  }

  // ---------- Isolation ----------

  lemma {:induction false} OwnIsLocal(cfg: Config, history: seq<Event>, s: U64)
    ensures Own(cfg, OfSocket(history, s), s) == Own(cfg, history, s)
  {
    if history != [] {
      OwnIsLocal(cfg, history[..|history| - 1], s);
      var mine := OfSocket(history, s);
      if history[|history| - 1].socketPtr == s {
        assert mine[..|mine| - 1] == OfSocket(history[..|history| - 1], s);
      }
    }
  }

  lemma {:induction false} OnlyItselfStarts(cfg: Config, mine: seq<Event>, s: U64)
    requires forall i | 0 <= i < |mine| :: mine[i].socketPtr == s
    ensures Starters(cfg, mine) == [] || Starters(cfg, mine) == [s]
  {
    if mine != [] {
      OnlyItselfStarts(cfg, mine[..|mine| - 1], s);
    }
  }

  /**
   * Running the collector on one socket's events alone gives that socket the same timeline
   * exactly when the socket was admitted, or never started a request.
   */
  lemma Isolation(cfg: Config, history: seq<Event>, s: U64)
    ensures Lookup(Run(cfg, history), s) == Lookup(Run(cfg, OfSocket(history, s)), s)
      <==> (s in Starters(cfg, history) ==> s in Admitted(Starters(cfg, history)))
  {
    var mine := OfSocket(history, s);
    HeldAreTheFirstStarters(cfg, history);
    HeldAreTheFirstStarters(cfg, mine);
    OwnIsLocal(cfg, history, s);
    StartersMeaning(cfg, history, s);
    StartersMeaning(cfg, mine, s);
    OfSocketIsOfSocket(history, s);
    OnlyItselfStarts(cfg, mine, s);
    if s in Run(cfg, history).held && s in Run(cfg, mine).held {
      TimelineRefinement(cfg, history, s);
      TimelineRefinement(cfg, mine, s);
    }
  }

  // ---------- Exports ----------

  /** The open window that event `p` would close. */
  function WindowAt(cfg: Config, history: seq<Event>, p: nat): seq<Event>
    requires p < |history|
  {
    Window(Own(cfg, history[..p], history[p].socketPtr))
  }

  /** Event `p` answers the open request of an admitted socket. */
  ghost predicate Answers(cfg: Config, history: seq<Event>, p: nat)
    requires p < |history|
  {
    && history[p].kind.TcpSendmsg?
    && history[p].socketPtr in Admitted(Starters(cfg, history[..p]))
    && !Answered(WindowAt(cfg, history, p))
  }

  /** The request that event `p` completes, as exported. */
  function ExportAt(cfg: Config, history: seq<Event>, p: nat): Export
    requires p < |history|
  {
    Export(history[p].socketPtr, WithDeltas(First64(WindowAt(cfg, history, p) + [history[p]])))
  }

  /** The exports after one more event. */
  ghost function ExportsAfter(cfg: Config, history: seq<Event>, p: nat, before: seq<Export>): seq<Export>
    requires p < |history|
  {
    var x := ExportAt(cfg, history, p);
    if Answers(cfg, history, p) && |x.entries| >= cfg.minSteps then before + [x] else before
  }

  /** One export per answering event among the first `n` whose request is long enough, in order. */
  ghost function ExportsUpTo(cfg: Config, history: seq<Event>, n: nat): seq<Export>
    requires n <= |history|
  {
    if n == 0 then [] else ExportsAfter(cfg, history, n - 1, ExportsUpTo(cfg, history, n - 1))
  }

  lemma {:induction false} ExportRefinement(cfg: Config, history: seq<Event>, n: nat)
    requires n <= |history|
    ensures Run(cfg, history[..n]).exported == ExportsUpTo(cfg, history, n)
  {
    if n > 0 {
      ExportRefinement(cfg, history, n - 1);
      assert history[..n][..n - 1] == history[..n - 1];
      ExportStep(cfg, history, n - 1);
    }
  }

  lemma ExportStep(cfg: Config, history: seq<Event>, p: nat)
    requires p < |history|
    ensures var st := Run(cfg, history[..p]);
      Dispatch(cfg, st, history[p]).exported == ExportsAfter(cfg, history, p, st.exported)
  {
    var front, e := history[..p], history[p];
    HeldAreTheFirstStarters(cfg, front);
    if e.socketPtr in Run(cfg, front).held {
      TimelineRefinement(cfg, front, e.socketPtr);
      AppendedIsWithDeltas(WindowAt(cfg, history, p), e);
    }
    StartersMeaning(cfg, front, e.socketPtr);
  }

  lemma {:induction false} OwnBelongs(cfg: Config, history: seq<Event>, s: U64)
    ensures forall i | 0 <= i < |Own(cfg, history, s)| :: Own(cfg, history, s)[i].socketPtr == s
  {
    if history != [] {
      OwnBelongs(cfg, history[..|history| - 1], s);
    }
  }

  /** The shape of everything that reaches the exporters. */
  ghost predicate WellShaped(cfg: Config, x: Export) {
    var n := |x.entries|;
    && n > 0 && cfg.minSteps <= n <= MAX_EVENTS
    && (forall i | 0 <= i < n :: x.entries[i].e.socketPtr == x.socket)
    && (forall i | 0 <= i < n :: x.entries[i].e.kind.TcpV4Rcv? <==> i == 0)
    && (forall i | 0 <= i < n - 1 :: !x.entries[i].e.kind.TcpSendmsg?)
    && (n < MAX_EVENTS ==> x.entries[n - 1].e.kind.TcpSendmsg?)
  }

  /** An open window: one receive, at its start, and no answer yet. */
  ghost predicate OpenWindow(window: seq<Event>, s: U64) {
    && window != []
    && (forall i | 0 <= i < |window| :: window[i].socketPtr == s)
    && (forall i | 0 <= i < |window| :: window[i].kind.TcpV4Rcv? <==> i == 0)
    && (forall i | 0 <= i < |window| :: !window[i].kind.TcpSendmsg?)
  }

  lemma OpenFrom(own: seq<Event>, n: nat, window: seq<Event>, s: U64)
    requires n < |own| && window == own[n..] && own[n].kind.TcpV4Rcv?
    requires forall j | n < j < |own| :: !own[j].kind.TcpV4Rcv?
    requires forall j | 0 <= j < |own| :: own[j].socketPtr == s
    requires !Answered(window)
    ensures OpenWindow(window, s)
  {
    forall i | 0 <= i < |window|
      ensures window[i].socketPtr == s && (window[i].kind.TcpV4Rcv? <==> i == 0) && !window[i].kind.TcpSendmsg?
    {
      assert window[i] == own[n + i];
    }
  }

  lemma WindowIsOpen(own: seq<Event>, s: U64)
    requires LastStart(own) >= 0 && !Answered(Window(own))
    requires forall i | 0 <= i < |own| :: own[i].socketPtr == s
    ensures OpenWindow(Window(own), s)
  {
    LastStartMeaning(own);
    OpenFrom(own, LastStart(own), Window(own), s);
  }

  lemma AnsweredWindowIsOpen(cfg: Config, history: seq<Event>, p: nat)
    requires p < |history| && Answers(cfg, history, p)
    ensures OpenWindow(WindowAt(cfg, history, p), history[p].socketPtr)
  {
    StartersMeaning(cfg, history[..p], history[p].socketPtr);
    OwnBelongs(cfg, history[..p], history[p].socketPtr);
    WindowIsOpen(Own(cfg, history[..p], history[p].socketPtr), history[p].socketPtr);
  }

  lemma ClosedEntries(window: seq<Event>, e: Event, i: nat)
    requires i < |WithDeltas(First64(window + [e]))|
    ensures |WithDeltas(First64(window + [e]))| == if |window| < MAX_EVENTS then |window| + 1 else MAX_EVENTS
    ensures WithDeltas(First64(window + [e]))[i].e == if i < |window| then window[i] else e
  {}

  lemma ClosedWindowShape(cfg: Config, window: seq<Event>, e: Event, x: Export)
    requires OpenWindow(window, e.socketPtr) && e.kind.TcpSendmsg?
    requires x == Export(e.socketPtr, WithDeltas(First64(window + [e]))) && |x.entries| >= cfg.minSteps
    ensures WellShaped(cfg, x)
    ensures x.entries[|x.entries| - 1].e.kind.TcpSendmsg? <==> |window| < MAX_EVENTS
  {
    ClosedEntries(window, e, 0);
    forall i | 0 <= i < |x.entries|
      ensures x.entries[i].e == if i < |window| then window[i] else e
    {
      ClosedEntries(window, e, i);
    }
  }

  /** The closing event is the last entry exactly when fewer than 64 events precede it. */
  lemma ExportShape(cfg: Config, history: seq<Event>, p: nat)
    requires p < |history| && Answers(cfg, history, p)
    requires |ExportAt(cfg, history, p).entries| >= cfg.minSteps
    ensures WellShaped(cfg, ExportAt(cfg, history, p))
    ensures var done := ExportAt(cfg, history, p).entries;
      done[|done| - 1].e.kind.TcpSendmsg? <==> |WindowAt(cfg, history, p)| < 64
  {
    AnsweredWindowIsOpen(cfg, history, p);
    ClosedWindowShape(cfg, WindowAt(cfg, history, p), history[p], ExportAt(cfg, history, p));
  }

  ghost predicate AllWellShaped(cfg: Config, xs: seq<Export>) {
    forall k | 0 <= k < |xs| :: WellShaped(cfg, xs[k])
  }

  lemma OneMoreShaped(cfg: Config, xs: seq<Export>, x: Export)
    requires AllWellShaped(cfg, xs) && WellShaped(cfg, x)
    ensures AllWellShaped(cfg, xs + [x])
  {}

  lemma NextIsShaped(cfg: Config, history: seq<Event>, p: nat, before: seq<Export>)
    requires p < |history| && AllWellShaped(cfg, before)
    ensures AllWellShaped(cfg, ExportsAfter(cfg, history, p, before))
  {
    var x := ExportAt(cfg, history, p);
    if Answers(cfg, history, p) && |x.entries| >= cfg.minSteps {
      ExportShape(cfg, history, p);
      OneMoreShaped(cfg, before, x);
    }
  }

  lemma {:induction false} ShapedUpTo(cfg: Config, history: seq<Event>, n: nat, xs: seq<Export>)
    requires n <= |history| && xs == ExportsUpTo(cfg, history, n)
    ensures AllWellShaped(cfg, xs)
  {
    if n > 0 {
      ShapedUpTo(cfg, history, n - 1, ExportsUpTo(cfg, history, n - 1));
      NextIsShaped(cfg, history, n - 1, ExportsUpTo(cfg, history, n - 1));
    }
  }

  /** So is every timeline that any run exports. */
  lemma AllExportsWellShaped(cfg: Config, history: seq<Event>, n: nat)
    requires n <= |history|
    ensures AllWellShaped(cfg, ExportsUpTo(cfg, history, n))
  {
    ShapedUpTo(cfg, history, n, ExportsUpTo(cfg, history, n));
  }
}
