/** The shape of the receive loop, apart from what it does with the bytes. */
module RecvLoop {

  /** The outcomes of one `recv`; data comes in pieces of any nonzero size. */
  datatype Recv = Data(bytes: string) | Interrupted | TimedOut | Failed | Closed

  /** `Waiting` is a run that the trace cuts off inside the loop. */
  datatype Outcome = Framed | Timeout | PeerClosed | Error | Waiting

  /** Data is absorbed until the loop may stop; an interrupted call is repeated. */
  function Receive<S>(absorb: (S, string) -> S, stop: S -> bool, st: S, trace: seq<Recv>): (Outcome, S)
    decreases |trace|
  {
    if trace == [] then (Waiting, st)
    else
      match trace[0]
      case Interrupted => Receive(absorb, stop, st, trace[1..])
      case TimedOut => (Timeout, st)
      case Failed => (Error, st)
      case Closed => (PeerClosed, st)
      case Data(bytes) =>
        var next := absorb(st, bytes);
        if stop(next) then (Framed, next) else Receive(absorb, stop, next, trace[1..])
  }

  function Fold<S>(absorb: (S, string) -> S, st: S, pieces: seq<string>): S {
    if pieces == [] then st else absorb(Fold(absorb, st, pieces[..|pieces| - 1]), pieces[|pieces| - 1])
  }

  /** No timeout, error or close. */
  predicate Quiet(trace: seq<Recv>) {
    forall i | 0 <= i < |trace| :: trace[i].Data? || trace[i].Interrupted?
  }

  function Pieces(trace: seq<Recv>): seq<string> {
    if trace == [] then []
    else if trace[0].Data? then [trace[0].bytes] + Pieces(trace[1..])
    else Pieces(trace[1..])
  }

  /** From any point, a quiet loop takes pieces up to the first after which it may stop, or all of them. */
  lemma {:induction false} LoopStops<S>(
    absorb: (S, string) -> S, stop: S -> bool, st: S, all: seq<string>, d: nat, trace: seq<Recv>) returns (k: nat)
    requires d <= |all| && all[d..] == Pieces(trace) && Quiet(trace)
    ensures d <= k <= |all|
    ensures forall j | d < j < k :: !stop(Fold(absorb, st, all[..j]))
    ensures var stopped := d < k && stop(Fold(absorb, st, all[..k]));
      && Receive(absorb, stop, Fold(absorb, st, all[..d]), trace) ==
        (if stopped then Framed else Waiting, Fold(absorb, st, all[..k]))
      && (!stopped ==> k == |all|)
    decreases |trace|
  {
    if trace == [] {
      k := d;
    } else if trace[0].Interrupted? {
      k := LoopStops(absorb, stop, st, all, d, trace[1..]);
    } else {
      assert all[d] == all[d..][0] == trace[0].bytes;
      assert all[..d + 1][..d] == all[..d] && all[d + 1..] == all[d..][1..];
      if stop(Fold(absorb, st, all[..d + 1])) {
        k := d + 1;
      } else {
        k := LoopStops(absorb, stop, st, all, d + 1, trace[1..]);
      }
    }
  }

  // ---------- Runs that a timeout, an error or a close may end ----------

  predicate EndsLoop(r: Recv) {
    r.TimedOut? || r.Failed? || r.Closed?
  }

  /** Every trace is a quiet run up to its first such event, if it has one. */
  lemma {:induction false} CutTrace(trace: seq<Recv>) returns (quiet: seq<Recv>, rest: seq<Recv>)
    ensures trace == quiet + rest && Quiet(quiet) && (rest != [] ==> EndsLoop(rest[0]))
    decreases |trace|
  {
    if trace == [] || EndsLoop(trace[0]) {
      quiet, rest := [], trace;
    } else {
      quiet, rest := CutTrace(trace[1..]);
      quiet := [trace[0]] + quiet;
    }
  }

  lemma {:induction false} ReceiveSplit<S>(
    absorb: (S, string) -> S, stop: S -> bool, st: S, quiet: seq<Recv>, rest: seq<Recv>)
    requires Quiet(quiet)
    ensures var front := Receive(absorb, stop, st, quiet);
      Receive(absorb, stop, st, quiet + rest) ==
        if front.0 == Framed then front else Receive(absorb, stop, front.1, rest)
    decreases |quiet|
  {
    if quiet == [] {
      assert quiet + rest == rest;
    } else {
      assert (quiet + rest)[1..] == quiet[1..] + rest;
      if quiet[0].Interrupted? {
        ReceiveSplit(absorb, stop, st, quiet[1..], rest);
      } else {
        var next := absorb(st, quiet[0].bytes);
        if !stop(next) {
          ReceiveSplit(absorb, stop, next, quiet[1..], rest);
        }
      }
    }
  }

  lemma EndsAtOnce<S>(absorb: (S, string) -> S, stop: S -> bool, st: S, trace: seq<Recv>)
    requires trace != [] ==> EndsLoop(trace[0])
    ensures Receive(absorb, stop, st, trace) ==
      (if trace == [] then Waiting
       else match trace[0] case TimedOut => Timeout case Failed => Error case _ => PeerClosed,
       st)
  {}

  /**
   * Any run: pieces are taken up to the first after which the loop may stop, and then the response is framed.
   * If there is none before the first timeout, error or close, all pieces before that are taken and it decides;
   * without such an event the loop waits.
   */
  lemma {:induction false} LoopEnds<S>(
    absorb: (S, string) -> S, stop: S -> bool, st: S, quiet: seq<Recv>, rest: seq<Recv>) returns (k: nat)
    requires Quiet(quiet) && (rest != [] ==> EndsLoop(rest[0]))
    ensures var all, end := Pieces(quiet), Receive(absorb, stop, st, quiet + rest);
      && k <= |all| && end.1 == Fold(absorb, st, all[..k])
      && (forall j | 0 < j < k :: !stop(Fold(absorb, st, all[..j])))
      && (end.0 == Framed <==> exists j | 0 < j <= |all| :: stop(Fold(absorb, st, all[..j])))
      && (end.0 == Framed ==> k > 0 && stop(end.1))
      && (end.0 != Framed ==> k == |all|)
    ensures var outcome := Receive(absorb, stop, st, quiet + rest).0;
      outcome != Framed ==>
        && (rest == [] ==> outcome == Waiting)
        && (rest != [] && rest[0].TimedOut? ==> outcome == Timeout)
        && (rest != [] && rest[0].Failed? ==> outcome == Error)
        && (rest != [] && rest[0].Closed? ==> outcome == PeerClosed)
  {
    var all := Pieces(quiet);
    assert all[0..] == all && all[..0] == [] && all[..|all|] == all;
    k := LoopStops(absorb, stop, st, all, 0, quiet);
    ReceiveSplit(absorb, stop, st, quiet, rest);
    EndsAtOnce(absorb, stop, Fold(absorb, st, all[..k]), rest);
  }
}
