/** The receive loop of the client, over an arbitrary sequence of `recv` results. */
module HttpReader {
  import opened HttpFraming
  import opened RecvLoop
  import opened Text
  import opened Wrappers

  // ---------- The latched decision ----------

  /** The loop's variables: the bytes so far, the two latched flags, and the length. */
  datatype Reader = Reader(buffer: string, length: Option<nat>, chunked: bool, complete: bool)

  const NEW_READER := Reader("", None, false, false)

  /** One received piece: flags are set once and never cleared. */
  function Absorb(st: Reader, bytes: string): Reader {
    var buffer := st.buffer + bytes;
    match HeadersEnd(buffer)
    case None => st.(buffer := buffer)
    case Some(h) =>
      var length := if st.length.Some? then st.length else ParseContentLength(CStr(buffer), h + 4);
      var chunked := st.chunked || IsChunkedTransfer(CStr(buffer));
      Reader(buffer, length, chunked, FramedComplete(buffer, length, chunked))
  }

  function Concat(pieces: seq<string>): string {
    if pieces == [] then "" else Concat(pieces[..|pieces| - 1]) + pieces[|pieces| - 1]
  }

  /** The loop's variables after some pieces, had it not stopped among them. */
  function Absorbed(pieces: seq<string>): Reader {
    Fold(Absorb, NEW_READER, pieces)
  }

  /** A stream whose headers, if they end at all, do not have a blank Content-Length field. */
  ghost predicate Steady(stream: string) {
    HeadersEnd(stream).Some? ==>
      var header := stream[..HeadersEnd(stream).value + 4];
      IsHeaderBlock(header) && !BlankLength(header)
  }

  /** A buffer with complete headers is a header block and a body. */
  lemma BlockOf(buffer: string)
    requires HeadersEnd(buffer).Some?
    ensures var n := HeadersEnd(buffer).value + 4;
      n <= |buffer| && IsHeaderBlock(buffer[..n]) && buffer == buffer[..n] + buffer[n..]
  {
    var text, h := CStr(buffer), HeadersEnd(buffer).value;
    StrStrMeaning(text, HEADER_END);
    var header := buffer[..h + 4];
    assert header == text[..h + 4] && text == header + text[h + 4..];
    OccursInShorter(header, text[h + 4..], HEADER_END, h);
    forall j | 0 <= j < h ensures !OccursAt(header, HEADER_END, j) {
      if OccursAt(header, HEADER_END, j) {
        OccursInLonger(header, text[h + 4..], HEADER_END, j);
      }
    }
    StrStrIs(header, HEADER_END, h);
  }

  lemma SteadyLength(buffer: string, more: string)
    requires HeadersEnd(buffer).Some? && Steady(buffer + more)
    ensures ContentLength(buffer + more) == ContentLength(buffer)
  {
    var n := HeadersEnd(buffer).value + 4;
    BlockOf(buffer);
    HeadersEndStays(buffer, more);
    assert (buffer + more)[..n] == buffer[..n];
    SettledLength(buffer[..n], buffer[n..]);
    SettledLength(buffer[..n], buffer[n..] + more);
    assert buffer + more == buffer[..n] + (buffer[n..] + more);
  }

  lemma SteadyPrefix(a: string, b: string)
    requires Steady(a + b)
    ensures Steady(a)
  {
    if HeadersEnd(a).Some? {
      BlockOf(a);
      HeadersEndStays(a, b);
      var n := HeadersEnd(a).value + 4;
      assert (a + b)[..n] == a[..n];
    }
  }

  /** The latched variables always equal what the whole buffer says. */
  lemma {:induction false} LatchedIsRecomputed(pieces: seq<string>)
    requires Steady(Concat(pieces))
    ensures var buffer := Concat(pieces);
      Absorbed(pieces) == Reader(buffer, ContentLength(buffer), UsesChunked(buffer), Complete(buffer))
  {
    if pieces != [] {
      var front, last := pieces[..|pieces| - 1], pieces[|pieces| - 1];
      var before := Concat(front);
      SteadyPrefix(before, last);
      LatchedIsRecomputed(front);
      if HeadersEnd(before).Some? {
        HeadersEndStays(before, last);
        SteadyLength(before, last);
        if UsesChunked(before) {
          ChunkedStays(before, last);
        }
      }
    } else {
      NothingReceived();
    }
  }

  lemma NothingReceived()
    ensures HeadersEnd("") == None
  {
    assert CStr("") == "";
  }

  /** More bytes never make a complete response incomplete. */
  lemma CompleteStays(a: string, b: string)
    requires Complete(a) && Steady(a + b)
    ensures Complete(a + b)
  {
    HeadersEndStays(a, b);
    SteadyLength(a, b);
    var h := HeadersEnd(a).value;
    if UsesChunked(a) && ChunkedBodyComplete(CStr(a)[h + 4..]) {
      ChunkedStays(a, b);
      CStrGrows(a, b);
      ChunkedBodyStays(CStr(a)[h + 4..], CStr(a + b)[h + 4..]);
    }
  }

  // ---------- Where the loop stops ----------

  lemma {:induction false} ConcatSplit(a: seq<string>, b: seq<string>)
    ensures Concat(a + b) == Concat(a) + Concat(b)
  {
    if b == [] {
      assert a + b == a;
    } else {
      assert (a + b)[..|a + b| - 1] == a + b[..|b| - 1];
      ConcatSplit(a, b[..|b| - 1]);
    }
  }

  /** The least index from `n` on at which `p` holds, given that it holds at `bound`. */
  function Least(p: nat -> bool, n: nat, bound: nat): (t: nat)
    requires n <= bound && p(bound)
    ensures n <= t <= bound && p(t) && forall m | n <= m < t :: !p(m)
    decreases bound - n
  {
    if p(n) then n else Least(p, n + 1, bound)
  }

  function CompleteAt(stream: string): nat -> bool {
    (n: nat) => n <= |stream| && Complete(stream[..n])
  }

  /** The least length at which a prefix of the stream is complete; one more than its length if none is. */
  function Threshold(stream: string): nat {
    if CompleteAt(stream)(|stream|) then Least(CompleteAt(stream), 0, |stream|) else |stream| + 1
  }

  lemma LongerPrefixIsComplete(stream: string, t: nat, m: nat)
    requires Steady(stream) && t <= m <= |stream| && CompleteAt(stream)(t)
    ensures CompleteAt(stream)(m)
  {
    assert stream[..m] == stream[..t] + stream[t..m] && stream == stream[..m] + stream[m..];
    SteadyPrefix(stream[..m], stream[m..]);
    CompleteStays(stream[..t], stream[t..m]);
  }

  /** A prefix is complete exactly from the threshold on. */
  lemma CompleteFromThreshold(stream: string, m: nat)
    requires Steady(stream) && m <= |stream|
    ensures CompleteAt(stream)(m) <==> m >= Threshold(stream)
  {
    var p := CompleteAt(stream);
    if p(m) {
      LongerPrefixIsComplete(stream, m, |stream|);
    }
    if p(|stream|) && m >= Threshold(stream) {
      LongerPrefixIsComplete(stream, Threshold(stream), m);
    }
  }

  /** After `k` pieces the loop may stop exactly if they reach the threshold of the stream. */
  lemma StopsFromThreshold(all: seq<string>, k: nat)
    requires k <= |all| && Steady(Concat(all))
    ensures Absorbed(all[..k]).buffer == Concat(all[..k])
    ensures Absorbed(all[..k]).complete <==> |Concat(all[..k])| >= Threshold(Concat(all))
  {
    var stream, prefix := Concat(all), Concat(all[..k]);
    assert all == all[..k] + all[k..];
    ConcatSplit(all[..k], all[k..]);
    SteadyPrefix(prefix, Concat(all[k..]));
    LatchedIsRecomputed(all[..k]);
    assert prefix == stream[..|prefix|];
    CompleteFromThreshold(stream, |prefix|);
  }

  predicate Stop(st: Reader) {
    st.complete
  }

  function ReceiveResponse(trace: seq<Recv>): (Outcome, Reader) {
    Receive(Absorb, Stop, NEW_READER, trace)
  }

  /**
   * Split independence: in a run free of timeout, error and early close the loop stops at the first piece
   * boundary at or after a threshold that the byte stream alone fixes; if no boundary gets there, it waits.
   */
  lemma StopsAtThreshold(trace: seq<Recv>) returns (k: nat)
    requires Quiet(trace) && Steady(Concat(Pieces(trace)))
    ensures var all, t := Pieces(trace), Threshold(Concat(Pieces(trace)));
      && k <= |all|
      && ReceiveResponse(trace).1.buffer == Concat(all[..k])
      && (forall j | 0 < j < k :: |Concat(all[..j])| < t)
      && (ReceiveResponse(trace).0 == Framed ==> k > 0 && |Concat(all[..k])| >= t)
      && (ReceiveResponse(trace).0 != Framed ==>
        && ReceiveResponse(trace).0 == Waiting && k == |all| && |Concat(all)| < t)
  {
    var all := Pieces(trace);
    assert all[0..] == all && all[..0] == [] && all[..|all|] == all;
    k := LoopStops(Absorb, Stop, NEW_READER, all, 0, trace);
    forall j | 0 < j < k ensures |Concat(all[..j])| < Threshold(Concat(all)) {
      StopsFromThreshold(all, j);
    }
    StopsFromThreshold(all, k);
    StopsFromThreshold(all, 0);
  }

  /** Some number of pieces stops the loop exactly if all of them reach the threshold. */
  lemma StopsByThreshold(all: seq<string>)
    requires Steady(Concat(all))
    ensures forall j | 0 <= j <= |all| :: Absorbed(all[..j]).buffer == Concat(all[..j])
    ensures forall j | 0 <= j <= |all| :: Stop(Absorbed(all[..j])) <==> |Concat(all[..j])| >= Threshold(Concat(all))
    ensures (exists j | 0 < j <= |all| :: Stop(Absorbed(all[..j]))) <==> |Concat(all)| >= Threshold(Concat(all))
  {
    forall j | 0 <= j <= |all|
      ensures Absorbed(all[..j]).buffer == Concat(all[..j])
      ensures Stop(Absorbed(all[..j])) <==> |Concat(all[..j])| >= Threshold(Concat(all))
    {
      StopsFromThreshold(all, j);
    }
    SomeStops(all, Threshold(Concat(all)));
  }

  lemma NothingIsNoStop(all: seq<string>)
    ensures !Stop(Absorbed(all[..0])) && all[..|all|] == all
  {
    NothingReceived();
  }

  lemma FewerPieces(all: seq<string>, j: nat)
    requires j <= |all|
    ensures |Concat(all[..j])| <= |Concat(all)|
  {
    assert all == all[..j] + all[j..];
    ConcatSplit(all[..j], all[j..]);
  }

  lemma SomeStops(all: seq<string>, t: nat)
    requires forall j | 0 <= j <= |all| :: Stop(Absorbed(all[..j])) <==> |Concat(all[..j])| >= t
    ensures (exists j | 0 < j <= |all| :: Stop(Absorbed(all[..j]))) <==> |Concat(all)| >= t
  {
    var n := |all|;
    NothingIsNoStop(all);
    assert Stop(Absorbed(all[..n])) <==> |Concat(all[..n])| >= t;
    forall j | 0 < j <= n && Stop(Absorbed(all[..j])) ensures |Concat(all)| >= t {
      FewerPieces(all, j);
    }
  }

  /**
   * Any run at all, cut at its first timeout, error or close, if it has one. The response is framed exactly if what
   * arrives before that reaches the threshold of its bytes, and then the loop took the pieces up to the first boundary
   * that does. Otherwise it took all of them, and the cut decides the outcome.
   */
  lemma OutcomeOfAnyRun(quiet: seq<Recv>, rest: seq<Recv>) returns (k: nat)
    requires Quiet(quiet) && (rest != [] ==> EndsLoop(rest[0])) && Steady(Concat(Pieces(quiet)))
    ensures var all, t, end := Pieces(quiet), Threshold(Concat(Pieces(quiet))), ReceiveResponse(quiet + rest);
      && k <= |all| && end.1.buffer == Concat(all[..k])
      && (forall j | 0 < j < k :: |Concat(all[..j])| < t)
      && (end.0 == Framed <==> |Concat(all)| >= t)
      && (end.0 == Framed ==> k > 0 && |Concat(all[..k])| >= t)
      && (end.0 != Framed ==> k == |all|)
    ensures var outcome := ReceiveResponse(quiet + rest).0;
      outcome != Framed ==>
        && (rest == [] ==> outcome == Waiting)
        && (rest != [] && rest[0].TimedOut? ==> outcome == Timeout)
        && (rest != [] && rest[0].Failed? ==> outcome == Error)
        && (rest != [] && rest[0].Closed? ==> outcome == PeerClosed)
  {
    var all := Pieces(quiet);
    k := LoopEnds(Absorb, Stop, NEW_READER, quiet, rest);
    StopsByThreshold(all);
    assert all[..|all|] == all;
  }

  // ---------- The loop with its growing buffer ----------

  const CHUNK_SIZE := 4096
  const FIRST_CAPACITY := 16384

  /** 16384 times a power of two. */
  ghost predicate IsCapacity(c: nat)
    decreases c
  {
    c == FIRST_CAPACITY || (c > FIRST_CAPACITY && c % 2 == 0 && IsCapacity(c / 2))
  }

  ghost predicate GoodTrace(trace: seq<Recv>) {
    forall i | 0 <= i < |trace| && trace[i].Data? :: 0 < |trace[i].bytes| <= CHUNK_SIZE
  }

  /** Makes room for `bytes` more and a terminating NUL; one doubling is always enough. */
  method Reserve(buffer: array<char>, total: nat, bytes: nat) returns (grown: array<char>, ghost reallocated: nat)
    requires total + 1 <= buffer.Length && IsCapacity(buffer.Length) && bytes <= CHUNK_SIZE
    ensures total + bytes + 1 <= grown.Length && IsCapacity(grown.Length) && grown[..total] == buffer[..total]
    ensures total + bytes + 1 <= buffer.Length ==> grown == buffer && reallocated == 0
    ensures total + bytes + 1 > buffer.Length ==>
      fresh(grown) && grown.Length == 2 * buffer.Length && reallocated == grown.Length
  {
    grown, reallocated := buffer, 0;
    if total + bytes + 1 > buffer.Length {
      var capacity := buffer.Length;
      ghost var doublings := 0;
      assert buffer.Length >= FIRST_CAPACITY;
      while total + bytes + 1 > capacity
        invariant (doublings == 0 && capacity == buffer.Length) || (doublings == 1 && capacity == 2 * buffer.Length)
        decreases 1 - doublings
      {
        capacity := capacity * 2;
        doublings := doublings + 1;
      }
      reallocated := capacity;
      assert capacity / 2 == buffer.Length;
      grown := new char[capacity];
      forall i | 0 <= i < total {
        grown[i] := buffer[i];
      }
    }
  }

  method Store(buffer: array<char>, total: nat, bytes: string)
    requires total + |bytes| + 1 <= buffer.Length
    modifies buffer
    ensures buffer[..total + |bytes|] == old(buffer[..total]) + bytes && buffer[total + |bytes|] == '\0'
  {
    forall i | 0 <= i < |bytes| {
      buffer[total + i] := bytes[i];
    }
    buffer[total + |bytes|] := '\0';
  }

  /** Makes room for a piece if needed, and puts it behind the content. */
  method Take(buffer: array<char>, total: nat, bytes: string) returns (grown: array<char>, ghost reallocated: nat)
    requires total + 1 <= buffer.Length && IsCapacity(buffer.Length) && 0 < |bytes| <= CHUNK_SIZE
    modifies buffer
    ensures grown == buffer || fresh(grown)
    ensures total + |bytes| + 1 <= grown.Length && IsCapacity(grown.Length)
    ensures grown[..total + |bytes|] == old(buffer[..total]) + bytes
    ensures reallocated + 2 * buffer.Length == 2 * grown.Length
    ensures grown == buffer || grown.Length <= 2 * (total + |bytes|)
  {
    grown, reallocated := Reserve(buffer, total, |bytes|);
    Store(grown, total, bytes);
  }

  /** The part of the loop that looks at the bytes. */
  method Decide(ghost st: Reader, ghost bytes: string, text: string, oldLength: Option<nat>, oldChunked: bool)
    returns (length: Option<nat>, chunked: bool, complete: bool)
    requires st == Reader(st.buffer, oldLength, oldChunked, false) && text == st.buffer + bytes
    ensures Reader(text, length, chunked, complete) == Absorb(st, bytes)
  {
    length, chunked, complete := oldLength, oldChunked, false;
    var h := HeadersEnd(text);
    if h.Some? {
      if length.None? {
        var found, value := StoreContentLength(CStr(text), h.value + 4, 0);
        if found {
          length := Some(value);
        }
      }
      if !chunked {
        chunked := IsChunkedTransfer(CStr(text));
      }
      complete := FramedComplete(text, length, chunked);
    }
  }

  /**
   * The whole loop. The buffer always holds exactly what was received, with room for the NUL; its capacity
   * stays within twice the content, and all reallocations together ask for less than twice the final capacity.
   */
  method ReceiveAll(trace: seq<Recv>)
    returns (outcome: Outcome, received: string, capacity: nat, ghost reallocated: nat)
    requires GoodTrace(trace)
    ensures outcome == ReceiveResponse(trace).0 && received == ReceiveResponse(trace).1.buffer
    ensures |received| + 1 <= capacity && IsCapacity(capacity)
    ensures capacity == FIRST_CAPACITY || capacity <= 2 * |received|
    ensures reallocated < 2 * capacity
  {
    var buffer := new char[FIRST_CAPACITY](_ => '\0');
    var total, i := 0, 0;
    var length: Option<nat> := None;
    var chunked := false;
    reallocated := 0;
    outcome := Waiting;
    ghost var st := NEW_READER;
    while i < |trace|
      invariant 0 <= i <= |trace| && fresh(buffer)
      invariant total + 1 <= buffer.Length && IsCapacity(buffer.Length)
      invariant buffer.Length == FIRST_CAPACITY || buffer.Length <= 2 * total
      invariant reallocated + 2 * FIRST_CAPACITY == 2 * buffer.Length
      invariant st == Reader(buffer[..total], length, chunked, false)
      invariant ReceiveResponse(trace) == Receive(Absorb, Stop, st, trace[i..])
      invariant outcome == Waiting
    {
      var r := trace[i];
      assert trace[i..][0] == r && trace[i..][1..] == trace[i + 1..];
      i := i + 1;
      if r.TimedOut? || r.Failed? || r.Closed? {
        outcome := if r.TimedOut? then Timeout else if r.Failed? then Error else PeerClosed;
        return outcome, buffer[..total], buffer.Length, reallocated;
      }
      if r.Data? {
        ghost var more: nat;
        buffer, more := Take(buffer, total, r.bytes);
        reallocated := reallocated + more;
        total := total + |r.bytes|;
        var text := buffer[..total];
        ghost var before := st;
        st := Absorb(st, r.bytes);
        var complete;
        length, chunked, complete := Decide(before, r.bytes, text, length, chunked);
        if complete {
          return Framed, text, buffer.Length, reallocated;
        }
      }
    }
    return outcome, buffer[..total], buffer.Length, reallocated;
  }
}
