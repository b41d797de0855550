/** Whole responses: for both framings the client stops exactly at the end of the message, however it arrives. */
module HttpMessages {
  import opened ChunkedBody
  import opened HttpFraming
  import opened HttpReader
  import opened RecvLoop
  import opened Text
  import opened Wrappers

  /** Before the header block is there, nothing is complete. */
  lemma HeadersFirst(header: string, body: string, n: nat)
    requires IsHeaderBlock(header) && n < |header|
    ensures !Complete((header + body)[..n])
  {
    var all := header + body;
    TextOfBlock(header, body);
    if HeadersEnd(all[..n]).Some? {
      BlockOf(all[..n]);
      assert all == all[..n] + all[n..];
      HeadersEndStays(all[..n], all[n..]);
    }
  }

  lemma BlockIsSteady(header: string, body: string)
    requires IsHeaderBlock(header) && !BlankLength(header)
    ensures Steady(header + body)
  {
    TextOfBlock(header, body);
    assert (header + body)[..|header|] == header;
  }

  lemma BodyPrefix(header: string, body: string, m: nat)
    requires m <= |body|
    ensures (header + body)[..|header| + m] == header + body[..m]
  {}

  // ---------- Content-Length ----------

  /** Chunked framing is announced in what the client searches, and the body looks complete under it. */
  predicate ChunkedDone(header: string, body: string) {
    UsesChunked(header + body) && ChunkedBodyComplete(CStr(body))
  }

  lemma LengthDecides(header: string, body: string, length: nat)
    requires IsHeaderBlock(header) && !BlankLength(header) && ContentLength(header) == Some(length)
    ensures Complete(header + body) <==> |body| >= length || ChunkedDone(header, body)
  {
    TextOfBlock(header, body);
    SettledLength(header, body);
    assert (header + CStr(body))[|header|..] == CStr(body);
  }

  lemma ChunkedDoneStays(header: string, a: string, b: string)
    requires ChunkedDone(header, a)
    ensures ChunkedDone(header, a + b)
  {
    assert header + (a + b) == header + a + b;
    ChunkedStays(header + a, b);
    CStrGrows(a, b);
    ChunkedBodyStays(CStr(a), CStr(a + b));
  }

  /** Before its last byte the body already looks like a complete chunked one. */
  predicate StopsEarly(header: string, body: string) {
    body != "" && ChunkedDone(header, body[..|body| - 1])
  }

  lemma EarlierIsNotDone(header: string, body: string, m: nat)
    requires !StopsEarly(header, body) && m < |body|
    ensures !ChunkedDone(header, body[..m])
  {
    assert body[..m] + body[m..|body| - 1] == body[..|body| - 1];
    if ChunkedDone(header, body[..m]) {
      ChunkedDoneStays(header, body[..m], body[m..|body| - 1]);
    }
  }

  lemma IncompleteBefore(header: string, body: string, m: nat, prefix: string)
    requires IsHeaderBlock(header) && !BlankLength(header) && ContentLength(header) == Some(|body|)
    requires !StopsEarly(header, body) && m < |body| && prefix == header + body[..m]
    ensures !Complete(prefix)
  {
    EarlierIsNotDone(header, body, m);
    LengthDecides(header, body[..m], |body|);
  }

  lemma IncompleteAt(header: string, body: string, stream: string, n: nat)
    requires IsHeaderBlock(header) && !BlankLength(header) && ContentLength(header) == Some(|body|)
    requires !StopsEarly(header, body) && stream == header + body && n < |stream|
    ensures !CompleteAt(stream)(n)
  {
    if n < |header| {
      HeadersFirst(header, body, n);
    } else {
      BodyPrefix(header, body, n - |header|);
      IncompleteBefore(header, body, n - |header|, stream[..n]);
    }
  }

  lemma CompleteAtLastByte(header: string, body: string, prefix: string)
    requires IsHeaderBlock(header) && !BlankLength(header) && ContentLength(header) == Some(|body|)
    requires StopsEarly(header, body) && prefix == header + body[..|body| - 1]
    ensures Complete(prefix)
  {
    LengthDecides(header, body[..|body| - 1], |body|);
  }

  lemma CompleteEarly(header: string, body: string, stream: string, prefix: string)
    requires IsHeaderBlock(header) && !BlankLength(header) && ContentLength(header) == Some(|body|)
    requires StopsEarly(header, body) && stream == header + body && prefix == header + body[..|body| - 1]
    ensures CompleteAt(stream)(|prefix|) && |prefix| == |stream| - 1
  {
    CompleteAtLastByte(header, body, prefix);
    BodyPrefix(header, body, |body| - 1);
    CompletePrefix(stream, |prefix|, prefix);
  }

  lemma CompletePrefix(stream: string, n: nat, prefix: string)
    requires n <= |stream| && prefix == stream[..n] && Complete(prefix)
    ensures CompleteAt(stream)(n)
  {}

  lemma LengthMessageIsComplete(header: string, body: string, stream: string)
    requires IsHeaderBlock(header) && !BlankLength(header) && ContentLength(header) == Some(|body|)
    requires stream == header + body
    ensures Steady(stream) && Complete(stream)
  {
    BlockIsSteady(header, body);
    LengthDecides(header, body, |body|);
  }

  lemma EarlyThreshold(stream: string, n: nat)
    requires n < |stream| && CompleteAt(stream)(n) && Steady(stream)
    ensures Threshold(stream) < |stream|
  {
    CompleteFromThreshold(stream, n);
  }

  lemma ThresholdOnTime(header: string, body: string, stream: string)
    requires IsHeaderBlock(header) && !BlankLength(header) && ContentLength(header) == Some(|body|)
    requires !StopsEarly(header, body) && stream == header + body && Complete(stream)
    ensures Threshold(stream) == |stream|
  {
    WholeIsComplete(stream);
    forall n | 0 <= n < |stream| ensures !CompleteAt(stream)(n) {
      IncompleteAt(header, body, stream, n);
    }
    ThresholdIs(stream, |stream|);
  }

  lemma ThresholdTooEarly(header: string, body: string, stream: string)
    requires IsHeaderBlock(header) && !BlankLength(header) && ContentLength(header) == Some(|body|)
    requires StopsEarly(header, body) && stream == header + body && Steady(stream)
    ensures Threshold(stream) < |stream|
  {
    CompleteEarly(header, body, stream, header + body[..|body| - 1]);
    EarlyThreshold(stream, |header + body[..|body| - 1]|);
  }

  /**
   * A message framed by its length is complete first at its end, exactly unless its body announces and ends
   * chunked framing before its last byte.
   */
  lemma LengthThresholdExactlyWhen(header: string, body: string, stream: string)
    requires IsHeaderBlock(header) && !BlankLength(header) && ContentLength(header) == Some(|body|)
    requires stream == header + body
    ensures Steady(stream) && Complete(stream)
    ensures Threshold(stream) == |stream| <==> !StopsEarly(header, body)
  {
    LengthMessageIsComplete(header, body, stream);
    if StopsEarly(header, body) {
      ThresholdTooEarly(header, body, stream);
    } else {
      ThresholdOnTime(header, body, stream);
    }
  }

  lemma SamePrefix(stream: string, more: string, all: string, n: nat)
    requires all == stream + more && n <= |stream|
    ensures CompleteAt(all)(n) <==> CompleteAt(stream)(n)
  {
    assert all[..n] == stream[..n];
  }

  lemma WholeIsComplete(stream: string)
    requires Complete(stream)
    ensures CompleteAt(stream)(|stream|)
  {
    assert stream[..|stream|] == stream;
  }

  /** Bytes behind a complete message do not move its threshold. */
  lemma ThresholdIgnoresTheRest(stream: string, more: string, all: string)
    requires Complete(stream) && all == stream + more && Steady(all)
    ensures Threshold(all) == Threshold(stream) <= |stream|
  {
    var t := Threshold(stream);
    SteadyPrefix(stream, more);
    CompleteStays(stream, more);
    WholeIsComplete(stream);
    WholeIsComplete(all);
    forall n | 0 <= n <= |stream| ensures CompleteAt(all)(n) <==> n >= t {
      SamePrefix(stream, more, all, n);
      CompleteFromThreshold(stream, n);
    }
    ThresholdIs(all, t);
  }

  lemma ThresholdIs(stream: string, t: nat)
    requires t <= |stream| && CompleteAt(stream)(|stream|) && CompleteAt(stream)(t)
    requires forall n | 0 <= n < t :: !CompleteAt(stream)(n)
    ensures Threshold(stream) == t
  {}

  /** The same with anything behind the message, as on a connection that stays open. */
  lemma LengthThresholdWithMore(header: string, body: string, more: string, message: string, all: string)
    requires IsHeaderBlock(header) && !BlankLength(header) && ContentLength(header) == Some(|body|)
    requires message == header + body && all == message + more
    ensures Steady(all)
    ensures Threshold(all) == |message| <==> !StopsEarly(header, body)
  {
    LengthThresholdExactlyWhen(header, body, message);
    SteadyWithMore(header, body, more, all);
    ThresholdIgnoresTheRest(message, more, all);
  }

  lemma SteadyWithMore(header: string, body: string, more: string, all: string)
    requires IsHeaderBlock(header) && !BlankLength(header) && all == header + body + more
    ensures Steady(all)
  {
    Associate(header, body, more);
    BlockIsSteady(header, body + more);
  }

  lemma Associate(a: string, b: string, c: string)
    ensures a + b + c == a + (b + c)
  {}

  /** A page about chunked framing: however its header block looks, the client stops before its end. */
  lemma PageAboutChunkingStopsEarly(header: string, tail: string)
    requires IsHeaderBlock(header) && tail != ""
    ensures StopsEarly(header, ENCODING_KEY + " chunked" + CHUNK_END + tail)
  {
    var note := ENCODING_KEY + " chunked" + CHUNK_END;
    var body := note + tail;
    NoteIsDone(header, note);
    ChunkedDoneStays(header, note, tail[..|tail| - 1]);
    assert note + tail[..|tail| - 1] == body[..|body| - 1];
  }

  lemma NoteParts(note: string)
    requires note == ENCODING_KEY + " chunked" + CHUNK_END
    ensures Without(note, '\0') && OccursAt(note, ENCODING_KEY, 0) && OccursAt(note, "chunked", |ENCODING_KEY| + 1)
    ensures OccursAt(note, CHUNK_END, |ENCODING_KEY| + 8)
  {
    assert |ENCODING_KEY| == 18;
    assert note[..18] == ENCODING_KEY && note[19..26] == "chunked" && note[26..] == CHUNK_END;
  }

  lemma NoteIsDone(header: string, note: string)
    requires IsHeaderBlock(header) && note == ENCODING_KEY + " chunked" + CHUNK_END
    ensures ChunkedDone(header, note)
  {
    NoteParts(note);
    TextOfBlock(header, note);
    CStrOf(note);
    StrStrMeaning(note, CHUNK_END);
    var text := header + note;
    OccursShifted(header, note, ENCODING_KEY, 0);
    OccursShifted(header, note, "chunked", |ENCODING_KEY| + 1);
    StrStrMeaning(text, ENCODING_KEY);
    var f := StrStr(text, ENCODING_KEY).value;
    FoundBehind(text, f, "chunked", |header| + |ENCODING_KEY| + 1);
  }

  lemma FoundBehind(s: string, f: nat, pat: string, i: nat)
    requires f <= i <= |s| && OccursAt(s, pat, i)
    ensures Contains(s[f..], pat)
  {
    assert s == s[..f] + s[f..];
    OccursShifted(s[..f], s[f..], pat, i - f);
    StrStrMeaning(s[f..], pat);
  }

  // ---------- Chunked ----------

  lemma ChunkedDecides(header: string, body: string)
    requires IsHeaderBlock(header) && IsChunkedTransfer(header) && LengthValueAt(header) == None
    ensures Complete(header + body) <==> ChunkedBodyComplete(CStr(body))
  {
    var text := header + CStr(body);
    TextOfBlock(header, body);
    ContentLengthOf(header, body);
    FoundStays(header, text, ENCODING_KEY);
    var f := StrStr(header, ENCODING_KEY).value;
    assert header[f..] <= text[f..];
    FoundStays(header[f..], text[f..], "chunked");
    assert text[|header|..] == CStr(body);
  }

  lemma ChunkedBodyAt(header: string, chunks: seq<string>, m: nat, prefix: string)
    requires IsHeaderBlock(header) && IsChunkedTransfer(header) && LengthValueAt(header) == None
    requires NonEmpty(chunks) && AllHarmless(chunks) && m <= |Encode(chunks)| && prefix == header + Encode(chunks)[..m]
    ensures Complete(prefix) <==> m == |Encode(chunks)|
  {
    ChunkedDecides(header, Encode(chunks)[..m]);
    HarmlessPrefixes(chunks, m);
  }

  lemma ChunkedCompleteAt(header: string, chunks: seq<string>, n: nat)
    requires IsHeaderBlock(header) && IsChunkedTransfer(header) && LengthValueAt(header) == None
    requires NonEmpty(chunks) && AllHarmless(chunks) && n <= |header + Encode(chunks)|
    ensures Complete((header + Encode(chunks))[..n]) <==> n == |header + Encode(chunks)|
  {
    var body := Encode(chunks);
    if n < |header| {
      HeadersFirst(header, body, n);
    } else {
      BodyPrefix(header, body, n - |header|);
      ChunkedBodyAt(header, chunks, n - |header|, (header + body)[..n]);
    }
  }

  lemma HarmlessThreshold(header: string, chunks: seq<string>, stream: string)
    requires IsHeaderBlock(header) && IsChunkedTransfer(header) && LengthValueAt(header) == None
    requires NonEmpty(chunks) && AllHarmless(chunks) && stream == header + Encode(chunks)
    ensures Threshold(stream) == |stream|
  {
    forall n | 0 <= n <= |stream| ensures CompleteAt(stream)(n) <==> n == |stream| {
      ChunkedCompleteAt(header, chunks, n);
    }
    ThresholdIs(stream, |stream|);
  }

  lemma RecognisedAt(header: string, body: string, m: nat, prefix: string, stream: string, n: nat)
    requires IsHeaderBlock(header) && IsChunkedTransfer(header) && LengthValueAt(header) == None
    requires m <= |body| && prefix == header + body[..m] && n <= |stream| && stream[..n] == prefix
    ensures CompleteAt(stream)(n) <==> ChunkedBodyComplete(CStr(body[..m]))
  {
    ChunkedDecides(header, body[..m]);
  }

  lemma ThresholdAtEnd(header: string, chunks: seq<string>, stream: string)
    requires IsHeaderBlock(header) && IsChunkedTransfer(header) && LengthValueAt(header) == None
    requires NonEmpty(chunks) && stream == header + Encode(chunks) && Steady(stream) && Threshold(stream) == |stream|
    ensures AllHarmless(chunks)
  {
    var body := Encode(chunks);
    forall m | 0 <= m <= |body| ensures ChunkedBodyComplete(CStr(body[..m])) <==> m == |body| {
      var n := |header| + m;
      BodyPrefix(header, body, m);
      RecognisedAt(header, body, m, stream[..n], stream, n);
      CompleteFromThreshold(stream, n);
    }
    RecognisedExactlyWhenHarmless(chunks);
  }

  /** A chunked message is complete first at its end exactly when every chunk's data is harmless. */
  lemma ChunkedThresholdExactlyWhen(header: string, chunks: seq<string>, stream: string)
    requires IsHeaderBlock(header) && IsChunkedTransfer(header) && LengthValueAt(header) == None
    requires NonEmpty(chunks) && stream == header + Encode(chunks)
    ensures Steady(stream)
    ensures Threshold(stream) == |stream| <==> AllHarmless(chunks)
  {
    BlockIsSteady(header, Encode(chunks));
    if AllHarmless(chunks) {
      HarmlessThreshold(header, chunks, stream);
    }
    if Threshold(stream) == |stream| {
      ThresholdAtEnd(header, chunks, stream);
    }
  }

  lemma ThresholdWithMore(stream: string, more: string, all: string)
    requires all == stream + more && Steady(stream) && Steady(all)
    ensures Threshold(all) == |stream| <==> Threshold(stream) == |stream|
  {
    if Threshold(stream) == |stream| {
      CompleteAtThreshold(stream);
      ThresholdIgnoresTheRest(stream, more, all);
    }
    if Threshold(all) == |stream| {
      forall n | 0 <= n <= |stream| ensures CompleteAt(stream)(n) <==> n == |stream| {
        SamePrefix(stream, more, all, n);
        CompleteFromThreshold(all, n);
      }
      ThresholdIs(stream, |stream|);
    }
  }

  /** The same with anything behind the message. */
  lemma ChunkedThresholdWithMore(header: string, chunks: seq<string>, more: string, message: string, all: string)
    requires IsHeaderBlock(header) && IsChunkedTransfer(header) && LengthValueAt(header) == None
    requires NonEmpty(chunks) && message == header + Encode(chunks) && all == message + more
    ensures Steady(all)
    ensures Threshold(all) == |message| <==> AllHarmless(chunks)
  {
    ChunkedThresholdExactlyWhen(header, chunks, message);
    SteadyWithMore(header, Encode(chunks), more, all);
    ThresholdWithMore(message, more, all);
  }

  lemma CompleteAtThreshold(stream: string)
    requires Threshold(stream) <= |stream|
    ensures Complete(stream)
  {
    assert stream[..|stream|] == stream;
  }

  // ---------- Runs ----------

  lemma WholeMessage(trace: seq<Recv>, stream: string)
    requires Quiet(trace) && stream == Concat(Pieces(trace)) && Steady(stream) && Threshold(stream) == |stream|
    ensures ReceiveResponse(trace).0 == Framed && ReceiveResponse(trace).1.buffer == stream
  {
    var k := StopsAtThreshold(trace);
    PrefixOfPieces(Pieces(trace), k);
  }

  lemma PrefixOfPieces(all: seq<string>, k: nat)
    requires k <= |all|
    ensures |Concat(all[..k])| <= |Concat(all)|
    ensures |Concat(all[..k])| == |Concat(all)| ==> Concat(all[..k]) == Concat(all)
  {
    assert all == all[..k] + all[k..];
    ConcatSplit(all[..k], all[k..]);
  }

  ghost predicate ReceivedWhole(trace: seq<Recv>, stream: string) {
    ReceiveResponse(trace).0 == Framed && ReceiveResponse(trace).1.buffer == stream
  }

  /** Every byte in a call of its own. */
  function Bytewise(stream: string): seq<Recv> {
    seq(|stream|, i requires 0 <= i < |stream| => Data([stream[i]]))
  }

  lemma {:induction false} BytewisePieces(stream: string)
    ensures Quiet(Bytewise(stream)) && |Pieces(Bytewise(stream))| == |stream|
    ensures forall k | 0 <= k < |stream| :: Pieces(Bytewise(stream))[k] == [stream[k]]
    decreases |stream|
  {
    if stream != "" {
      assert Bytewise(stream)[1..] == Bytewise(stream[1..]);
      BytewisePieces(stream[1..]);
    }
  }

  lemma {:induction false} SingleBytes(pieces: seq<string>, stream: string)
    requires |pieces| == |stream| && forall k | 0 <= k < |stream| :: pieces[k] == [stream[k]]
    ensures Concat(pieces) == stream
    decreases |stream|
  {
    if stream != "" {
      var n := |stream| - 1;
      SingleBytes(pieces[..n], stream[..n]);
      assert stream == stream[..n] + [stream[n]];
    }
  }

  lemma BytesOf(stream: string, k: nat)
    requires k <= |stream|
    ensures k <= |Pieces(Bytewise(stream))| && Concat(Pieces(Bytewise(stream))[..k]) == stream[..k]
  {
    BytewisePieces(stream);
    SingleBytes(Pieces(Bytewise(stream))[..k], stream[..k]);
  }

  lemma BytewiseIsWhole(stream: string)
    ensures Quiet(Bytewise(stream)) && Concat(Pieces(Bytewise(stream))) == stream
  {
    BytewisePieces(stream);
    SingleBytes(Pieces(Bytewise(stream)), stream);
  }

  /** Byte by byte the client stops at the threshold itself. */
  lemma BytewiseStopsAtThreshold(stream: string)
    requires Steady(stream) && 0 < Threshold(stream) < |stream|
    ensures !ReceivedWhole(Bytewise(stream), stream)
  {
    BytewisePieces(stream);
    BytewiseIsWhole(stream);
    var k := StopsAtThreshold(Bytewise(stream));
    BytesOf(stream, k);
    BytesOf(stream, Threshold(stream));
  }

  lemma ThresholdIsPositive(stream: string)
    ensures Threshold(stream) > 0
  {
    NothingReceived();
    assert stream[..0] == "";
  }

  /** What is never complete is waited for without end. */
  lemma BytewiseWaits(stream: string)
    requires Steady(stream) && Threshold(stream) > |stream|
    ensures !ReceivedWhole(Bytewise(stream), stream)
  {
    BytewiseIsWhole(stream);
    var k := StopsAtThreshold(Bytewise(stream));
    PrefixOfPieces(Pieces(Bytewise(stream)), k);
  }

  ghost predicate AlwaysReceived(stream: string) {
    forall trace :: Quiet(trace) && Concat(Pieces(trace)) == stream ==> ReceivedWhole(trace, stream)
  }

  lemma AlwaysReceivedExactlyWhen(stream: string)
    requires Steady(stream)
    ensures AlwaysReceived(stream) <==> Threshold(stream) == |stream|
  {
    if Threshold(stream) == |stream| {
      forall trace | Quiet(trace) && Concat(Pieces(trace)) == stream ensures ReceivedWhole(trace, stream) {
        WholeMessage(trace, stream);
      }
    } else {
      BytewiseIsWhole(stream);
      if Threshold(stream) > |stream| {
        BytewiseWaits(stream);
      } else {
        ThresholdIsPositive(stream);
        BytewiseStopsAtThreshold(stream);
      }
    }
  }

  /** A length-framed message is received whole, however it is split, exactly unless it stops early. */
  lemma LengthMessageReceivedExactlyWhen(header: string, body: string, stream: string)
    requires IsHeaderBlock(header) && !BlankLength(header) && ContentLength(header) == Some(|body|)
    requires stream == header + body
    ensures AlwaysReceived(stream) <==> !StopsEarly(header, body)
  {
    LengthThresholdExactlyWhen(header, body, stream);
    AlwaysReceivedExactlyWhen(stream);
  }

  /** A chunked message is received whole, however it is split, exactly if every chunk's data is harmless. */
  lemma ChunkedMessageReceivedExactlyWhen(header: string, chunks: seq<string>, stream: string)
    requires IsHeaderBlock(header) && IsChunkedTransfer(header) && LengthValueAt(header) == None
    requires NonEmpty(chunks) && stream == header + Encode(chunks)
    ensures AlwaysReceived(stream) <==> AllHarmless(chunks)
  {
    ChunkedThresholdExactlyWhen(header, chunks, stream);
    AlwaysReceivedExactlyWhen(stream);
  }

  // ---------- A blank length ----------

  lemma BlankBodies()
    ensures StrToULL(CStr("1")) == Some(1) && StrToULL(CStr("12")) == Some(12)
    ensures !ChunkedBodyComplete(CStr("12"))
  {
    var s, t := "1", "12";
    CStrOf(s);
    CStrOf(t);
    assert t[1..] == "2" && t[1..][1..] == "" && s[1..] == "";
    assert DigitRun(s) == 1 && DigitRun(t) == 2;
    assert s[..1] == s && t[..2] == t && t[..1] == s && s[..0] == "";
    assert Value(s, 10) == 1 && Value(t, 10) == 12;
    StrStrMeaning(t, CHUNK_END);
  }

  lemma FirstPiece(header: string, body: string)
    requires IsHeaderBlock(header) && BlankLength(header)
    ensures var st := Absorb(NEW_READER, header + body);
      && st.buffer == header + body && st.length == StrToULL(CStr(body))
      && (st.complete <==>
          (st.length.Some? && |body| >= st.length.value) || (st.chunked && ChunkedBodyComplete(CStr(body))))
  {
    assert "" + (header + body) == header + body;
    TextOfBlock(header, body);
    BlankLengthReadsTheBody(header, body);
    assert (header + CStr(body))[|header|..] == CStr(body);
  }

  lemma NextPiece(header: string, body: string, bytes: string, st: Reader)
    requires IsHeaderBlock(header) && st.buffer == header + body && st.length == Some(|body + bytes|)
    ensures var next := Absorb(st, bytes); next.complete && next.buffer == header + (body + bytes)
  {
    assert header + body + bytes == header + (body + bytes);
    TextOfBlock(header, body + bytes);
  }

  lemma ReceiveNext(st: Reader, bytes: string, rest: seq<Recv>)
    ensures var next := Absorb(st, bytes);
      Receive(Absorb, Stop, st, [Data(bytes)] + rest) ==
        if next.complete then (Framed, next) else Receive(Absorb, Stop, next, rest)
    ensures Pieces([Data(bytes)] + rest) == [bytes] + Pieces(rest)
  {
    assert ([Data(bytes)] + rest)[1..] == rest;
  }

  lemma TwoPieces(a: string, b: string)
    ensures Pieces([Data(a), Data(b)]) == [a, b] && Concat([a, b]) == a + b
    ensures var st := Absorb(NEW_READER, a);
      ReceiveResponse([Data(a), Data(b)]) ==
        if st.complete then (Framed, st)
        else if Absorb(st, b).complete then (Framed, Absorb(st, b)) else (Waiting, Absorb(st, b))
  {
    var st := Absorb(NEW_READER, a);
    assert [Data(a), Data(b)] == [Data(a)] + ([Data(b)] + []);
    ReceiveNext(NEW_READER, a, [Data(b)] + []);
    ReceiveNext(st, b, []);
    assert [a] + ([b] + []) == [a, b];
    assert [a, b][..1] == [a] && [a][..0] == [] && "" + a == a;
    assert Concat([a]) == a;
  }

  /** The digits that have arrived when the headers are complete are taken for the whole length. */
  lemma BlankLengthSplits(header: string, one: string, two: string, rest: string)
    requires IsHeaderBlock(header) && BlankLength(header) && two != ""
    requires StrToULL(CStr(one)) == Some(|one|) && !ChunkedBodyComplete(CStr(one + two))
    requires StrToULL(CStr(one + two)) == Some(|one + two + rest|) && rest != ""
    ensures ReceiveResponse([Data(header + one), Data(two + rest)]).0 == Framed
    ensures ReceiveResponse([Data(header + one), Data(two + rest)]).1.buffer == header + one
    ensures ReceiveResponse([Data(header + (one + two)), Data(rest)]).0 == Framed
    ensures ReceiveResponse([Data(header + (one + two)), Data(rest)]).1.buffer == header + (one + two + rest)
  {
    TwoPieces(header + one, two + rest);
    FirstPiece(header, one);
    TwoPieces(header + (one + two), rest);
    FirstPiece(header, one + two);
    NextPiece(header, one + two, rest, Absorb(NEW_READER, header + (one + two)));
  }

  lemma SplitsOfOne(header: string, one: string, two: string, rest: string)
    ensures Concat(Pieces([Data(header + one), Data(two + rest)]))
      == Concat(Pieces([Data(header + (one + two)), Data(rest)]))
  {
    TwoPieces(header + one, two + rest);
    TwoPieces(header + (one + two), rest);
    SplitText(header, one, two, rest);
  }

  lemma SplitText(header: string, one: string, two: string, rest: string)
    ensures (header + one) + (two + rest) == (header + (one + two)) + rest
  {}

  ghost predicate ReadTo(trace: seq<Recv>, length: nat) {
    Quiet(trace) && ReceiveResponse(trace).0 == Framed && |ReceiveResponse(trace).1.buffer| == length
  }

  lemma BlankLengthSplitsDiffer(header: string, one: string, two: string, rest: string)
    returns (a: seq<Recv>, b: seq<Recv>)
    requires IsHeaderBlock(header) && BlankLength(header) && two != "" && rest != ""
    requires StrToULL(CStr(one)) == Some(|one|) && !ChunkedBodyComplete(CStr(one + two))
    requires StrToULL(CStr(one + two)) == Some(|one + two + rest|)
    ensures Concat(Pieces(a)) == Concat(Pieces(b))
    ensures ReadTo(a, |header + one|) && ReadTo(b, |header + (one + two + rest)|)
  {
    a, b := [Data(header + one), Data(two + rest)], [Data(header + (one + two)), Data(rest)];
    SplitsOfOne(header, one, two, rest);
    BlankLengthSplits(header, one, two, rest);
  }

  /** With a blank length the same bytes, split differently, are read to different ends. */
  lemma BlankLengthSplitsMatter(header: string) returns (a: seq<Recv>, b: seq<Recv>)
    requires IsHeaderBlock(header) && BlankLength(header)
    ensures Concat(Pieces(a)) == Concat(Pieces(b))
    ensures ReadTo(a, |header| + 1) && ReadTo(b, |header| + 12)
  {
    BlankBodies();
    assert "1" + "2" == "12";
    a, b := BlankLengthSplitsDiffer(header, "1", "2", "xxxxxxxxxx");
  }

  // ---------- There are such header blocks ----------

  lemma BlockOfLine(line: string, header: string)
    requires Without(line, '\r') && Without(line, '\0') && header == line + HEADER_END
    ensures IsHeaderBlock(header)
  {
    assert header[|line|..] == HEADER_END;
    forall j | 0 <= j < |line| ensures !OccursAt(header, HEADER_END, j) {
      OccursChars(header, HEADER_END, j);
      assert header[j] == line[j];
    }
    StrStrIs(header, HEADER_END, |line|);
  }

  lemma KeyIsPlain()
    ensures Without(LENGTH_KEY, '\r') && Without(LENGTH_KEY, '\0') && |LENGTH_KEY| == 15
  {}

  lemma ValueIsBehindKey(value: string, header: string)
    requires header == LENGTH_KEY + value
    ensures LengthValueAt(header) == Some(15) && header[15..] == value
  {
    KeyIsPlain();
    assert header[0..15] == LENGTH_KEY;
    StrStrIs(header, LENGTH_KEY, 0);
  }

  lemma DigitsAreUnsigned(t: string, n: nat)
    requires IsNumeral(t, 10) && Value(t, 10) == n <= ULL_MAX
    ensures Unsigned(t, false) == Some(n)
  {
    AllDigits(t);
    assert t[..|t|] == t;
  }

  lemma DigitIsNoSpace(t: string)
    requires IsNumeral(t, 10)
    ensures !AllSpace(t) && SkipSpace(t) == t && t[0] != '-' && t[0] != '+'
  {
    assert !IsSpace(t[0]);
  }

  lemma NumeralIsParsed(t: string, n: nat, rest: string)
    requires IsNumeral(t, 10) && Value(t, 10) == n <= ULL_MAX && rest != "" && !IsDigit(rest[0], 10)
    ensures StrToULL(SkipBlanks(t + rest)) == Some(n)
  {
    DigitIsNoSpace(t);
    DigitsAreUnsigned(t, n);
    LengthTextStops(t, rest);
  }

  lemma DecIsParsed(n: nat, rest: string)
    requires n <= ULL_MAX && rest != "" && !IsDigit(rest[0], 10)
    ensures StrToULL(SkipBlanks(Dec(n) + rest)) == Some(n)
  {
    NumeralValue(n, 10);
    NumeralIsParsed(Dec(n), n, rest);
  }

  lemma LengthOfBlock(header: string, n: nat)
    requires IsHeaderBlock(header) && LengthValueAt(header) == Some(15) && |header| > 19
    requires n <= ULL_MAX && header[15..] == Dec(n) + HEADER_END
    ensures !BlankLength(header) && ContentLength(header) == Some(n)
  {
    DecIsPlain(n);
    DecIsParsed(n, HEADER_END);
    ContentLengthOf(header, "");
    assert CStr("") == "" && header + "" == header;
    assert header[15..|header| - 4][0] == Dec(n)[0];
  }

  /** A header block that states a length. */
  lemma LengthHeader(n: nat) returns (header: string)
    requires n <= ULL_MAX
    ensures IsHeaderBlock(header) && !BlankLength(header) && ContentLength(header) == Some(n)
  {
    header := LENGTH_KEY + (Dec(n) + HEADER_END);
    KeyIsPlain();
    DecIsPlain(n);
    BlockOfLine(LENGTH_KEY + Dec(n), header);
    ValueIsBehindKey(Dec(n) + HEADER_END, header);
    LengthOfBlock(header, n);
  }

  /** A header block whose length is blank. */
  lemma BlankHeader() returns (header: string)
    ensures IsHeaderBlock(header) && BlankLength(header)
  {
    header := LENGTH_KEY + HEADER_END;
    KeyIsPlain();
    BlockOfLine(LENGTH_KEY, header);
    ValueIsBehindKey(HEADER_END, header);
    assert header[15..|header| - 4] == "";
  }

  /** So there are pages about chunked framing that some splits do not get through. */
  lemma PagesAreCutShort(tail: string) returns (header: string, body: string)
    requires 0 < |tail| < 1000
    ensures body == ENCODING_KEY + " chunked" + CHUNK_END + tail && !AlwaysReceived(header + body)
    ensures IsHeaderBlock(header) && ContentLength(header) == Some(|body|)
  {
    body := ENCODING_KEY + " chunked" + CHUNK_END + tail;
    header := LengthHeader(|body|);
    PageAboutChunkingStopsEarly(header, tail);
    LengthMessageReceivedExactlyWhen(header, body, header + body);
  }

  /** And streams whose end depends on how they arrive. */
  lemma SplitsDiffer() returns (a: seq<Recv>, b: seq<Recv>)
    ensures Concat(Pieces(a)) == Concat(Pieces(b)) && ReceiveResponse(a).0 == ReceiveResponse(b).0 == Framed
    ensures |ReceiveResponse(a).1.buffer| < |ReceiveResponse(b).1.buffer|
  {
    var header := BlankHeader();
    a, b := BlankLengthSplitsMatter(header);
  }
}
