/** The chunked coding of RFC 9112, section 7.1, against the client's test for its end. */
module ChunkedBody {
  import opened HttpFraming
  import opened Text

  const CRLF := "\r\n"

  /** Chunks with minimal hexadecimal sizes, the last-chunk, and no trailers. */
  function Encode(chunks: seq<string>): string {
    if chunks == [] then "0\r\n\r\n" else Hex(|chunks[0]|) + (CRLF + chunks[0] + CRLF + Encode(chunks[1..]))
  }

  ghost predicate NonEmpty(chunks: seq<string>) {
    forall i | 0 <= i < |chunks| :: chunks[i] != ""
  }

  /** Chunk data that, between its two line ends, cannot be taken for the end of the body or of a C string. */
  predicate Harmless(c: string) {
    Without(c, '\0') && !Contains(CRLF + c + CRLF, CHUNK_END)
  }

  predicate AllHarmless(chunks: seq<string>) {
    forall i | 0 <= i < |chunks| :: Harmless(chunks[i])
  }

  /** Starts with a size and ends with the end of the body. */
  ghost predicate Ends(e: string) {
    && |e| >= 5 && ('0' <= e[0] <= '9' || 'a' <= e[0] <= 'f')
    && OccursAt(CRLF + e, CHUNK_END, |e| - 5)
  }

  lemma {:induction false} EncodeEnds(chunks: seq<string>)
    ensures Ends(Encode(chunks))
    decreases |chunks|
  {
    if chunks == [] {
      LastChunkEnds();
    } else {
      EncodeEnds(chunks[1..]);
      HexIsPlain(|chunks[0]|);
      ChunkEnds(Hex(|chunks[0]|), chunks[0], Encode(chunks[1..]));
    }
  }

  lemma LastChunkEnds()
    ensures Ends("0\r\n\r\n")
  {
    assert CRLF + "0\r\n\r\n" == CHUNK_END;
  }

  lemma ChunkEnds(size: string, c: string, more: string)
    requires size != "" && ('0' <= size[0] <= '9' || 'a' <= size[0] <= 'f') && Ends(more)
    ensures Ends(size + (CRLF + c + CRLF + more))
  {
    var e := size + (CRLF + c + CRLF + more);
    assert e[0] == size[0];
    EndShifts(size, c, more, e, CHUNK_END);
  }

  lemma EndShifts(size: string, c: string, more: string, e: string, pat: string)
    requires e == size + (CRLF + c + CRLF + more) && |more| >= 5 && OccursAt(CRLF + more, pat, |more| - 5)
    ensures |e| >= 5 && OccursAt(CRLF + e, pat, |e| - 5)
  {
    SplitHead(size, c, more);
    OccursShifted(CRLF + c, CRLF + more, pat, |more| - 5);
    OccursShifted(CRLF + size, (CRLF + c) + (CRLF + more), pat, |c| + |more| - 3);
  }

  lemma EndChars(s: string, i: nat)
    requires OccursAt(s, CHUNK_END, i)
    ensures i + 7 <= |s| && s[i] == '\r' && s[i + 1] == '\n' && s[i + 2] == '0'
    ensures s[i + 3] == '\r' && s[i + 4] == '\n' && s[i + 5] == '\r' && s[i + 6] == '\n'
  {
    OccursChars(s, CHUNK_END, i);
  }

  /** A hexadecimal size that is not zero does not start with a zero digit and holds no line end. */
  lemma SizeChars(n: nat)
    requires n > 0
    ensures Hex(n) != "" && Hex(n)[0] != '0'
    ensures forall i | 0 <= i < |Hex(n)| :: Hex(n)[i] != '\r' && Hex(n)[i] != '\n' && Hex(n)[i] != '\0'
  {
    NumeralValue(n, 16);
    HexIsPlain(n);
  }

  /** An end marker cannot start before the data of a chunk. */
  lemma NotInSize(c: string, rest: string, i: nat)
    requires c != "" && i < 2 + |Hex(|c|)|
    ensures !OccursAt(CRLF + (Hex(|c|) + rest), CHUNK_END, i)
  {
    var h, s := Hex(|c|), CRLF + (Hex(|c|) + rest);
    SizeChars(|c|);
    assert s[2] == h[0] && s[1] == '\n';
    if i >= 2 {
      assert s[i] == h[i - 2];
    }
    if OccursAt(s, CHUNK_END, i) {
      EndChars(s, i);
    }
  }

  /** Nor across the line end that closes harmless data. */
  lemma NotInData(c: string, next: string, i: nat)
    requires Harmless(c) && i < 2 + |c|
    requires next != "" && next[0] != '\r' && next[0] != '\n'
    ensures !OccursAt(CRLF + c + (CRLF + next), CHUNK_END, i)
  {
    var s, data := CRLF + c + (CRLF + next), CRLF + c + CRLF;
    StrStrMeaning(data, CHUNK_END);
    assert s == data + next && s[|data|] == next[0];
    if OccursAt(s, CHUNK_END, i) {
      EndChars(s, i);
      if i + 7 <= |data| {
        OccursInShorter(data, next, CHUNK_END, i);
      }
    }
  }

  /** In a harmless encoding the end marker occurs nowhere but at the end. */
  lemma {:induction false} EndOnlyAtTheEnd(chunks: seq<string>, i: nat)
    requires NonEmpty(chunks) && AllHarmless(chunks)
    requires OccursAt(CRLF + Encode(chunks), CHUNK_END, i)
    ensures i == |Encode(chunks)| - 5
    decreases |chunks|
  {
    if chunks == [] {
      EndChars(CRLF + Encode(chunks), i);
    } else {
      var c, more := chunks[0], Encode(chunks[1..]);
      var h := Hex(|c|);
      assert Harmless(c) && c != "";
      SplitHead(h, c, more);
      EncodeEnds(chunks[1..]);
      var j := EndInLaterChunks(c, more, i);
      EndOnlyAtTheEnd(chunks[1..], j);
    }
  }

  lemma SplitHead(h: string, c: string, more: string)
    ensures CRLF + (h + (CRLF + c + CRLF + more)) == (CRLF + h) + ((CRLF + c) + (CRLF + more))
  {}

  /** An end marker met at or after a harmless chunk lies in what follows that chunk. */
  lemma EndInLaterChunks(c: string, more: string, i: nat) returns (j: nat)
    requires c != "" && Harmless(c) && more != "" && more[0] != '\r' && more[0] != '\n'
    requires OccursAt((CRLF + Hex(|c|)) + ((CRLF + c) + (CRLF + more)), CHUNK_END, i)
    ensures OccursAt(CRLF + more, CHUNK_END, j) && i == j + |Hex(|c|)| + |c| + 4
  {
    var h, tail := Hex(|c|), (CRLF + c) + (CRLF + more);
    assert (CRLF + h) + tail == CRLF + (h + tail);
    if i < 2 + |h| {
      NotInSize(c, tail, i);
    }
    OccursShifted(CRLF + h, tail, CHUNK_END, i - 2 - |h|);
    if i < 4 + |h| + |c| {
      NotInData(c, more, i - 2 - |h|);
    }
    j := i - 4 - |h| - |c|;
    OccursShifted(CRLF + c, CRLF + more, CHUNK_END, j);
  }

  lemma {:induction false} EncodeWithoutNul(chunks: seq<string>)
    ensures Without(Encode(chunks), '\0') <==> forall i | 0 <= i < |chunks| :: Without(chunks[i], '\0')
    decreases |chunks|
  {
    if chunks != [] {
      var c, more := chunks[0], Encode(chunks[1..]);
      EncodeWithoutNul(chunks[1..]);
      HexIsPlain(|c|);
      var front := Hex(|c|) + CRLF;
      assert Encode(chunks) == front + c + CRLF + more;
      JoinedWithout(front, c, more);
    }
  }

  lemma JoinedWithout(front: string, c: string, more: string)
    requires Without(front, '\0')
    ensures Without(front + c + CRLF + more, '\0') <==> Without(c, '\0') && Without(more, '\0')
  {
    var all := front + c + CRLF + more;
    assert forall i | 0 <= i < |c| :: all[|front| + i] == c[i];
    assert forall i | 0 <= i < |more| :: all[|front| + |c| + 2 + i] == more[i];
  }

  /** A prefix passes the test exactly when it is the whole encoding. */
  ghost predicate RecognisedExactly(chunks: seq<string>) {
    var e := Encode(chunks);
    forall n | 0 <= n <= |e| :: ChunkedBodyComplete(CStr(e[..n])) <==> n == |e|
  }

  lemma HarmlessPrefixes(chunks: seq<string>, n: nat)
    requires NonEmpty(chunks) && AllHarmless(chunks) && n <= |Encode(chunks)|
    ensures ChunkedBodyComplete(CStr(Encode(chunks)[..n])) <==> n == |Encode(chunks)|
  {
    var e := Encode(chunks);
    EncodeWithoutNul(chunks);
    CStrOf(e[..n]);
    if chunks == [] {
      NoChunks(n);
    } else {
      SizeChars(|chunks[0]|);
      assert e[0] == Hex(|chunks[0]|)[0];
      MarkerInPrefix(chunks, n);
    }
  }

  lemma NoChunks(n: nat)
    requires n <= 5
    ensures ChunkedBodyComplete("0\r\n\r\n"[..n]) <==> n == 5
  {
    var p := "0\r\n\r\n"[..n];
    StrStrMeaning(p, CHUNK_END);
  }

  lemma MarkerInPrefix(chunks: seq<string>, n: nat)
    requires chunks != [] && NonEmpty(chunks) && AllHarmless(chunks) && n <= |Encode(chunks)|
    ensures Contains(Encode(chunks)[..n], CHUNK_END) <==> n == |Encode(chunks)|
  {
    var e := Encode(chunks);
    var p, q := e[..n], e[n..];
    assert e == p + q;
    EncodeEnds(chunks);
    EncodeIsLong(chunks);
    OccursShifted(CRLF, e, CHUNK_END, |e| - 7);
    StrStrMeaning(p, CHUNK_END);
    if Contains(p, CHUNK_END) {
      var i := StrStr(p, CHUNK_END).value;
      OccursInLonger(p, q, CHUNK_END, i);
      OccursShifted(CRLF, e, CHUNK_END, i);
      EndOnlyAtTheEnd(chunks, i + 2);
    }
    if n == |e| {
      assert p == e;
    }
  }

  lemma EncodeIsLong(chunks: seq<string>)
    requires chunks != []
    ensures |Encode(chunks)| >= 7
  {
    EncodeEnds(chunks[1..]);
  }

  /** A chunk of the list, with everything before and after it in the encoding. */
  lemma {:induction false} AroundChunk(chunks: seq<string>, k: nat) returns (a: string, b: string)
    requires k < |chunks|
    ensures Encode(chunks) == a + (CRLF + chunks[k] + CRLF) + b && b != ""
    decreases k
  {
    if k == 0 {
      a, b := Hex(|chunks[0]|), Encode(chunks[1..]);
      EncodeEnds(chunks[1..]);
    } else {
      var a', b' := AroundChunk(chunks[1..], k - 1);
      a, b := Hex(|chunks[0]|) + (CRLF + chunks[0] + CRLF) + a', b';
    }
  }

  lemma HarmfulChunkShows(chunks: seq<string>, k: nat)
    requires k < |chunks| && !Harmless(chunks[k])
    ensures !RecognisedExactly(chunks)
  {
    var e, c := Encode(chunks), chunks[k];
    EncodeWithoutNul(chunks);
    if !Without(e, '\0') {
      var z := IndexOf(e, '\0');
      assert z < |e| && CStr(e) == e[..z];
      CStrOf(e[..z]);
      assert e[..|e|] == e;
      assert ChunkedBodyComplete(CStr(e[..z])) == ChunkedBodyComplete(CStr(e[..|e|]));
    } else {
      var a, b := AroundChunk(chunks, k);
      var data := CRLF + c + CRLF;
      var n := |a + data|;
      assert e[..n] == a + data;
      CStrOf(e[..n]);
      StrStrMeaning(data, CHUNK_END);
      StrStrMeaning(a + data, CHUNK_END);
      OccursShifted(a, data, CHUNK_END, StrStr(data, CHUNK_END).value);
      assert n < |e| && ChunkedBodyComplete(CStr(e[..n]));
    }
  }

  /** The client's end test is right on an encoding exactly when every chunk's data is harmless. */
  lemma RecognisedExactlyWhenHarmless(chunks: seq<string>)
    requires NonEmpty(chunks)
    ensures RecognisedExactly(chunks) <==> AllHarmless(chunks)
  {
    if AllHarmless(chunks) {
      forall n | 0 <= n <= |Encode(chunks)|
        ensures ChunkedBodyComplete(CStr(Encode(chunks)[..n])) <==> n == |Encode(chunks)|
      {
        HarmlessPrefixes(chunks, n);
      }
    } else {
      var k :| 0 <= k < |chunks| && !Harmless(chunks[k]);
      HarmfulChunkShows(chunks, k);
    }
  }

  /** Data without carriage returns or NULs is always harmless. */
  lemma PlainDataIsHarmless(c: string)
    requires c != "" && Without(c, '\r') && Without(c, '\0')
    ensures Harmless(c)
  {
    var s := CRLF + c + CRLF;
    StrStrMeaning(s, CHUNK_END);
    assert forall j | 2 <= j < 2 + |c| :: s[j] == c[j - 2];
    if Contains(s, CHUNK_END) {
      EndChars(s, StrStr(s, CHUNK_END).value);
    }
  }
}
