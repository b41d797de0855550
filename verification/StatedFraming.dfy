/** Responses whose header block states its framing in the usual words. */
module StatedFraming {
  import opened ChunkedBody
  import opened HttpFraming
  import opened HttpMessages
  import opened Text
  import opened Wrappers

  /** Text through its first blank line, and no NUL. */
  ghost predicate EndsWithBlankLine(header: string) {
    |header| >= 4 && Without(header, '\0') && StrStr(header, "\r\n\r\n") == Some(|header| - 4)
  }

  ghost predicate NotBefore(header: string, key: string, n: nat) {
    forall i | 0 <= i < n :: !OccursAt(header, key, i)
  }

  lemma PartStandsThere(a: string, b: string, c: string)
    ensures OccursAt(a + (b + c), b, |a|) && (a + (b + c))[|a| + |b|..] == c
  {
    var s := a + (b + c);
    assert s[|a|..|a| + |b|] == b;
  }

  lemma EndIsLineEnd(header: string, i: nat)
    requires EndsWithBlankLine(header) && i < |header| && header[i] != '\r' && header[i] != '\n'
    ensures i < |header| - 4
  {
    StrStrMeaning(header, "\r\n\r\n");
    OccursChars(header, "\r\n\r\n", |header| - 4);
    var end := header[|header| - 4..];
    assert end == "\r\n\r\n";
    assert forall k | 0 <= k < 4 :: header[|header| - 4 + k] == end[k];
    assert forall j | |header| - 4 <= j < |header| :: header[j] == end[j - (|header| - 4)];
  }

  lemma BlankIsSkipped(s: string)
    ensures SkipBlanks(" " + s) == SkipBlanks(s)
  {
    assert (" " + s)[1..] == s;
  }

  lemma DigitInside(header: string, v: nat, digits: string, rest: string)
    requires EndsWithBlankLine(header) && v <= |header| && header[v..] == " " + (digits + rest)
    requires digits != "" && '0' <= digits[0] <= '9'
    ensures v + 1 < |header| - 4 && header[v + 1] == digits[0]
  {
    assert header[v + 1] == header[v..][1] == digits[0];
    EndIsLineEnd(header, v + 1);
  }

  lemma DigitIsNotBlank(header: string, v: nat)
    requires IsHeaderBlock(header) && LengthValueAt(header) == Some(v) && v + 1 < |header| - 4
    requires '0' <= header[v + 1] <= '9'
    ensures !BlankLength(header)
  {
    assert header[v..|header| - 4][1] == header[v + 1];
  }

  lemma StatedValue(header: string, v: nat, digits: string, n: nat, rest: string)
    requires EndsWithBlankLine(header) && LengthValueAt(header) == Some(v) && v <= |header|
    requires header[v..] == " " + (digits + rest) && digits == Dec(n) && n <= ULL_MAX
    requires rest != "" && !IsDigit(rest[0], 10)
    ensures IsHeaderBlock(header) && !BlankLength(header) && ContentLength(header) == Some(n)
  {
    assert "\r\n\r\n" == HEADER_END;
    DecIsPlain(n);
    DigitInside(header, v, digits, rest);
    DigitIsNotBlank(header, v);
    BlankIsSkipped(digits + rest);
    DecIsParsed(n, rest);
    ContentLengthOf(header, "");
    assert CStr("") == "" && header + "" == header;
  }

  lemma DigitsAreRead(n: nat, rest: string, text: string, negative: bool)
    requires text == Dec(n) + rest && (rest == "" || !IsDigit(rest[0], 10))
    ensures text != "" && IsDigit(text[0], 10)
    ensures Unsigned(text, negative) ==
      Some(if n > ULL_MAX then ULL_MAX else if negative && n != 0 then ULL_MAX + 1 - n else n)
  {
    NumeralValue(n, 10);
    AllDigits(Dec(n));
    DigitRunGrows(Dec(n), rest);
    assert text[..|Dec(n)|] == Dec(n) && text[0] == Dec(n)[0];
  }

  /** A number too large for 64 bits is read as the largest, and one behind a minus sign as its complement. */
  lemma NumbersAreRead(n: nat, rest: string)
    requires rest == "" || !IsDigit(rest[0], 10)
    ensures StrToULL(Dec(n) + rest) == Some(if n < 0x1_0000_0000_0000_0000 then n else 0xFFFF_FFFF_FFFF_FFFF)
    ensures StrToULL("-" + (Dec(n) + rest)) ==
      if n == 0 then Some(0)
      else if n < 0x1_0000_0000_0000_0000 then Some(0x1_0000_0000_0000_0000 - n) else Some(0xFFFF_FFFF_FFFF_FFFF)
  {
    var text := Dec(n) + rest;
    DigitsAreRead(n, rest, text, false);
    DigitsAreRead(n, rest, text, true);
    assert ("-" + text)[1..] == text;
  }

  /** The first field `Content-Length: n` sets the length. */
  lemma StatedLengthIsRead(lines: string, n: nat, rest: string, header: string)
    requires header == lines + ("Content-Length:" + (" " + (Dec(n) + ("\r\n" + rest))))
    requires EndsWithBlankLine(header) && NotBefore(header, "Content-Length:", |lines|)
    requires n <= 0xFFFF_FFFF_FFFF_FFFF
    ensures IsHeaderBlock(header) && !BlankLength(header) && ContentLength(header) == Some(n)
  {
    var value := " " + (Dec(n) + ("\r\n" + rest));
    PartStandsThere(lines, "Content-Length:", value);
    StrStrIs(header, LENGTH_KEY, |lines|);
    assert |"Content-Length:"| == 15;
    StatedValue(header, |lines| + 15, Dec(n), n, "\r\n" + rest);
  }

  lemma NeverChunked(header: string, body: string)
    requires !Contains(header + body, "Transfer-Encoding:")
    ensures !StopsEarly(header, body)
  {
    if body != "" {
      var seen := header + body[..|body| - 1];
      if IsChunkedTransfer(CStr(seen)) {
        assert body == body[..|body| - 1] + body[|body| - 1..];
        assert header + body == seen + body[|body| - 1..];
        FoundStays(CStr(seen), header + body, ENCODING_KEY);
      }
    }
  }

  /** With no mention of another framing, a body of that length is received whole, however it is split. */
  lemma StatedLengthIsReceived(lines: string, rest: string, header: string, body: string)
    requires header == lines + ("Content-Length:" + (" " + (Dec(|body|) + ("\r\n" + rest))))
    requires EndsWithBlankLine(header) && NotBefore(header, "Content-Length:", |lines|)
    requires |body| <= 0xFFFF_FFFF_FFFF_FFFF && !Contains(header + body, "Transfer-Encoding:")
    ensures AlwaysReceived(header + body)
  {
    StatedLengthIsRead(lines, |body|, rest, header);
    NeverChunked(header, body);
    LengthMessageReceivedExactlyWhen(header, body, header + body);
  }

  /** The field `Transfer-Encoding: chunked` sets chunked framing. */
  lemma StatedChunkingIsRead(lines: string, rest: string, header: string)
    requires header == lines + ("Transfer-Encoding:" + (" chunked" + ("\r\n" + rest)))
    ensures IsChunkedTransfer(header)
  {
    PartStandsThere(lines, "Transfer-Encoding:", " chunked" + ("\r\n" + rest));
    assert |"Transfer-Encoding:"| == 18;
    var value := lines + "Transfer-Encoding:" + " ";
    assert " chunked" == " " + "chunked";
    assert header == value + ("chunked" + ("\r\n" + rest));
    PartStandsThere(value, "chunked", "\r\n" + rest);
    StrStrMeaning(header, ENCODING_KEY);
    FoundBehind(header, StrStr(header, ENCODING_KEY).value, "chunked", |value|);
  }

  /** With no length stated beside it, chunks are received whole exactly if their data is harmless. */
  lemma StatedChunkingIsReceivedExactlyWhen(lines: string, rest: string, header: string, chunks: seq<string>)
    requires header == lines + ("Transfer-Encoding:" + (" chunked" + ("\r\n" + rest)))
    requires EndsWithBlankLine(header) && !Contains(header, "Content-Length:") && NonEmpty(chunks)
    ensures AlwaysReceived(header + Encode(chunks)) <==> AllHarmless(chunks)
  {
    assert "\r\n\r\n" == HEADER_END && "Content-Length:" == LENGTH_KEY;
    StatedChunkingIsRead(lines, rest, header);
    ChunkedMessageReceivedExactlyWhen(header, chunks, header + Encode(chunks));
  }
}
