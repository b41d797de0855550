/** How the client decides, from the bytes received so far, that a response is complete. */
module HttpFraming {
  import opened Text
  import opened Wrappers

  const HEADER_END := "\r\n\r\n"
  const LENGTH_KEY := "Content-Length:"
  const ENCODING_KEY := "Transfer-Encoding:"
  const CHUNK_END := "\r\n0\r\n\r\n"
  const ULL_MAX: nat := 0xFFFF_FFFF_FFFF_FFFF

  // ---------- The predicates of the source ----------

  function SkipBlanks(s: string): string {
    if s != "" && (s[0] == ' ' || s[0] == '\t') then SkipBlanks(s[1..]) else s
  }

  function Unsigned(s: string, negative: bool): Option<nat> {
    var n := DigitRun(s);
    if n == 0 then None
    else
      var v := Value(s[..n], 10);
      if v > ULL_MAX then Some(ULL_MAX)
      else if negative && v != 0 then Some(ULL_MAX + 1 - v)
      else Some(v)
  }

  /** C's `strtoull` in base 10: white space, an optional sign, digits; saturating, and wrapping on a minus sign. */
  function StrToULL(s: string): Option<nat> {
    Signed(SkipSpace(s))
  }

  function Signed(t: string): Option<nat> {
    if t != "" && (t[0] == '-' || t[0] == '+') then Unsigned(t[1..], t[0] == '-') else Unsigned(t, false)
  }

  function ParseContentLength(text: string, headersLen: nat): Option<nat> {
    match StrStr(text, LENGTH_KEY)
    case None => None
    case Some(f) => if f >= headersLen then None else StrToULL(SkipBlanks(text[f + |LENGTH_KEY|..]))
  }

  /** Stores the length if there is one to read, and leaves the variable alone otherwise. */
  method StoreContentLength(text: string, headersLen: nat, before: nat) returns (found: bool, length: nat)
    ensures found <==> ParseContentLength(text, headersLen).Some?
    ensures length == if found then ParseContentLength(text, headersLen).value else before
  {
    found, length := false, before;
    var at := StrStr(text, LENGTH_KEY);
    if at.None? || at.value >= headersLen {
      return;
    }
    var p := at.value + |LENGTH_KEY|;
    ghost var value := text[p..];
    while p < |text| && (text[p] == ' ' || text[p] == '\t')
      invariant p <= |text| && SkipBlanks(text[p..]) == SkipBlanks(value)
    {
      assert text[p..][1..] == text[p + 1..];
      p := p + 1;
    }
    assert SkipBlanks(text[p..]) == text[p..];
    var number := StrToULL(text[p..]);
    if number.Some? {
      found, length := true, number.value;
    }
  }

  predicate IsChunkedTransfer(text: string) {
    match StrStr(text, ENCODING_KEY)
    case None => false
    case Some(f) => Contains(text[f..], "chunked")
  }

  predicate ChunkedBodyComplete(body: string) {
    "0\r\n\r\n" <= body || Contains(body, CHUNK_END)
  }

  // ---------- The decision, recomputed from the whole buffer ----------

  function HeadersEnd(buffer: string): Option<nat> {
    StrStr(CStr(buffer), HEADER_END)
  }

  /** What the whole buffer says about the body length; nothing before the headers are complete. */
  function ContentLength(buffer: string): Option<nat> {
    match HeadersEnd(buffer)
    case None => None
    case Some(h) => ParseContentLength(CStr(buffer), h + 4)
  }

  predicate UsesChunked(buffer: string) {
    HeadersEnd(buffer).Some? && IsChunkedTransfer(CStr(buffer))
  }

  predicate FramedComplete(buffer: string, length: Option<nat>, chunked: bool) {
    match HeadersEnd(buffer)
    case None => false
    case Some(h) =>
      || (length.Some? && |buffer| - (h + 4) >= length.value)
      || (chunked && ChunkedBodyComplete(CStr(buffer)[h + 4..]))
  }

  predicate Complete(buffer: string) {
    FramedComplete(buffer, ContentLength(buffer), UsesChunked(buffer))
  }

  // ---------- Longer buffers ----------

  lemma CutBefore(a: string, b: string, k: nat)
    requires k <= |a|
    ensures (a + b)[..k] == a[..k]
  {}

  lemma CutAfter(a: string, b: string, k: nat)
    requires k <= |b|
    ensures (a + b)[..|a| + k] == a + b[..k] && a[..|a|] == a
  {}

  lemma CStrGrows(a: string, b: string)
    ensures CStr(a) <= CStr(a + b)
    ensures IndexOf(a, '\0') == |a| ==> CStr(a + b) == a + CStr(b)
  {
    var k := IndexOf(a, '\0');
    IndexOfGrows(a, b, '\0');
    if k < |a| {
      CutBefore(a, b, k);
    } else {
      CutAfter(a, b, IndexOf(b, '\0'));
    }
  }

  lemma HeadersEndStays(a: string, b: string)
    requires HeadersEnd(a).Some?
    ensures HeadersEnd(a + b) == HeadersEnd(a)
  {
    CStrGrows(a, b);
    FoundStays(CStr(a), CStr(a + b), HEADER_END);
  }

  /** Once seen, chunked framing stays seen. */
  lemma ChunkedStays(a: string, b: string)
    requires UsesChunked(a)
    ensures UsesChunked(a + b)
  {
    CStrGrows(a, b);
    HeadersEndStays(a, b);
    var s, t := CStr(a), CStr(a + b);
    FoundStays(s, t, ENCODING_KEY);
    var f := StrStr(s, ENCODING_KEY).value;
    assert s[f..] <= t[f..];
    FoundStays(s[f..], t[f..], "chunked");
  }

  lemma ChunkedBodyStays(a: string, b: string)
    requires a <= b && ChunkedBodyComplete(a)
    ensures ChunkedBodyComplete(b)
  {
    if Contains(a, CHUNK_END) {
      FoundStays(a, b, CHUNK_END);
    }
  }

  // ---------- When the length is stable ----------

  predicate AllSpace(s: string) {
    forall i | 0 <= i < |s| :: IsSpace(s[i])
  }

  lemma {:induction false} SkipSpaceGrows(t: string, x: string)
    requires !AllSpace(t)
    ensures SkipSpace(t + x) == SkipSpace(t) + x && SkipSpace(t) != "" && !IsSpace(SkipSpace(t)[0])
  {
    assert (t + x)[0] == t[0];
    if IsSpace(t[0]) {
      assert (t + x)[1..] == t[1..] + x;
      SkipSpaceGrows(t[1..], x);
    }
  }

  lemma {:induction false} SkipSpaceDrops(t: string, x: string)
    requires AllSpace(t)
    ensures SkipSpace(t + x) == SkipSpace(x)
  {
    if t == "" {
      assert t + x == x;
    } else {
      assert (t + x)[1..] == t[1..] + x;
      SkipSpaceDrops(t[1..], x);
    }
  }

  lemma {:induction false} BlanksAreSpace(s: string)
    ensures SkipSpace(SkipBlanks(s)) == SkipSpace(s)
  {
    if s != "" {
      BlanksAreSpace(s[1..]);
    }
  }

  lemma UnsignedGrows(s: string, x: string, negative: bool)
    requires x != "" ==> !IsDigit(x[0], 10)
    ensures Unsigned(s + x, negative) == Unsigned(s, negative)
  {
    DigitRunGrows(s, x);
    assert (s + x)[..DigitRun(s)] == s[..DigitRun(s)];
  }

  lemma SignedGrows(u: string, x: string)
    requires u != "" && (x != "" ==> !IsDigit(x[0], 10))
    ensures Signed(u + x) == Signed(u)
  {
    if u[0] == '-' || u[0] == '+' {
      assert (u + x)[1..] == u[1..] + x;
      UnsignedGrows(u[1..], x, u[0] == '-');
    } else {
      UnsignedGrows(u, x, false);
    }
  }

  /** A value that is not blank is read without looking past a carriage return behind it. */
  lemma LengthTextStops(t: string, x: string)
    requires !AllSpace(t) && (x != "" ==> !IsDigit(x[0], 10))
    ensures StrToULL(SkipBlanks(t + x)) == StrToULL(t)
  {
    BlanksAreSpace(t + x);
    SkipSpaceGrows(t, x);
    SignedGrows(SkipSpace(t), x);
  }

  /** A header section, through its first blank line. */
  ghost predicate IsHeaderBlock(header: string) {
    |header| >= 4 && Without(header, '\0') && StrStr(header, HEADER_END) == Some(|header| - 4)
  }

  /** Where the value of the first Content-Length field starts. */
  function LengthValueAt(header: string): Option<nat> {
    match StrStr(header, LENGTH_KEY)
    case None => None
    case Some(f) => Some(f + |LENGTH_KEY|)
  }

  /** The value field is nothing but white space up to the end of the headers. */
  ghost predicate BlankLength(header: string)
    requires IsHeaderBlock(header)
  {
    match LengthValueAt(header)
    case None => false
    case Some(v) => v <= |header| - 4 && AllSpace(header[v..|header| - 4])
  }

  lemma KeyHasNoLineEnd(text: string, f: nat)
    requires OccursAt(text, LENGTH_KEY, f)
    ensures f + |LENGTH_KEY| <= |text|
    ensures forall j | f <= j < f + |LENGTH_KEY| :: text[j] != '\r' && text[j] != '\n'
  {
    OccursChars(text, LENGTH_KEY, f);
    assert |LENGTH_KEY| == 15 && forall i | 0 <= i < 15 :: LENGTH_KEY[i] != '\r' && LENGTH_KEY[i] != '\n';
    forall j | f <= j < f + 15 ensures text[j] != '\r' && text[j] != '\n' {
      assert text[f + (j - f)] == LENGTH_KEY[j - f];
    }
  }

  lemma HeaderTail(header: string)
    requires IsHeaderBlock(header)
    ensures var n := |header|;
      header[n - 4..] == HEADER_END
      && header[n - 4] == '\r' && header[n - 3] == '\n' && header[n - 2] == '\r' && header[n - 1] == '\n'
  {
    StrStrMeaning(header, HEADER_END);
    OccursChars(header, HEADER_END, |header| - 4);
  }

  /** A field name that starts within the headers ends before the blank line. */
  lemma KeyEndsInHeaders(header: string, text: string, f: nat)
    requires IsHeaderBlock(header) && header <= text && OccursAt(text, LENGTH_KEY, f) && f < |header|
    ensures f + |LENGTH_KEY| <= |header| - 4 && OccursAt(header, LENGTH_KEY, f)
  {
    KeyHasNoLineEnd(text, f);
    HeaderTail(header);
    var n := |header|;
    var at := if f <= n - 4 then n - 4 else f;
    assert text[at] == header[at];
    assert text == header + text[n..];
    OccursInShorter(header, text[n..], LENGTH_KEY, f);
  }

  lemma TextOfBlock(header: string, body: string)
    requires IsHeaderBlock(header)
    ensures CStr(header + body) == header + CStr(body)
    ensures HeadersEnd(header + body) == Some(|header| - 4)
  {
    assert IndexOf(header, '\0') == |header|;
    CStrGrows(header, body);
    FoundStays(header, header + CStr(body), HEADER_END);
  }

  /** The length that a buffer states is settled by its header block, unless the field is blank. */
  lemma ContentLengthOf(header: string, body: string)
    requires IsHeaderBlock(header)
    ensures ContentLength(header + body) ==
      match LengthValueAt(header)
      case None => None
      case Some(v) => StrToULL(SkipBlanks((header + CStr(body))[v..]))
    ensures LengthValueAt(header).Some? ==> LengthValueAt(header).value <= |header| - 4
  {
    var text := header + CStr(body);
    TextOfBlock(header, body);
    StrStrMeaning(header, LENGTH_KEY);
    StrStrMeaning(text, LENGTH_KEY);
    match StrStr(header, LENGTH_KEY)
    case Some(f) =>
      FoundStays(header, text, LENGTH_KEY);
      OccursInLonger(header, CStr(body), LENGTH_KEY, f);
      KeyEndsInHeaders(header, text, f);
    case None =>
      if StrStr(text, LENGTH_KEY).Some? {
        var f := StrStr(text, LENGTH_KEY).value;
        if f < |header| {
          KeyEndsInHeaders(header, text, f);
        }
      }
  }

  lemma ValueText(header: string, more: string, v: nat)
    requires IsHeaderBlock(header) && v <= |header| - 4
    ensures (header + more)[v..] == header[v..|header| - 4] + (HEADER_END + more)
  {
    HeaderTail(header);
    assert header == header[..|header| - 4] + HEADER_END;
  }

  lemma SettledLength(header: string, body: string)
    requires IsHeaderBlock(header) && !BlankLength(header)
    ensures ContentLength(header + body) == ContentLength(header)
  {
    ContentLengthOf(header, body);
    ContentLengthOf(header, "");
    assert header + "" == header;
    if LengthValueAt(header).Some? {
      var v := LengthValueAt(header).value;
      ValueText(header, CStr(body), v);
      ValueText(header, CStr(""), v);
      LengthTextStops(header[v..|header| - 4], HEADER_END + CStr(body));
      LengthTextStops(header[v..|header| - 4], HEADER_END + CStr(""));
    }
  }

  /** A blank field makes the reader take the length from the start of the body. */
  lemma BlankLengthReadsTheBody(header: string, body: string)
    requires IsHeaderBlock(header) && BlankLength(header)
    ensures ContentLength(header + body) == StrToULL(CStr(body))
  {
    ContentLengthOf(header, body);
    var v := LengthValueAt(header).value;
    ValueText(header, CStr(body), v);
    var blank := header[v..|header| - 4] + HEADER_END;
    assert header[v..|header| - 4] + (HEADER_END + CStr(body)) == blank + CStr(body);
    BlanksAreSpace(blank + CStr(body));
    assert AllSpace(HEADER_END);
    SkipSpaceDrops(blank, CStr(body));
  }

  /** Whatever the body and however it arrives, a length once read is never read differently later. */
  ghost predicate StableLength(header: string) {
    forall x, y :: ContentLength(header + x).Some? ==> ContentLength(header + (x + y)) == ContentLength(header + x)
  }

  /** Latching the length is sound exactly when the Content-Length field is not blank. */
  lemma LengthIsStableExactlyWhen(header: string)
    requires IsHeaderBlock(header)
    ensures StableLength(header) <==> !BlankLength(header)
  {
    if !BlankLength(header) {
      forall x, y ensures ContentLength(header + (x + y)) == ContentLength(header + x) {
        SettledLength(header, x);
        SettledLength(header, x + y);
      }
    } else {
      BlankLengthReadsTheBody(header, "5");
      BlankLengthReadsTheBody(header, "5" + "7");
      DigitsRead();
    }
  }

  lemma DigitsRead()
    ensures StrToULL(CStr("5")) == Some(5) && StrToULL(CStr("5" + "7")) == Some(57)
  {
    var s, t := "5", "5" + "7";
    assert t[1..] == "7" && t[1..][1..] == "" && s[1..] == "";
    assert IndexOf(s, '\0') == 1 && IndexOf(t, '\0') == 2;
    assert s[..1] == s && t[..2] == t && t[..1] == s && s[..0] == "";
    assert DigitRun(s) == 1 && DigitRun(t) == 2;
    assert Value(s, 10) == 5 && Value(t, 10) == 57;
  }
}
