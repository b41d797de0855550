/** JSON strings as the two programs write them, and the substring-based reading that the C side does. */
module JsonText {
  import opened Text
  import opened Wrappers

  predicate Special(c: char) {
    c == '\\' || c == '"'
  }

  /** Backslashes and quotes get a backslash in front. */
  function Esc(s: string): string {
    if s == "" then ""
    else (if Special(s[0]) then ['\\', s[0]] else [s[0]]) + Esc(s[1..])
  }

  function EscChar(c: char): string {
    if Special(c) then ['\\', c] else [c]
  }

  // ---------- The Java escaper: two replacements in a row ----------

  function ReplaceChar(s: string, c: char, text: string): string {
    if s == "" then "" else (if s[0] == c then text else [s[0]]) + ReplaceChar(s[1..], c, text)
  }

  function JsonEsc(s: string): string {
    ReplaceChar(ReplaceChar(s, '\\', "\\\\"), '"', "\\\"")
  }

  lemma {:induction false} ReplaceSplit(a: string, b: string, c: char, text: string)
    ensures ReplaceChar(a + b, c, text) == ReplaceChar(a, c, text) + ReplaceChar(b, c, text)
  {
    if a == "" {
      assert a + b == b;
    } else {
      assert (a + b)[1..] == a[1..] + b;
      ReplaceSplit(a[1..], b, c, text);
    }
  }

  /** Replacing backslashes first keeps the inserted ones from being escaped again. */
  lemma {:induction false} JsonEscIsEsc(s: string)
    ensures JsonEsc(s) == Esc(s)
  {
    if s != "" {
      JsonEscIsEsc(s[1..]);
      var first := if s[0] == '\\' then "\\\\" else [s[0]];
      ReplaceSplit(first, ReplaceChar(s[1..], '\\', "\\\\"), '"', "\\\"");
      ReplaceShort(first);
    }
  }

  lemma ReplaceShort(t: string)
    requires t == "\\\\" || |t| == 1
    ensures ReplaceChar(t, '"', "\\\"") == if t == ['"'] then "\\\"" else t
  {
    assert t[1..] == "" || (t == "\\\\" && t[1..] == "\\" && t[1..][1..] == "");
  }

  // ---------- The C escaper, into a buffer of fixed size ----------

  function Strip(s: string): string {
    if s == "" then "" else if s[0] < ' ' then Strip(s[1..]) else [s[0]] + Strip(s[1..])
  }

  /** Every character goes or stays by its own code alone: from 32 on it stays. */
  lemma {:induction false} StripByCode(a: string, c: char, b: string)
    ensures Strip(a + [c] + b) == Strip(a) + (if c as int >= 32 then [c] else "") + Strip(b)
  {
    var s := a + [c] + b;
    if a == "" {
      assert s == [c] + b && s[1..] == b;
    } else {
      assert s[1..] == a[1..] + [c] + b;
      StripByCode(a[1..], c, b);
    }
  }

  /** What ends up in a buffer of `size` bytes of which `used` are taken. */
  function EscapeFrom(src: string, used: nat, size: nat): string
    decreases |src|
  {
    if src == "" || used + 1 >= size then ""
    else if Special(src[0]) && used + 2 < size then ['\\', src[0]] + EscapeFrom(src[1..], used + 2, size)
    else if src[0] < ' ' then EscapeFrom(src[1..], used, size)
    else [src[0]] + EscapeFrom(src[1..], used + 1, size)
  }

  /** The string held by a C buffer. */
  ghost predicate Holds(buf: array<char>, s: string)
    reads buf
  {
    |s| < buf.Length && buf[..|s|] == s && buf[|s|] == '\0'
  }

  lemma EscapeNext(src: string, k: nat, used: nat, size: nat)
    requires k < |src| && used + 1 < size
    ensures EscapeFrom(src[k..], used, size) ==
      if Special(src[k]) && used + 2 < size then ['\\', src[k]] + EscapeFrom(src[k + 1..], used + 2, size)
      else if src[k] < ' ' then EscapeFrom(src[k + 1..], used, size)
      else [src[k]] + EscapeFrom(src[k + 1..], used + 1, size)
  {
    assert src[k..][1..] == src[k + 1..];
  }

  lemma EscapeStep(src: string, k: nat, used: nat, size: nat, done: string, whole: string)
    requires k < |src| && used + 1 < size && whole == done + EscapeFrom(src[k..], used, size)
    ensures
      if Special(src[k]) && used + 2 < size then
        whole == (done + ['\\', src[k]]) + EscapeFrom(src[k + 1..], used + 2, size)
      else if src[k] < ' ' then
        whole == done + EscapeFrom(src[k + 1..], used, size)
      else
        whole == (done + [src[k]]) + EscapeFrom(src[k + 1..], used + 1, size)
  {
    EscapeNext(src, k, used, size);
  }

  method JsonEscape(src: string, dst: array<char>)
    modifies dst
    ensures dst.Length > 0 ==> Holds(dst, EscapeFrom(src, 0, dst.Length))
  {
    if dst.Length == 0 {
      return;
    }
    dst[0] := '\0';
    var i, k := 0, 0;
    ghost var done, whole := "", EscapeFrom(src, 0, dst.Length);
    while k < |src| && i + 1 < dst.Length
      invariant 0 <= k <= |src| && 0 <= i < dst.Length
      invariant done == dst[..i]
      invariant whole == done + EscapeFrom(src[k..], i, dst.Length)
      decreases |src| - k
    {
      var ch := src[k];
      EscapeStep(src, k, i, dst.Length, done, whole);
      k := k + 1;
      if Special(ch) && i + 2 < dst.Length {
        dst[i] := '\\';
        dst[i + 1] := ch;
        i := i + 2;
        done := done + ['\\', ch];
      } else if ch >= ' ' {
        dst[i] := ch;
        i := i + 1;
        done := done + [ch];
      }
    }
    assert EscapeFrom(src[k..], i, dst.Length) == "";
    dst[i] := '\0';
    assert dst[..i] == done == whole;
  }

  lemma {:induction false} EscapeFits(src: string, used: nat, size: nat)
    requires used < size
    ensures used + |EscapeFrom(src, used, size)| < size
    ensures used + |Esc(Strip(src))| < size ==> EscapeFrom(src, used, size) == Esc(Strip(src))
    decreases |src|
  {
    if src != "" && used + 1 < size {
      if src[0] < ' ' {
        EscapeFits(src[1..], used, size);
      } else {
        assert Strip(src)[1..] == Strip(src[1..]);
        EscapeFits(src[1..], used + 1, size);
        if Special(src[0]) && used + 2 < size {
          EscapeFits(src[1..], used + 2, size);
        }
      }
    } else if src != "" {
      if |Esc(Strip(src))| == 0 {
        EscNotShorter(Strip(src));
      }
    }
  }

  lemma {:induction false} EscNotShorter(s: string)
    ensures |s| <= |Esc(s)| <= 2 * |s|
  {
    if s != "" {
      EscNotShorter(s[1..]);
    }
  }

  /** The buffer is never overrun, and holds the full escaping exactly when that fits. */
  lemma JsonEscapeExactlyWhen(src: string, size: nat)
    requires size > 0
    ensures |EscapeFrom(src, 0, size)| < size
    ensures EscapeFrom(src, 0, size) == Esc(Strip(src)) <==> |Esc(Strip(src))| < size
  {
    EscapeFits(src, 0, size);
  }

  /** When it does not fit, the cut can leave a bare quote at the end. */
  lemma TruncationCanLeaveABareQuote()
    ensures EscapeFrom("\"", 0, 2) == "\""
  {}

  /** How many characters of `v` are stored whole when `used` bytes of the buffer are taken. */
  function Stored(v: string, used: nat, size: nat): (k: nat)
    ensures k <= |v|
  {
    if v == "" || used + |EscChar(v[0])| >= size then 0 else 1 + Stored(v[1..], used + |EscChar(v[0])|, size)
  }

  /** The first character that is not stored whole is a special one, and there is room for one byte. */
  predicate BareCut(v: string, used: nat, size: nat) {
    var k := Stored(v, used, size);
    k < |v| && Special(v[k]) && used + |Esc(v[..k])| + 2 == size
  }

  function StoredText(v: string, used: nat, size: nat): string {
    var k := Stored(v, used, size);
    Esc(v[..k]) + if BareCut(v, used, size) then [v[k]] else ""
  }

  lemma StoredNext(v: string, used: nat, size: nat)
    requires v != "" && used + |EscChar(v[0])| < size
    ensures StoredText(v, used, size) == EscChar(v[0]) + StoredText(v[1..], used + |EscChar(v[0])|, size)
  {
    var k := Stored(v, used, size);
    assert v[..k][1..] == v[1..][..k - 1];
    assert Esc(v[..k]) == EscChar(v[0]) + Esc(v[1..][..k - 1]);
  }

  /** A prefix of the control-free source is stored escaped, and at most one bare character behind it. */
  lemma {:induction false} EscapeStores(src: string, used: nat, size: nat)
    requires used < size
    ensures EscapeFrom(src, used, size) == StoredText(Strip(src), used, size)
    decreases |src|
  {
    var v := Strip(src);
    if src != "" && src[0] < ' ' {
      EscapeStores(src[1..], used, size);
      if used + 1 >= size {
        assert EscapeFrom(src[1..], used, size) == "";
      }
    } else if src != "" {
      assert v[0] == src[0] && v[1..] == Strip(src[1..]);
      if used + |EscChar(src[0])| < size {
        EscapeStores(src[1..], used + |EscChar(src[0])|, size);
        StoredNext(v, used, size);
      } else {
        assert v[..0] == "";
        assert EscapeFrom(src[1..], used + 1, size) == "";
      }
    }
  }

  /** A bare special character makes the text no escaping of anything. */
  lemma {:induction false} BareIsNoEscaping(p: string, q: string, c: char)
    requires Special(c)
    ensures Esc(p) != Esc(q) + [c]
    decreases |q|
  {
    if Esc(p) == Esc(q) + [c] {
      if q == "" {
        assert p != "" && Esc(p)[0] == c;
      } else {
        assert p != "" && Esc(p)[0] == Esc(q)[0];
        assert p[0] == q[0] by {
          if Special(q[0]) { assert Esc(p)[1] == Esc(q)[1]; }
        }
        var n := |EscChar(q[0])|;
        assert Esc(p)[n..] == Esc(p[1..]) && (Esc(q) + [c])[n..] == Esc(q[1..]) + [c];
        BareIsNoEscaping(p[1..], q[1..], c);
      }
    }
  }

  /** What the buffer holds is the escaping of some text exactly when the cut does not split an escape. */
  lemma StoresAnEscapingExactlyWhen(src: string, size: nat)
    requires size > 0
    ensures (exists p :: EscapeFrom(src, 0, size) == Esc(p)) <==> !BareCut(Strip(src), 0, size)
  {
    var v := Strip(src);
    var k := Stored(v, 0, size);
    EscapeStores(src, 0, size);
    if BareCut(v, 0, size) {
      forall p ensures EscapeFrom(src, 0, size) != Esc(p) {
        BareIsNoEscaping(p, v[..k], v[k]);
      }
    } else {
      assert Esc(v[..k]) + "" == Esc(v[..k]);
    }
  }

  // ---------- The C reader ----------

  /** Reads an escaped string up to its closing quote, keeping at most `room` characters. */
  function Unescaped(p: string, room: nat): string
    decreases |p|
  {
    if p == "" || p[0] == '"' || room == 0 then ""
    else if p[0] == '\\' && |p| > 1 then [p[1]] + Unescaped(p[2..], room - 1)
    else [p[0]] + Unescaped(p[1..], room - 1)
  }

  function ExtractString(obj: string, key: string, outLen: nat): Option<string>
    requires outLen > 0
  {
    match StrStr(obj, key)
    case None => None
    case Some(i) => Some(Unescaped(obj[i + |key|..], outLen - 1))
  }

  lemma UnescapedNext(obj: string, p: nat, room: nat)
    requires p < |obj| && obj[p] != '"' && room > 0
    ensures var q := if obj[p] == '\\' && p + 1 < |obj| then p + 1 else p;
      Unescaped(obj[p..], room) == [obj[q]] + Unescaped(obj[q + 1..], room - 1)
  {
    var rest := obj[p..];
    assert rest[1..] == obj[p + 1..] && (|rest| > 1 ==> rest[2..] == obj[p + 2..]);
  }

  lemma NothingToCopy(obj: string, p: nat, room: nat)
    requires p <= |obj| && (p == |obj| || obj[p] == '"' || room == 0)
    ensures Unescaped(obj[p..], room) == ""
  {}

  lemma CopyNext(obj: string, p: nat, room: nat, done: string, whole: string)
    requires p < |obj| && obj[p] != '"' && room > 0
    requires whole == done + Unescaped(obj[p..], room)
    ensures var q := if obj[p] == '\\' && p + 1 < |obj| then p + 1 else p;
      whole == (done + [obj[q]]) + Unescaped(obj[q + 1..], room - 1)
  {
    UnescapedNext(obj, p, room);
  }

  method JsonExtractString(obj: string, key: string, out: array<char>) returns (found: bool)
    requires out.Length > 0
    modifies out
    ensures found <==> ExtractString(obj, key, out.Length).Some?
    ensures found ==> Holds(out, ExtractString(obj, key, out.Length).value)
    ensures !found ==> out[..] == old(out[..])
  {
    var at := StrStr(obj, key);
    if at.None? {
      return false;
    }
    CopyValue(obj, at.value + |key|, out);
    return true;
  }

  /** The loop: how many characters of the buffer it fills. */
  method CopyChars(obj: string, from: nat, out: array<char>) returns (i: nat)
    requires out.Length > 0 && from <= |obj|
    modifies out
    ensures i < out.Length && out[..i] == Unescaped(obj[from..], out.Length - 1)
  {
    var p := from;
    i := 0;
    ghost var done, whole := "", Unescaped(obj[from..], out.Length - 1);
    while p < |obj| && obj[p] != '"' && i + 1 < out.Length
      invariant 0 <= p <= |obj| && 0 <= i < out.Length
      invariant done == out[..i]
      invariant whole == done + Unescaped(obj[p..], out.Length - 1 - i)
      decreases |obj| - p
    {
      CopyNext(obj, p, out.Length - 1 - i, done, whole);
      if obj[p] == '\\' && p + 1 < |obj| {
        p := p + 1;
      }
      out[i] := obj[p];
      i := i + 1;
      done := done + [obj[p]];
      p := p + 1;
    }
    NothingToCopy(obj, p, out.Length - 1 - i);
    assert done + "" == done;
  }

  method CopyValue(obj: string, from: nat, out: array<char>)
    requires out.Length > 0 && from <= |obj|
    modifies out
    ensures Holds(out, Unescaped(obj[from..], out.Length - 1))
  {
    var i := CopyChars(obj, from, out);
    out[i] := '\0';
    assert out[..i] == Unescaped(obj[from..], out.Length - 1);
  }

  function Cut(s: string, n: nat): string {
    if |s| <= n then s else s[..n]
  }

  lemma EscOpens(v: string, rest: string, p: string) returns (tail: string)
    requires v != "" && p == Esc(v) + "\"" + rest
    ensures p == EscChar(v[0]) + tail && tail == Esc(v[1..]) + "\"" + rest
  {
    tail := Esc(v[1..]) + "\"" + rest;
  }

  lemma UnescapedHead(c: char, tail: string, room: nat)
    requires room > 0
    ensures Unescaped(EscChar(c) + tail, room) == [c] + Unescaped(tail, room - 1)
  {
    var p := EscChar(c) + tail;
    assert p[|EscChar(c)|..] == tail;
  }

  /** Unescaping undoes escaping, up to the room there is. */
  lemma {:induction false} UnescapedEsc(v: string, rest: string, p: string, room: nat)
    requires p == Esc(v) + "\"" + rest
    ensures Unescaped(p, room) == Cut(v, room)
    decreases |v|
  {
    if v == "" {
      assert p[0] == '"';
    } else if room > 0 {
      var tail := EscOpens(v, rest, p);
      UnescapedEsc(v[1..], rest, tail, room - 1);
      UnescapedHead(v[0], tail, room);
      CutHead(v, room);
    }
  }

  /** A text in which any characters may have a backslash in front, the special ones always. */
  function Marked(v: string, marks: seq<bool>): string
    requires |marks| == |v|
  {
    if v == "" then ""
    else (if marks[0] || v[0] == '"' || v[0] == '\\' then ['\\', v[0]] else [v[0]]) + Marked(v[1..], marks[1..])
  }

  /** Whichever characters were escaped, each is read as itself. */
  lemma {:induction false} UnescapedMarked(v: string, marks: seq<bool>, rest: string, p: string, room: nat)
    requires |marks| == |v| && p == Marked(v, marks) + "\"" + rest
    ensures Unescaped(p, room) == Cut(v, room)
    decreases |v|
  {
    if v == "" {
      assert p[0] == '"';
    } else if room > 0 {
      var tail := Marked(v[1..], marks[1..]) + "\"" + rest;
      if marks[0] || v[0] == '"' || v[0] == '\\' {
        assert p == ['\\', v[0]] + tail && p[2..] == tail;
      } else {
        assert p == [v[0]] + tail && p[1..] == tail;
      }
      UnescapedMarked(v[1..], marks[1..], rest, tail, room - 1);
      CutHead(v, room);
    }
  }

  lemma CutHead(v: string, room: nat)
    requires v != "" && room > 0
    ensures Cut(v, room) == [v[0]] + Cut(v[1..], room - 1)
  {}

  /** C to C: what `json_escape` stored reads back as the control-free source, cut to the reader's buffer. */
  lemma EscapeRoundTrip(src: string, size: nat, key: string, rest: string, outLen: nat)
    requires outLen > 0 && |Esc(Strip(src))| < size
    ensures ExtractString(key + EscapeFrom(src, 0, size) + "\"" + rest, key, outLen)
      == Some(Cut(Strip(src), outLen - 1))
  {
    JsonEscapeExactlyWhen(src, size);
    var obj := key + EscapeFrom(src, 0, size) + "\"" + rest;
    assert obj[..|key|] == key;
    StrStrIs(obj, key, 0);
    assert obj[|key|..] == Esc(Strip(src)) + "\"" + rest;
    UnescapedEsc(Strip(src), rest, obj[|key|..], outLen - 1);
  }

  /** Inside an escaped value every quote has a backslash before it. */
  lemma {:induction false} EscapedQuotes(v: string, j: nat)
    requires j < |Esc(v)| && Esc(v)[j] == '"'
    ensures j > 0 && Esc(v)[j - 1] == '\\'
  {
    if Special(v[0]) {
      if j >= 2 {
        assert Esc(v)[j] == Esc(v[1..])[j - 2];
        EscapedQuotes(v[1..], j - 2);
      }
    } else {
      assert j >= 1 && Esc(v)[j] == Esc(v[1..])[j - 1];
      EscapedQuotes(v[1..], j - 1);
    }
  }
}
