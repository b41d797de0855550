/** Character-level tools shared by the file formats and the HTTP reader: numerals, fields, lines, substrings. */
module Text {
  import opened Wrappers

  // ---------- Numerals ----------

  predicate IsBase(b: nat) {
    b == 10 || b == 16
  }

  function Digit(d: nat): char
    requires d < 16
  {
    if d < 10 then '0' + d as char else 'a' + (d - 10) as char
  }

  function DigitValue(c: char): nat {
    if '0' <= c <= '9' then (c - '0') as nat
    else if 'a' <= c <= 'f' then (c - 'a') as nat + 10
    else 16
  }

  predicate IsDigit(c: char, b: nat) {
    DigitValue(c) < b
  }

  predicate IsNumeral(s: string, b: nat) {
    s != "" && forall i | 0 <= i < |s| :: IsDigit(s[i], b)
  }

  /** What `%u` and `%llu` (base 10) or `%llx` (base 16) print. */
  function Numeral(n: nat, b: nat): string
    requires IsBase(b)
  {
    if n < b then [Digit(n)] else Numeral(n / b, b) + [Digit(n % b)]
  }

  function Value(s: string, b: nat): nat
  {
    if s == "" then 0 else Value(s[..|s| - 1], b) * b + DigitValue(s[|s| - 1])
  }

  function Dec(n: nat): string {
    Numeral(n, 10)
  }

  function Hex(n: nat): string {
    Numeral(n, 16)
  }

  lemma ValueSnoc(s: string, c: char, b: nat)
    ensures Value(s + [c], b) == Value(s, b) * b + DigitValue(c)
  {
    assert (s + [c])[..|s|] == s;
  }

  lemma NumeralSnoc(s: string, c: char, b: nat)
    requires IsNumeral(s, b) && IsDigit(c, b)
    ensures IsNumeral(s + [c], b) && (s + [c])[0] == s[0]
  {}

  lemma DigitIsDigit(d: nat, b: nat)
    requires d < b <= 16
    ensures IsDigit(Digit(d), b) && DigitValue(Digit(d)) == d && (Digit(d) == '0' <==> d == 0)
  {}

  /** A printed number reads back as itself, and has no leading zero unless it is zero. */
  lemma {:induction false} NumeralValue(n: nat, b: nat)
    requires IsBase(b)
    ensures IsNumeral(Numeral(n, b), b) && Value(Numeral(n, b), b) == n
    ensures Numeral(n, b)[0] == '0' <==> n == 0
  {
    DigitIsDigit(n % b, b);
    if n < b {
      ValueSnoc("", Digit(n), b);
      assert "" + [Digit(n)] == [Digit(n)];
    } else {
      NumeralValue(n / b, b);
      ValueSnoc(Numeral(n / b, b), Digit(n % b), b);
      NumeralSnoc(Numeral(n / b, b), Digit(n % b), b);
    }
  }

  lemma DecIsPlain(n: nat)
    ensures Dec(n) != "" && forall i | 0 <= i < |Dec(n)| :: '0' <= Dec(n)[i] <= '9'
  {
    NumeralValue(n, 10);
  }

  lemma HexIsPlain(n: nat)
    ensures Hex(n) != "" && forall i | 0 <= i < |Hex(n)| :: '0' <= Hex(n)[i] <= '9' || 'a' <= Hex(n)[i] <= 'f'
  {
    NumeralValue(n, 16);
  }

  /** How many digits a text starts with. */
  function DigitRun(s: string): (n: nat)
    ensures n <= |s| && forall i | 0 <= i < n :: IsDigit(s[i], 10)
    ensures n < |s| ==> !IsDigit(s[n], 10)
  {
    if s == "" || !IsDigit(s[0], 10) then 0 else 1 + DigitRun(s[1..])
  }

  lemma {:induction false} DigitRunGrows(s: string, x: string)
    requires x != "" ==> !IsDigit(x[0], 10)
    ensures DigitRun(s + x) == DigitRun(s)
  {
    if s == "" {
      assert s + x == x;
    } else {
      assert (s + x)[1..] == s[1..] + x;
      DigitRunGrows(s[1..], x);
    }
  }

  lemma {:induction false} AllDigits(s: string)
    requires forall i | 0 <= i < |s| :: IsDigit(s[i], 10)
    ensures DigitRun(s) == |s|
  {
    if s != "" {
      AllDigits(s[1..]);
    }
  }

  // ---------- Java number parsing and trimming ----------

  /** `Long.parseLong` and `Integer.parseInt`, with the bound of the result type; absent means an exception. */
  function ParseSigned(s: string, bound: nat): Option<int> {
    var negative := s != "" && s[0] == '-';
    var digits := if s != "" && (s[0] == '-' || s[0] == '+') then s[1..] else s;
    if !IsNumeral(digits, 10) then None
    else
      var v: int := if negative then 0 - Value(digits, 10) else Value(digits, 10);
      if 0 - bound <= v < bound then Some(v) else None
  }

  const LONG_BOUND: nat := 0x8000_0000_0000_0000
  const INT_BOUND: nat := 0x8000_0000

  lemma ParseDec(n: nat, bound: nat)
    ensures ParseSigned(Dec(n), bound) == if n < bound then Some(n) else None
    ensures Trim(Dec(n)) == Dec(n)
  {
    NumeralValue(n, 10);
    TrimmedIsKept(Dec(n));
  }

  /** A sign in front is understood; only the negative range holds the bound itself. */
  lemma ParseSign(n: nat, bound: nat)
    ensures ParseSigned("-" + Dec(n), bound) == if n <= bound && (n > 0 || bound > 0) then Some(0 - n) else None
    ensures ParseSigned("+" + Dec(n), bound) == if n < bound then Some(n) else None
  {
    NumeralValue(n, 10);
    assert ("-" + Dec(n))[1..] == Dec(n) && ("+" + Dec(n))[1..] == Dec(n);
  }

  /** `String.trim`: characters up to the blank go, at both ends. */
  function Trim(s: string): string
    decreases |s|
  {
    if s != "" && s[0] <= ' ' then Trim(s[1..])
    else if s != "" && s[|s| - 1] <= ' ' then Trim(s[..|s| - 1])
    else s
  }

  lemma TrimmedIsKept(s: string)
    requires s != "" ==> s[0] > ' ' && s[|s| - 1] > ' '
    ensures Trim(s) == s
  {}

  /** C's `isspace`, and `\s` in a Java pattern. */
  predicate IsSpace(c: char) {
    c == ' ' || '\t' <= c <= '\r'
  }

  function SkipSpace(s: string): (rest: string)
    ensures |rest| <= |s| && (rest != "" ==> !IsSpace(rest[0]))
    ensures s != "" && IsSpace(s[0]) ==> |rest| < |s|
  {
    if s != "" && IsSpace(s[0]) then SkipSpace(s[1..]) else s
  }

  // ---------- Fields ----------

  function Join(fields: seq<string>, sep: char): string
    requires fields != []
  {
    if |fields| == 1 then fields[0] else fields[0] + [sep] + Join(fields[1..], sep)
  }

  /** Where the first `c` is, or the length. */
  function IndexOf(s: string, c: char): (k: nat)
    ensures k <= |s|
    ensures k < |s| ==> s[k] == c
    ensures forall j | 0 <= j < k :: s[j] != c
  {
    if s == "" || s[0] == c then 0 else 1 + IndexOf(s[1..], c)
  }

  lemma {:induction false} IndexOfGrows(a: string, b: string, c: char)
    ensures IndexOf(a + b, c) == if IndexOf(a, c) < |a| then IndexOf(a, c) else |a| + IndexOf(b, c)
  {
    if a == "" {
      assert a + b == b;
    } else {
      assert (a + b)[1..] == a[1..] + b;
      IndexOfGrows(a[1..], b, c);
    }
  }

  /** Where the first `c` from index `i` on is, or the length. */
  function IndexFrom(s: string, c: char, i: nat): (k: nat)
    requires i <= |s|
    ensures i <= k <= |s|
    ensures k < |s| ==> s[k] == c
    ensures forall j | i <= j < k :: s[j] != c
    decreases |s| - i
  {
    if i == |s| || s[i] == c then i else IndexFrom(s, c, i + 1)
  }

  lemma IndexOfAfter(f: string, c: char, rest: string)
    requires forall j | 0 <= j < |f| :: f[j] != c
    ensures IndexOf(f + [c] + rest, c) == |f|
  {
    var s := f + [c] + rest;
    assert s[|f|] == c;
    assert forall j | 0 <= j < |f| :: s[j] == f[j];
  }

  function Split(s: string, sep: char): (fields: seq<string>)
    ensures fields != []
    decreases |s|
  {
    var k := IndexOf(s, sep);
    if k == |s| then [s] else [s[..k]] + Split(s[k + 1..], sep)
  }

  predicate Without(s: string, c: char) {
    forall i | 0 <= i < |s| :: s[i] != c
  }

  lemma {:induction false} SplitJoin(fields: seq<string>, sep: char)
    requires fields != [] && forall i | 0 <= i < |fields| :: Without(fields[i], sep)
    ensures Split(Join(fields, sep), sep) == fields
  {
    assert Without(fields[0], sep);
    if |fields| == 1 {
      assert IndexOf(fields[0], sep) == |fields[0]|;
    } else {
      var rest := Join(fields[1..], sep);
      SplitJoin(fields[1..], sep);
      IndexOfAfter(fields[0], sep, rest);
      var s := fields[0] + [sep] + rest;
      assert s[..|fields[0]|] == fields[0] && s[|fields[0]| + 1..] == rest;
    }
  }

  /** Java's `split` drops trailing empty fields, unless the separator does not occur. */
  function DropTrailingEmpty(fields: seq<string>): seq<string> {
    if fields != [] && fields[|fields| - 1] == "" then DropTrailingEmpty(fields[..|fields| - 1]) else fields
  }

  function JavaSplit(s: string, sep: char): seq<string> {
    if Without(s, sep) then [s] else DropTrailingEmpty(Split(s, sep))
  }

  lemma JavaSplitJoin(fields: seq<string>, sep: char)
    requires |fields| >= 2 && forall i | 0 <= i < |fields| :: Without(fields[i], sep)
    requires fields[|fields| - 1] != ""
    ensures JavaSplit(Join(fields, sep), sep) == fields
  {
    SplitJoin(fields, sep);
    assert Join(fields, sep)[|fields[0]|] == sep;
  }

  lemma {:induction false} JoinWithout(fields: seq<string>, sep: char, c: char)
    requires fields != [] && sep != c && forall i | 0 <= i < |fields| :: Without(fields[i], c)
    ensures Without(Join(fields, sep), c)
  {
    assert Without(fields[0], c);
    if |fields| > 1 {
      JoinWithout(fields[1..], sep, c);
    }
  }

  // ---------- Lines ----------

  /** The end of the first line: the first LF or CR, or the end of the text. */
  function LineEnd(t: string): (k: nat)
    ensures k <= |t|
  {
    if IndexOf(t, '\n') <= IndexOf(t, '\r') then IndexOf(t, '\n') else IndexOf(t, '\r')
  }

  function AfterLine(t: string): (rest: string)
    requires t != ""
    ensures |rest| < |t|
  {
    var k := LineEnd(t);
    if k == |t| then ""
    else if t[k] == '\r' && k + 1 < |t| && t[k + 1] == '\n' then t[k + 2..]
    else t[k + 1..]
  }

  /** What `BufferedReader.readLine` returns, call after call. */
  function Lines(t: string): seq<string>
    decreases |t|
  {
    if t == "" then [] else [t[..LineEnd(t)]] + Lines(AfterLine(t))
  }

  predicate OneLine(s: string) {
    Without(s, '\n') && Without(s, '\r')
  }

  function Unlines(lines: seq<string>): string {
    if lines == [] then "" else lines[0] + "\n" + Unlines(lines[1..])
  }

  lemma FirstLineEnds(l: string, rest: string)
    requires OneLine(l)
    ensures LineEnd(l + ['\n'] + rest) == |l|
  {
    var t := l + ['\n'] + rest;
    IndexOfAfter(l, '\n', rest);
    assert forall j | 0 <= j <= |l| :: t[j] != '\r';
  }

  lemma FirstLineIsRead(l: string, rest: string, t: string)
    requires OneLine(l) && t == l + ['\n'] + rest
    ensures t != "" && t[..LineEnd(t)] == l && AfterLine(t) == rest
  {
    FirstLineEnds(l, rest);
    assert t[|l|] == '\n' && t[..|l|] == l && t[|l| + 1..] == rest;
  }

  lemma LinesOfFirst(l: string, rest: string, t: string)
    requires OneLine(l) && t == l + ['\n'] + rest
    ensures Lines(t) == [l] + Lines(rest)
  {
    FirstLineIsRead(l, rest, t);
  }

  /** A line ends at a line feed, at a carriage return, or at both together, which are one break. */
  lemma LineEndsAreOneBreak(l: string, rest: string, t: string)
    requires OneLine(l)
    requires t == l + "\n" + rest || t == l + "\r\n" + rest
      || (t == l + "\r" + rest && (rest == "" || rest[0] != '\n'))
    ensures Lines(t) == [l] + Lines(rest)
  {
    if t == l + "\n" + rest {
      LinesOfFirst(l, rest, t);
    } else {
      var more := t[|l| + 1..];
      assert t == l + (['\r'] + more);
      ReturnEnds(l, more, t);
    }
  }

  lemma ReturnEnds(l: string, more: string, t: string)
    requires OneLine(l) && t == l + (['\r'] + more)
    ensures t != "" && t[..LineEnd(t)] == l && AfterLine(t) == if more != "" && more[0] == '\n' then more[1..] else more
  {
    IndexOfAfter(l, '\r', more);
    assert l + ['\r'] + more == t;
    assert forall j | 0 <= j <= |l| :: t[j] != '\n';
    assert t[|l|] == '\r' && t[..|l|] == l && t[|l| + 1..] == more;
    assert more != "" ==> t[|l| + 1] == more[0] && t[|l| + 2..] == more[1..];
  }

  lemma {:induction false} LinesUnlines(lines: seq<string>)
    requires forall i | 0 <= i < |lines| :: OneLine(lines[i])
    ensures Lines(Unlines(lines)) == lines
  {
    if lines != [] {
      LinesUnlines(lines[1..]);
      assert OneLine(lines[0]);
      LinesOfFirst(lines[0], Unlines(lines[1..]), Unlines(lines));
      assert lines == [lines[0]] + lines[1..];
    }
  }

  lemma {:induction false} UnlinesSplit(front: seq<string>, back: seq<string>)
    ensures Unlines(front + back) == Unlines(front) + Unlines(back)
  {
    if front == [] {
      assert front + back == back;
    } else {
      UnlinesSplit(front[1..], back);
      assert (front + back)[1..] == front[1..] + back;
    }
  }

  /** A C string ends at the first NUL. */
  function CStr(s: string): string {
    s[..IndexOf(s, '\0')]
  }

  lemma CStrOf(s: string)
    requires Without(s, '\0')
    ensures CStr(s) == s
  {
    assert IndexOf(s, '\0') == |s|;
  }

  // ---------- Substring search ----------

  predicate OccursAt(s: string, pat: string, i: nat) {
    i + |pat| <= |s| && s[i..i + |pat|] == pat
  }

  /** C's `strstr` from index `i` on: the first occurrence, if any. */
  function FindFrom(s: string, pat: string, i: nat): (r: Option<nat>)
    requires i <= |s|
    ensures r.Some? ==> i <= r.value && r.value + |pat| <= |s|
    decreases |s| - i
  {
    if OccursAt(s, pat, i) then Some(i)
    else if i == |s| then None
    else FindFrom(s, pat, i + 1)
  }

  function StrStr(s: string, pat: string): Option<nat> {
    FindFrom(s, pat, 0)
  }

  lemma {:induction false} FindFromMeaning(s: string, pat: string, i: nat)
    requires i <= |s|
    ensures match FindFrom(s, pat, i)
      case Some(o) => OccursAt(s, pat, o) && forall j | i <= j < o :: !OccursAt(s, pat, j)
      case None => forall j | i <= j :: !OccursAt(s, pat, j)
    decreases |s| - i
  {
    if !OccursAt(s, pat, i) && i < |s| {
      FindFromMeaning(s, pat, i + 1);
    }
  }

  /** The search finds the first occurrence, and fails only if there is none. */
  lemma StrStrMeaning(s: string, pat: string)
    ensures match StrStr(s, pat)
      case Some(o) => OccursAt(s, pat, o) && forall j | 0 <= j < o :: !OccursAt(s, pat, j)
      case None => forall j: nat :: !OccursAt(s, pat, j)
  {
    FindFromMeaning(s, pat, 0);
  }

  lemma StrStrIs(s: string, pat: string, i: nat)
    requires OccursAt(s, pat, i) && forall j | 0 <= j < i :: !OccursAt(s, pat, j)
    ensures StrStr(s, pat) == Some(i)
  {
    StrStrMeaning(s, pat);
  }

  lemma StrStrIsNone(s: string, pat: string)
    requires forall j: nat :: !OccursAt(s, pat, j)
    ensures StrStr(s, pat) == None
  {
    StrStrMeaning(s, pat);
  }

  predicate Contains(s: string, pat: string) {
    StrStr(s, pat).Some?
  }

  lemma OccursChars(s: string, pat: string, i: nat)
    ensures OccursAt(s, pat, i) <==> i + |pat| <= |s| && forall k | 0 <= k < |pat| :: s[i + k] == pat[k]
  {
    if i + |pat| <= |s| {
      var w := s[i..i + |pat|];
      assert forall k | 0 <= k < |pat| :: w[k] == s[i + k];
    }
  }

  /** An occurrence in a prefix is an occurrence in the whole. */
  lemma OccursInLonger(s: string, more: string, pat: string, i: nat)
    requires OccursAt(s, pat, i)
    ensures OccursAt(s + more, pat, i)
  {
    assert (s + more)[i..i + |pat|] == s[i..i + |pat|];
  }

  lemma OccursInShorter(s: string, more: string, pat: string, i: nat)
    requires OccursAt(s + more, pat, i) && i + |pat| <= |s|
    ensures OccursAt(s, pat, i)
  {
    assert (s + more)[i..i + |pat|] == s[i..i + |pat|];
  }

  lemma OccursShifted(a: string, b: string, pat: string, i: nat)
    ensures OccursAt(a + b, pat, |a| + i) <==> OccursAt(b, pat, i)
  {
    if i + |pat| <= |b| {
      assert (a + b)[|a| + i..|a| + i + |pat|] == b[i..i + |pat|];
    }
  }

  /** What a text contains is found at the same place in a longer one. */
  lemma FoundStays(s: string, t: string, pat: string)
    requires s <= t && StrStr(s, pat).Some?
    ensures StrStr(t, pat) == StrStr(s, pat)
  {
    var i := StrStr(s, pat).value;
    StrStrMeaning(s, pat);
    assert t == s + t[|s|..];
    OccursInLonger(s, t[|s|..], pat, i);
    forall j | 0 <= j < i ensures !OccursAt(t, pat, j) {
      if OccursAt(t, pat, j) {
        OccursInShorter(s, t[|s|..], pat, j);
      }
    }
    StrStrIs(t, pat, i);
  }

  lemma PrefixLacks(s: string, t: string, pat: string)
    requires s <= t && StrStr(t, pat) == None
    ensures StrStr(s, pat) == None
  {
    if StrStr(s, pat).Some? {
      FoundStays(s, t, pat);
    }
  }

  lemma SuffixLacks(s: string, k: nat, pat: string)
    requires k <= |s| && StrStr(s, pat) == None
    ensures StrStr(s[k..], pat) == None
  {
    assert s[..k] + s[k..] == s;
    StrStrMeaning(s, pat);
    StrStrMeaning(s[k..], pat);
    if StrStr(s[k..], pat).Some? {
      OccursShifted(s[..k], s[k..], pat, StrStr(s[k..], pat).value);
    }
  }

  lemma IndexOfIs(s: string, c: char, k: nat)
    requires k < |s| && s[k] == c && forall j | 0 <= j < k :: s[j] != c
    ensures IndexOf(s, c) == k
  {}

  lemma IndexFromIs(s: string, c: char, i: nat, k: nat)
    requires i <= k <= |s| && (k < |s| ==> s[k] == c) && forall j | i <= j < k :: s[j] != c
    ensures IndexFrom(s, c, i) == k
  {}
}
