/** What the C reader makes of a value of which it sees only the first characters. */
module CutFields {
  import opened JsonText
  import opened MergedFile
  import opened MergedNumbers
  import opened Text
  import opened Wrappers

  // ---------- Texts ----------

  /** How many characters of a text the first `c` characters of its escaping spell out. */
  function Whole(v: string, c: nat): (k: nat)
    ensures k <= |v|
  {
    Stored(v, 0, c + 1)
  }

  /** The cut falls between a backslash and the character that it escapes. */
  predicate SplitsEscape(v: string, c: nat) {
    BareCut(v, 0, c + 1)
  }

  /** The text that those characters spell; a backslash at the end stands for itself. */
  function Shown(v: string, c: nat): string {
    v[..Whole(v, c)] + if SplitsEscape(v, c) then "\\" else ""
  }

  lemma {:induction false} StoredShift(v: string, used: nat, size: nat, less: nat)
    requires less <= used < size
    ensures Stored(v, used, size) == Stored(v, used - less, size - less)
    decreases |v|
  {
    if v != "" && used + |EscChar(v[0])| < size {
      StoredShift(v[1..], used + |EscChar(v[0])|, size, less);
    }
  }

  lemma ShownNext(v: string, c: nat)
    requires v != "" && |EscChar(v[0])| <= c
    ensures Shown(v, c) == [v[0]] + Shown(v[1..], c - |EscChar(v[0])|)
  {
    var n := |EscChar(v[0])|;
    var rest, k := v[1..], Whole(v[1..], c - n);
    StoredShift(rest, n, c + 1, n);
    assert Whole(v, c) == k + 1;
    assert v[..k + 1] == [v[0]] + rest[..k];
    assert v[..k + 1][1..] == rest[..k];
    assert Esc(v[..k + 1]) == EscChar(v[0]) + Esc(rest[..k]);
    assert SplitsEscape(v, c) <==> SplitsEscape(rest, c - n);
  }

  lemma ShownOpens(v: string, c: nat)
    requires v != "" && c < |EscChar(v[0])|
    ensures Shown(v, c) == if c == 0 then "" else "\\"
  {
    assert Whole(v, c) == 0 && v[..0] == "" && Esc("") == "";
  }

  lemma CutEscape(c: char, tail: string, n: nat)
    requires |EscChar(c)| <= n <= |EscChar(c) + tail|
    ensures (EscChar(c) + tail)[..n] == EscChar(c) + tail[..n - |EscChar(c)|]
  {}

  /** Reading stops at the closing quote or where the text is cut off. */
  lemma {:induction false} ShownIsRead(v: string, rest: string, p: string, c: nat, room: nat)
    requires p == Esc(v) + "\"" + rest && c <= |p|
    ensures Unescaped(p[..c], room) == Cut(Shown(v, c), room)
    decreases |v|
  {
    if v == "" {
      assert p[0] == '"' && Shown(v, c) == "";
    } else if room > 0 {
      var tail := EscOpens(v, rest, p);
      var n := |EscChar(v[0])|;
      if c < n {
        ShownOpens(v, c);
        assert c == 1 ==> p[..c] == "\\" && p[..c][1..] == "";
      } else {
        CutEscape(v[0], tail, c);
        ShownIsRead(v[1..], rest, tail, c - n, room - 1);
        UnescapedHead(v[0], tail[..c - n], room);
        ShownNext(v, c);
        CutHead(Shown(v, c), room);
      }
    }
  }

  /** Enough is seen of a text: all of it, as much as the buffer takes, or all but half a last backslash. */
  predicate Suffices(v: string, c: nat, room: nat) {
    var k := Whole(v, c);
    || k == |v| || k >= room
    || (SplitsEscape(v, c) && v[k] == '\\' && (k + 1 == |v| || k + 1 == room))
  }

  lemma ShownSufficesExactlyWhen(v: string, c: nat, room: nat)
    ensures Cut(Shown(v, c), room) == Cut(v, room) <==> Suffices(v, c, room)
  {
    var k, shown := Whole(v, c), Shown(v, c);
    assert shown[..k] == v[..k];
    if k == |v| {
      assert shown == v;
    } else if k >= room {
      assert Cut(shown, room) == shown[..k][..room] == v[..k][..room] == Cut(v, room);
    } else {
      ShownBehind(v, c, room);
    }
  }

  lemma ShownBehind(v: string, c: nat, room: nat)
    requires Whole(v, c) < |v| && Whole(v, c) < room
    ensures var k := Whole(v, c);
      Cut(Shown(v, c), room) == Cut(v, room)
      <==> SplitsEscape(v, c) && v[k] == '\\' && (k + 1 == |v| || k + 1 == room)
  {
    var k, shown := Whole(v, c), Shown(v, c);
    assert Cut(shown, room) == shown;
    assert Cut(v, room)[k] == v[k] && |Cut(v, room)| == if |v| <= room then |v| else room;
    if SplitsEscape(v, c) && v[k] == '\\' && |Cut(v, room)| == k + 1 {
      assert Cut(v, room) == v[..k] + [v[k]];
    }
    if SplitsEscape(v, c) {
      assert shown[k] == '\\';
    }
  }

  lemma {:induction false} WholeOf(v: string, used: nat, size: nat)
    requires used + |Esc(v)| < size
    ensures Stored(v, used, size) == |v|
    decreases |v|
  {
    if v != "" {
      WholeOf(v[1..], used + |EscChar(v[0])|, size);
    }
  }

  lemma AllIsShown(v: string, c: nat)
    requires |Esc(v)| <= c
    ensures Whole(v, c) == |v| && Shown(v, c) == v
  {
    WholeOf(v, 0, c + 1);
  }

  lemma {:induction false} StoredPrefix(a: string, b: string, used: nat, size: nat)
    requires used + |Esc(a)| + 1 == size
    ensures Stored(a + b, used, size) == |a|
    decreases |a|
  {
    if a == "" {
      assert a + b == b;
    } else {
      assert (a + b)[1..] == a[1..] + b;
      StoredPrefix(a[1..], b, used + |EscChar(a[0])|, size);
    }
  }

  /** A cut behind a whole character shows the text up to there. */
  lemma PrefixIsShown(a: string, b: string)
    ensures Whole(a + b, |Esc(a)|) == |a| && !SplitsEscape(a + b, |Esc(a)|) && Shown(a + b, |Esc(a)|) == a
  {
    StoredPrefix(a, b, 0, |Esc(a)| + 1);
    assert (a + b)[..|a|] == a;
  }

  /** A text as it is read when `c` characters of its escaping are seen; negative if not even its key is. */
  function TextRead(v: string, c: int, room: nat): Option<string> {
    if c < 0 then None else Some(Cut(Shown(v, c), room))
  }

  // ---------- Durations ----------

  /** A duration as it is read when `c` characters of it are seen; negative if not even its key is. */
  function TimeRead(ns: int, c: int): real {
    if c < 0 then 0.0 else NumberIn(Cut(Fixed3(ns), c))
  }

  /** The place value, in nanoseconds, of the last digit seen when `d` characters behind the whole part are. */
  function Scale(d: nat): nat {
    if d <= 1 then 1000 else if d == 2 then 100 else if d == 3 then 10 else 1
  }

  /** The digits that are not seen are zeros. */
  predicate TimeSuffices(ns: int, c: int) {
    ns == 0 || (ns > 0 && c >= |Dec(ns / 1000)| && ns % Scale(c - |Dec(ns / 1000)|) == 0)
  }

  lemma {:induction false} ValuePrefix(s: string, c: nat)
    requires c < |s|
    ensures Value(s[..c], 10) * 10 <= Value(s, 10)
  {
    var front := s[..|s| - 1];
    assert Value(s, 10) == Value(front, 10) * 10 + DigitValue(s[|s| - 1]);
    if c < |s| - 1 {
      ValuePrefix(front, c);
      assert front[..c] == s[..c];
    } else {
      assert s[..c] == front;
    }
  }

  lemma DigitsAreRead(s: string)
    requires IsNumeral(s, 10)
    ensures StrToD(s) == Some(Value(s, 10) as real)
  {
    AllDigits(s);
    assert s[..|s|] == s && s[0] != '-';
  }

  lemma Fixed3Parts(ns: nat)
    ensures Fixed3(ns) == Dec(ns / 1000) + "." + Pad3(ns % 1000) && |Fixed3(ns)| == |Dec(ns / 1000)| + 4
  {
    Fixed3Text(ns, "");
    assert Fixed3(ns) + "" == Fixed3(ns);
  }

  /** Less than the whole part is seen. */
  lemma PartOfWhole(ns: nat, c: nat)
    requires c < |Dec(ns / 1000)|
    ensures 0.0 <= TimeRead(ns, c) <= ns as real / 1000.0
    ensures TimeRead(ns, c) == ns as real / 1000.0 <==> ns == 0
  {
    var whole := Dec(ns / 1000);
    NumeralValue(ns / 1000, 10);
    ValuePrefix(whole, c);
    Fixed3Parts(ns);
    assert Cut(Fixed3(ns), c) == whole[..c];
    Thousandths(ns);
    if c > 0 {
      DigitsAreRead(whole[..c]);
    } else {
      assert whole[..c] == "" && DigitRun("") == 0;
    }
  }

  lemma OneDecimal(a: nat)
    requires a < 10
    ensures Fraction([Digit(a)]) == (100 * a) as real / 1000.0
  {
    FractionCons(Digit(a), "");
    assert [Digit(a)] + "" == [Digit(a)];
  }

  lemma TwoDecimals(a: nat, b: nat)
    requires a < 10 && b < 10
    ensures Fraction([Digit(a), Digit(b)]) == (100 * a + 10 * b) as real / 1000.0
  {
    OneDecimal(b);
    FractionCons(Digit(a), [Digit(b)]);
    assert [Digit(a)] + [Digit(b)] == [Digit(a), Digit(b)];
  }

  lemma DigitsOf(r: nat)
    requires r < 1000
    ensures r / 100 < 10 && r % 1000 == r && r - r % 100 == 100 * (r / 100)
    ensures r - r % 10 == 100 * (r / 100) + 10 * (r / 10 % 10)
  {}

  lemma PadPrefixes(r: nat)
    requires r < 1000
    ensures var pad := Pad3(r);
      && pad[..0] == "" && pad[..1] == [Digit(r / 100)] && pad[..2] == [Digit(r / 100), Digit(r / 10 % 10)]
      && pad[..3] == pad
  {}

  lemma FirstDecimals(r: nat, j: nat)
    requires r < 1000 && j <= 3
    ensures Fraction(Pad3(r)[..j]) == (r - r % Scale(j + 1)) as real / 1000.0
  {
    DigitsOf(r);
    PadPrefixes(r);
    if j == 0 {
      assert Scale(1) == 1000 && Fraction("") == 0.0;
    } else if j == 1 {
      OneDecimal(r / 100);
      assert Scale(2) == 100;
    } else if j == 2 {
      TwoDecimals(r / 100, r / 10 % 10);
      assert Scale(3) == 10;
    } else {
      Pad3Value(r);
      assert Scale(4) == 1 && r % 1 == 0;
    }
  }

  lemma SameScale(ns: nat, d: nat)
    ensures ns % Scale(d) == ns % 1000 % Scale(d)
  {
    assert Scale(d) == 1000 || Scale(d) == 100 || Scale(d) == 10 || Scale(d) == 1;
  }

  lemma CutDecimals(whole: string, pad: string, d: nat)
    requires 0 < d <= 4 && |pad| == 3
    ensures (whole + "." + pad)[..|whole| + d] == whole + ("." + (pad[..d - 1] + ""))
  {}

  lemma TimeReadIs(ns: nat, c: nat, text: string, v: real)
    requires Cut(Fixed3(ns), c) == text && StrToD(text) == Some(v)
    ensures TimeRead(ns, c) == v
  {}

  lemma PadDigits(r: nat, j: nat)
    requires r < 1000 && j <= 3
    ensures forall i | 0 <= i < j :: IsDigit(Pad3(r)[..j][i], 10)
  {
    Pad3Value(r);
  }

  lemma DigitsBehindPoint(whole: string, digits: string, text: string, v: real)
    requires IsNumeral(whole, 10) && forall i | 0 <= i < |digits| :: IsDigit(digits[i], 10)
    requires text == whole + ("." + (digits + "")) && v == Value(whole, 10) as real + Fraction(digits)
    ensures StrToD(text) == Some(v)
  {
    StrToDOf(whole, digits, "");
  }

  lemma DecimalsAreRead(whole: string, r: nat, d: nat, rest: nat, text: string, v: real)
    requires IsNumeral(whole, 10) && 0 < d <= 4 && r < 1000 && rest == r % Scale(d) <= r
    requires text == (whole + "." + Pad3(r))[..|whole| + d]
    requires v == Value(whole, 10) as real + (r - rest) as real / 1000.0
    ensures StrToD(text) == Some(v)
  {
    CutDecimals(whole, Pad3(r), d);
    PadDigits(r, d - 1);
    FirstDecimals(r, d - 1);
    DigitsBehindPoint(whole, Pad3(r)[..d - 1], text, v);
  }

  lemma WholeIsRead(whole: string, r: nat, text: string)
    requires IsNumeral(whole, 10) && text == (whole + "." + Pad3(r % 1000))[..|whole|]
    ensures StrToD(text) == Some(Value(whole, 10) as real)
  {
    assert text == whole;
    DigitsAreRead(whole);
  }

  /** All of the whole part `n` is seen, and `d` characters behind it. */
  lemma WholeAndDecimals(ns: nat, n: nat, r: nat, d: nat, rest: nat, v: real)
    requires d <= 4 && n == ns / 1000 && r == ns % 1000 && rest == r % Scale(d) <= r
    requires v == n as real + (r - rest) as real / 1000.0
    ensures TimeRead(ns, |Dec(n)| + d) == v
  {
    var whole := Dec(n);
    NumeralValue(n, 10);
    Fixed3Parts(ns);
    var text := (whole + "." + Pad3(r))[..|whole| + d];
    if d == 0 {
      WholeIsRead(whole, r, text);
    } else {
      DecimalsAreRead(whole, r, d, rest, text, v);
    }
    TimeReadIs(ns, |whole| + d, text, v);
  }

  lemma LessARest(n: nat, r: nat, rest: nat, v: real)
    requires rest <= r && v == n as real + (r - rest) as real / 1000.0
    ensures 0.0 <= v <= n as real + r as real / 1000.0
    ensures v == n as real + r as real / 1000.0 <==> rest == 0
  {}

  lemma RestOf(ns: nat, d: nat) returns (rest: nat)
    ensures rest == ns % 1000 % Scale(d) <= ns % 1000 && (rest == 0 <==> ns % Scale(d) == 0)
  {
    rest := ns % 1000 % Scale(d);
    SameScale(ns, d);
  }

  lemma BehindWhole(ns: nat, d: nat)
    requires d <= 4
    ensures var v := TimeRead(ns, |Dec(ns / 1000)| + d);
      && 0.0 <= v <= ns as real / 1000.0
      && (v == ns as real / 1000.0 <==> ns % Scale(d) == 0)
  {
    var n, r := ns / 1000, ns % 1000;
    var rest := RestOf(ns, d);
    var v := n as real + (r - rest) as real / 1000.0;
    WholeAndDecimals(ns, n, r, d, rest, v);
    Thousandths(ns);
    LessARest(n, r, rest, v);
  }

  lemma SameCut(ns: nat, c: nat, e: nat)
    requires Cut(Fixed3(ns), c) == Cut(Fixed3(ns), e)
    ensures TimeRead(ns, c) == TimeRead(ns, e)
  {}

  lemma CutAtEnd(s: string, c: nat)
    requires c >= |s|
    ensures Cut(s, c) == Cut(s, |s|)
  {}

  lemma FromWholeOn(ns: nat, c: nat)
    requires c >= |Dec(ns / 1000)|
    ensures var d := c - |Dec(ns / 1000)|;
      && 0.0 <= TimeRead(ns, c) <= ns as real / 1000.0
      && (TimeRead(ns, c) == ns as real / 1000.0 <==> ns % Scale(d) == 0)
  {
    var whole := |Dec(ns / 1000)|;
    if c <= whole + 4 {
      BehindWhole(ns, c - whole);
    } else {
      Fixed3Parts(ns);
      CutAtEnd(Fixed3(ns), c);
      SameCut(ns, c, whole + 4);
      BehindWhole(ns, 4);
      assert Scale(c - whole) == Scale(4);
    }
  }

  lemma NoTimeScales(ns: nat, d: nat)
    ensures ns == 0 ==> ns % Scale(d) == 0
  {}

  /** What is read never exceeds the duration, and equals it exactly when the digits that are not seen are zeros. */
  lemma TimeReadExactlyWhen(ns: nat, c: int)
    ensures 0.0 <= TimeRead(ns, c) <= ns as real / 1000.0
    ensures TimeRead(ns, c) == ns as real / 1000.0 <==> TimeSuffices(ns, c)
  {
    if c < 0 {
      assert ns as real / 1000.0 == 0.0 <==> ns == 0;
    } else if c < |Dec(ns / 1000)| {
      PartOfWhole(ns, c);
    } else {
      FromWholeOn(ns, c);
      NoTimeScales(ns, c - |Dec(ns / 1000)|);
    }
  }
}
