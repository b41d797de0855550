/** How the agent brings SQL statements into one short line. */
module SqlText {
  import opened Text
  import opened Wrappers

  const SQL_LIMIT := 180

  function TrimTo(value: string, max: nat): string {
    if |value| <= max then value else if max < 4 then value[..max] else value[..max - 3] + "..."
  }

  /** Every run of white space becomes one blank. */
  function Collapse(s: string): string
    decreases |s|
  {
    if s == "" then ""
    else if IsSpace(s[0]) then " " + Collapse(SkipSpace(s))
    else [s[0]] + Collapse(s[1..])
  }

  function NormaliseSql(sql: Option<string>): Option<string> {
    match sql
    case None => None
    case Some(s) =>
      var line := Trim(Collapse(s));
      if line == "" then None else Some(TrimTo(line, SQL_LIMIT))
  }

  /** The only white space is the blank, and never two in a row. */
  predicate SingleSpaced(s: string) {
    forall i | 0 <= i < |s| && IsSpace(s[i]) :: s[i] == ' ' && (i + 1 < |s| ==> !IsSpace(s[i + 1]))
  }

  predicate Trimmed(s: string) {
    s != "" && s[0] > ' ' && s[|s| - 1] > ' '
  }

  predicate AllBlank(s: string) {
    forall i | 0 <= i < |s| :: s[i] <= ' '
  }

  lemma SpacedCons(c: char, rest: string)
    requires SingleSpaced(rest) && (IsSpace(c) ==> c == ' ' && (rest != "" ==> !IsSpace(rest[0])))
    ensures SingleSpaced([c] + rest)
  {
    var s := [c] + rest;
    forall i | 0 <= i < |s| && IsSpace(s[i]) ensures s[i] == ' ' && (i + 1 < |s| ==> !IsSpace(s[i + 1])) {
      if i > 0 {
        assert s[i] == rest[i - 1];
      }
    }
  }

  lemma ConsLacks(d: char, rest: string, c: char)
    ensures Without([d] + rest, c) <==> d != c && Without(rest, c)
    ensures AllBlank([d] + rest) <==> d <= ' ' && AllBlank(rest)
  {
    var s := [d] + rest;
    assert s[0] == d && forall i | 0 <= i < |rest| :: s[i + 1] == rest[i];
  }

  lemma {:induction false} SkippedAreSpaces(s: string, c: char)
    requires !IsSpace(c)
    ensures Without(SkipSpace(s), c) <==> Without(s, c)
    ensures AllBlank(SkipSpace(s)) <==> AllBlank(s)
  {
    if s != "" && IsSpace(s[0]) {
      SkippedAreSpaces(s[1..], c);
      assert s == [s[0]] + s[1..];
      ConsLacks(s[0], s[1..], c);
    }
  }

  /** Collapsing leaves single blanks and loses nothing but white space. */
  lemma {:induction false} Collapsed(s: string, c: char)
    requires !IsSpace(c)
    ensures SingleSpaced(Collapse(s))
    ensures Without(Collapse(s), c) <==> Without(s, c)
    ensures AllBlank(Collapse(s)) <==> AllBlank(s)
    ensures s != "" && !IsSpace(s[0]) ==> Collapse(s) != "" && Collapse(s)[0] == s[0]
    decreases |s|
  {
    if s != "" {
      var rest := if IsSpace(s[0]) then SkipSpace(s) else s[1..];
      Collapsed(rest, c);
      SkippedAreSpaces(s, c);
      var first := if IsSpace(s[0]) then ' ' else s[0];
      assert s == [s[0]] + s[1..];
      ConsLacks(s[0], s[1..], c);
      assert Collapse(s) == [first] + Collapse(rest);
      ConsLacks(first, Collapse(rest), c);
      SpacedCons(first, Collapse(rest));
    }
  }

  lemma {:induction false} SingleSpacedStays(s: string)
    requires SingleSpaced(s)
    ensures Collapse(s) == s
    decreases |s|
  {
    if s != "" {
      assert forall i | 0 <= i < |s| - 1 :: s[1..][i] == s[i + 1];
      SingleSpacedStays(s[1..]);
      if IsSpace(s[0]) {
        assert SkipSpace(s) == s[1..];
      }
    }
  }

  lemma {:induction false} TrimParts(s: string) returns (a: string, b: string)
    ensures s == a + Trim(s) + b && AllBlank(a) && AllBlank(b)
    ensures Trim(s) == "" || Trimmed(Trim(s))
    decreases |s|
  {
    a, b := "", "";
    if s != "" && s[0] <= ' ' {
      a, b := TrimParts(s[1..]);
      a := [s[0]] + a;
    } else if s != "" && s[|s| - 1] <= ' ' {
      a, b := TrimParts(s[..|s| - 1]);
      b := b + [s[|s| - 1]];
    }
  }

  lemma PartIsSpaced(a: string, t: string, b: string)
    requires SingleSpaced(a + t + b)
    ensures SingleSpaced(t)
  {
    var s := a + t + b;
    assert forall i | 0 <= i < |t| :: t[i] == s[|a| + i];
  }

  lemma PartLacks(a: string, t: string, b: string, c: char)
    requires Without(a + t + b, c)
    ensures Without(t, c)
  {
    var s := a + t + b;
    assert forall i | 0 <= i < |t| :: t[i] == s[|a| + i];
  }

  lemma TrimToLacks(s: string, c: char)
    requires Without(s, c) && c != '.'
    ensures Without(TrimTo(s, SQL_LIMIT), c)
  {}

  lemma TrimToIsShort(s: string)
    requires SingleSpaced(s) && Trimmed(s)
    ensures var r := TrimTo(s, SQL_LIMIT); |r| <= SQL_LIMIT && SingleSpaced(r) && Trimmed(r)
  {
    var r := TrimTo(s, SQL_LIMIT);
    if |s| > SQL_LIMIT {
      forall i | 0 <= i < |r| && IsSpace(r[i]) ensures r[i] == ' ' && (i + 1 < |r| ==> !IsSpace(r[i + 1])) {
        assert i < SQL_LIMIT - 3 && r[i] == s[i];
        assert r[i + 1] == if i + 1 < SQL_LIMIT - 3 then s[i + 1] else '.';
      }
    }
  }

  /** Only blank text is dropped; the rest becomes one short line, and a second pass changes nothing. */
  lemma NormalisedOnce(s: string)
    ensures NormaliseSql(Some(s)).None? <==> AllBlank(s)
    ensures NormaliseSql(Some(s)).Some? ==>
      var r := NormaliseSql(Some(s)).value;
      |r| <= SQL_LIMIT && SingleSpaced(r) && Trimmed(r) && NormaliseSql(Some(r)) == Some(r)
  {
    var flat := Collapse(s);
    Collapsed(s, '.');
    var a, b := TrimParts(flat);
    if Trim(flat) == "" {
      assert forall i | 0 <= i < |flat| :: flat[i] == if i < |a| then a[i] else b[i - |a|];
    } else {
      PartIsSpaced(a, Trim(flat), b);
      assert flat[|a|] == Trim(flat)[0];
      TrimToIsShort(Trim(flat));
      var r := TrimTo(Trim(flat), SQL_LIMIT);
      SingleSpacedStays(r);
      TrimmedIsKept(r);
    }
  }

  // ---------- No word is lost ----------

  /** The words of a text: its longest runs without white space, in order. */
  function Words(s: string): (words: seq<string>)
    ensures s != "" && !IsSpace(s[0]) ==> words != []
  {
    if s == "" then []
    else if IsSpace(s[0]) then Words(s[1..])
    else if |s| == 1 || IsSpace(s[1]) then [[s[0]]] + Words(s[1..])
    else
      var words := Words(s[1..]);
      [[s[0]] + words[0]] + words[1..]
  }

  lemma {:induction false} SkippingKeepsWords(s: string)
    ensures Words(SkipSpace(s)) == Words(s)
  {
    if s != "" && IsSpace(s[0]) {
      SkippingKeepsWords(s[1..]);
    }
  }

  lemma WordsBehind(c: char, s: string, t: string)
    requires Words(s) == Words(t) && (s == "" <==> t == "")
    requires s != "" ==> (IsSpace(s[0]) <==> IsSpace(t[0]))
    ensures Words([c] + s) == Words([c] + t)
  {
    assert ([c] + s)[1..] == s && ([c] + t)[1..] == t;
  }

  lemma {:induction false} CollapsingKeepsWords(s: string)
    ensures Words(Collapse(s)) == Words(s)
    decreases |s|
  {
    if s != "" && IsSpace(s[0]) {
      var rest := SkipSpace(s);
      CollapsingKeepsWords(rest);
      SkippingKeepsWords(s);
      assert (" " + Collapse(rest))[1..] == Collapse(rest);
    } else if s != "" {
      CollapsingKeepsWords(s[1..]);
      WordsBehind(s[0], Collapse(s[1..]), s[1..]);
      assert [s[0]] + s[1..] == s;
    }
  }

  lemma {:induction false} WordsInside(a: string, t: string, b: string)
    requires AllSpace(a) && AllSpace(b)
    ensures Words(a + t + b) == Words(t)
    decreases |a| + |t| + |b|
  {
    var s := a + t + b;
    if a != "" {
      assert s[1..] == a[1..] + t + b;
      WordsInside(a[1..], t, b);
    } else if t != "" {
      assert s[1..] == "" + t[1..] + b;
      WordsInside("", t[1..], b);
      assert |s| > 1 ==> s[1] == if |t| > 1 then t[1] else b[0];
    } else if b != "" {
      assert s[1..] == "" + "" + b[1..];
      WordsInside("", "", b[1..]);
    }
  }

  predicate AllSpace(s: string) {
    forall i | 0 <= i < |s| :: IsSpace(s[i])
  }

  /** Nothing but blanks at the two ends goes; of a line too long for the limit 177 characters stay. */
  lemma NormalisedLine(s: string) returns (a: string, line: string, b: string)
    ensures a + line + b == Collapse(s) && Words(Collapse(s)) == Words(s) && SingleSpaced(Collapse(s))
    ensures AllBlank(a) && AllBlank(b) && (line == "" || Trimmed(line))
    ensures NormaliseSql(Some(s)) ==
      if line == "" then None else if |line| <= 180 then Some(line) else Some(line[..177] + "...")
  {
    CollapsingKeepsWords(s);
    Collapsed(s, '.');
    a, b := TrimParts(Collapse(s));
    line := Trim(Collapse(s));
  }

  lemma BlanksAreSpaces(a: string, t: string, b: string)
    requires var s := a + t + b; forall i | 0 <= i < |s| && s[i] <= ' ' :: IsSpace(s[i])
    requires AllBlank(a) && AllBlank(b)
    ensures AllSpace(a) && AllSpace(b)
  {
    var s := a + t + b;
    assert forall i | 0 <= i < |a| :: a[i] == s[i];
    assert forall i | 0 <= i < |b| :: b[i] == s[|a| + |t| + i];
  }

  /** A statement whose control characters are white space keeps its words, all of them up to the limit. */
  lemma WordsAreKept(s: string) returns (line: string)
    requires forall i | 0 <= i < |s| && s[i] <= ' ' :: IsSpace(s[i])
    ensures Words(line) == Words(s) && SingleSpaced(line) && (line == "" || Trimmed(line))
    ensures NormaliseSql(Some(s)) ==
      if line == "" then None else if |line| <= 180 then Some(line) else Some(line[..177] + "...")
  {
    var a, b;
    a, line, b := NormalisedLine(s);
    var flat := a + line + b;
    forall i | 0 <= i < |flat| && flat[i] <= ' ' ensures IsSpace(flat[i]) {
      if !IsSpace(flat[i]) {
        Collapsed(s, flat[i]);
      }
    }
    BlanksAreSpaces(a, line, b);
    WordsInside(a, line, b);
    PartIsSpaced(a, line, b);
  }

  /** A character that is no white space, and not the dot, is in the line only if it was in the statement. */
  lemma NormalisingAddsNothing(s: string, c: char)
    requires Without(s, c) && !IsSpace(c) && c != '.'
    ensures NormaliseSql(Some(s)).Some? ==> Without(NormaliseSql(Some(s)).value, c)
  {
    Collapsed(s, c);
    var a, b := TrimParts(Collapse(s));
    PartLacks(a, Trim(Collapse(s)), b, c);
    TrimToLacks(Trim(Collapse(s)), c);
  }
}
