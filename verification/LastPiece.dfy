/** What is left of the last line of a file when it is read in pieces of less than the reader's buffer. */
module LastPiece {
  import opened MergedFile
  import opened ObjectFront
  import opened ObjectScan
  import opened Text
  import opened Wrappers

  /** Whatever complete lines a file starts with, the reader gets past them to what follows. */
  lemma {:induction false} EarlierLinesArePassed(earlier: string, rest: string, found: Option<string>)
    returns (found': Option<string>)
    requires earlier == "" || earlier[|earlier| - 1] == '\n'
    ensures LastLine(earlier + rest, found) == LastLine(rest, found')
    decreases |earlier|
  {
    if earlier == "" {
      found' := found;
      assert earlier + rest == rest;
    } else {
      IndexOfGrows(earlier, rest, '\n');
      var n := ChunkLength(earlier);
      var all := earlier + rest;
      assert ChunkLength(all) == n && all[..n] == earlier[..n] && all[n..] == earlier[n..] + rest;
      var line := TrimRight(CStr(earlier[..n]));
      found' := EarlierLinesArePassed(earlier[n..], rest, if line == "" then found else Some(line));
    }
  }

  ghost predicate AllWhite(s: string) {
    forall i | 0 <= i < |s| :: s[i] in {' ', '\t', '\r', '\n'}
  }

  lemma {:induction false} WhiteIsTrimmed(s: string)
    requires AllWhite(s)
    ensures TrimRight(s) == ""
  {
    if s != "" {
      WhiteIsTrimmed(s[..|s| - 1]);
    }
  }

  lemma {:induction false} WhiteHoldsNoLine(white: string, found: Option<string>)
    requires AllWhite(white)
    ensures LastLine(white, found) == found
    decreases |white|
  {
    if white != "" {
      var n := ChunkLength(white);
      CStrOf(white[..n]);
      WhiteIsTrimmed(white[..n]);
      WhiteHoldsNoLine(white[n..], found);
    }
  }

  /** However much white space follows the lines of a file, the reader gets the same line. */
  lemma {:induction false} WhiteBehindIsIgnored(lines: string, white: string, found: Option<string>)
    requires (lines == "" || lines[|lines| - 1] == '\n') && AllWhite(white)
    ensures LastLine(lines + white, found) == LastLine(lines, found)
    decreases |lines|
  {
    if lines == "" {
      assert lines + white == white;
      WhiteHoldsNoLine(white, found);
    } else {
      IndexOfGrows(lines, white, '\n');
      var n := ChunkLength(lines);
      var all := lines + white;
      assert ChunkLength(all) == n && all[..n] == lines[..n] && all[n..] == lines[n..] + white;
      var line := TrimRight(CStr(lines[..n]));
      WhiteBehindIsIgnored(lines[n..], white, if line == "" then found else Some(line));
    }
  }

  lemma LastLineOf(line: string, found: Option<string>)
    requires line != "" && Without(line, '\n') && Without(line, '\0') && !IsBlank(line[|line| - 1])
    requires |line| < LINE_BUFFER
    ensures LastLine(line + "\n", found) == Some(line)
  {
    var all := line + "\n";
    IndexOfAfter(line, '\n', "");
    assert line + ['\n'] + "" == all;
    var n := ChunkLength(all);
    CStrOf(line);
    if |line| + 1 < LINE_BUFFER {
      assert n == |all| && all[..n] == all && all[n..] == "";
      CStrOf(all);
      assert all[..|all| - 1] == line;
      assert TrimRight(all) == TrimRight(line) == line;
    } else {
      assert n == |line| && all[..n] == line && all[n..] == "\n";
      CStrOf("\n");
      assert "\n"[..0] == "" && TrimRight("\n") == TrimRight("\n"[..0]) == "";
      assert ChunkLength("\n") == 1 && "\n"[..1] == "\n" && "\n"[1..] == "";
    }
  }

  /** Where the last piece of a line starts. */
  function PieceStart(length: nat): (c: nat)
    requires length > 0
    ensures c < length && (length < LINE_BUFFER ==> c == 0) && length - c < LINE_BUFFER
  {
    (length - 1) / (LINE_BUFFER - 1) * (LINE_BUFFER - 1)
  }

  lemma OnePieceLess(length: nat)
    requires length >= LINE_BUFFER
    ensures PieceStart(length) == LINE_BUFFER - 1 + PieceStart(length - (LINE_BUFFER - 1))
  {}

  lemma FirstPiece(line: string, all: string)
    requires |line| >= LINE_BUFFER && Without(line, '\n') && all == line + "\n"
    ensures ChunkLength(all) == LINE_BUFFER - 1 && all[LINE_BUFFER - 1..] == line[LINE_BUFFER - 1..] + "\n"
  {
    IndexOfAfter(line, '\n', "");
    assert line + ['\n'] + "" == all;
  }

  lemma DropTwice(line: string, n: nat, a: nat, b: nat)
    requires b == n + a <= |line|
    ensures line[n..][a..] == line[b..]
  {}

  lemma RestOfLine(line: string, rest: string)
    requires |line| >= LINE_BUFFER && rest == line[LINE_BUFFER - 1..] && EndsObject(line) && OneLineText(line)
    ensures EndsObject(rest) && OneLineText(rest)
  {}

  /** However long the last line is, the reader keeps exactly its last piece. */
  lemma {:induction false} LastPieceOf(line: string, found: Option<string>)
    requires EndsObject(line) && OneLineText(line)
    ensures LastLine(line + "\n", found) == Some(line[PieceStart(|line|)..])
    ensures PieceStart(|line|) == (|line| - 1) / 8191 * 8191
    decreases |line|
  {
    if |line| < LINE_BUFFER {
      LastLineOf(line, found);
      assert line[0..] == line;
    } else {
      var all, rest := line + "\n", line[LINE_BUFFER - 1..];
      FirstPiece(line, all);
      OnePieceLess(|line|);
      RestOfLine(line, rest);
      var piece := TrimRight(CStr(all[..LINE_BUFFER - 1]));
      LastPieceOf(rest, if piece == "" then found else Some(piece));
      DropTwice(line, LINE_BUFFER - 1, PieceStart(|rest|), PieceStart(|line|));
    }
  }
}
