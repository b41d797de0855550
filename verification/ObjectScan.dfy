/** How the C reader cuts a line into objects, for any text between the braces. */
module ObjectScan {
  import opened MergedFile
  import opened Text
  import opened Wrappers

  /** The application steps that the reader finds in a text. */
  function StepsIn(text: string): seq<JvmStep> {
    JvmStepsOf(Scan(text))
  }

  predicate EndsObject(s: string) {
    s != "" && s[|s| - 1] == '}'
  }

  lemma IndexShifts(gap: string, rest: string, c: char, i: nat)
    requires i <= |rest|
    ensures IndexFrom(gap + rest, c, |gap| + i) == |gap| + IndexFrom(rest, c, i)
  {
    var s, k := gap + rest, |gap| + IndexFrom(rest, c, i);
    assert forall j | |gap| <= j < |s| :: s[j] == rest[j - |gap|];
    IndexFromIs(s, c, |gap| + i, k);
  }

  lemma GapIsPassed(gap: string, rest: string)
    requires Without(gap, '{')
    ensures IndexFrom(gap + rest, '{', 0) == |gap| + IndexFrom(rest, '{', 0)
  {
    var s := gap + rest;
    IndexShifts(gap, rest, '{', 0);
    assert forall j | 0 <= j < |gap| :: s[j] == gap[j];
    IndexFromIs(s, '{', 0, |gap| + IndexFrom(rest, '{', 0));
  }

  lemma ShiftedSlices(gap: string, rest: string, k: nat, e: nat)
    requires k <= e < |rest|
    ensures (gap + rest)[|gap| + k..|gap| + e + 1] == rest[k..e + 1]
    ensures (gap + rest)[|gap| + e + 1..] == rest[e + 1..]
  {}

  lemma SameScan(s: string, k: nat, e: nat, t: string, l: nat, f: nat)
    requires k == IndexFrom(s, '{', 0) && e == IndexFrom(s, '}', k)
    requires l == IndexFrom(t, '{', 0) && f == IndexFrom(t, '}', l)
    requires e < |s| <==> f < |t|
    requires e < |s| ==> s[k..e + 1] == t[l..f + 1] && s[e + 1..] == t[f + 1..]
    ensures Scan(s) == Scan(t)
  {
    ScanStep(s, k, e);
    ScanStep(t, l, f);
  }

  /** Text before the first opening brace does not matter, closing braces included. */
  lemma ScanSkipsGap(gap: string, rest: string)
    requires Without(gap, '{')
    ensures Scan(gap + rest) == Scan(rest)
  {
    var k := IndexFrom(rest, '{', 0);
    var e := IndexFrom(rest, '}', k);
    GapIsPassed(gap, rest);
    IndexShifts(gap, rest, '}', k);
    if e < |rest| {
      ShiftedSlices(gap, rest, k, e);
    }
    SameScan(gap + rest, |gap| + k, |gap| + e, rest, k, e);
  }

  lemma FoundInFront(h: string, rest: string, c: char, i: nat)
    requires i <= |h| && IndexFrom(h, c, i) < |h|
    ensures IndexFrom(h + rest, c, i) == IndexFrom(h, c, i)
  {
    var s, k := h + rest, IndexFrom(h, c, i);
    assert forall j | 0 <= j < |h| :: s[j] == h[j];
    IndexFromIs(s, c, i, k);
  }

  lemma FrontSlices(h: string, rest: string, k: nat, e: nat)
    requires k <= e < |h|
    ensures (h + rest)[k..e + 1] == h[k..e + 1] && (h + rest)[e + 1..] == h[e + 1..] + rest
  {}

  lemma ScanOne(h: string, rest: string, k: nat, e: nat)
    requires k == IndexFrom(h, '{', 0) < |h| && e == IndexFrom(h, '}', k) < |h|
    ensures Scan(h) == [h[k..e + 1]] + Scan(h[e + 1..])
    ensures Scan(h + rest) == [h[k..e + 1]] + Scan(h[e + 1..] + rest)
  {
    FoundInFront(h, rest, '{', 0);
    FoundInFront(h, rest, '}', k);
    FrontSlices(h, rest, k, e);
    ScanStep(h, k, e);
    ScanStep(h + rest, k, e);
  }

  /** Right behind a closing brace the reader starts afresh, whatever the text before it held. */
  lemma {:induction false} ScanSplit(h: string, rest: string)
    requires h == "" || EndsObject(h)
    ensures Scan(h + rest) == Scan(h) + Scan(rest)
    decreases |h|
  {
    var k := IndexFrom(h, '{', 0);
    if k == |h| {
      ScanStep(h, k, k);
      ScanSkipsGap(h, rest);
    } else {
      var e := IndexFrom(h, '}', k);
      ScanOne(h, rest, k, e);
      ScanSplit(h[e + 1..], rest);
      Associate([h[k..e + 1]], Scan(h[e + 1..]), Scan(rest));
    }
  }

  lemma Associate<T>(x: seq<T>, y: seq<T>, z: seq<T>)
    ensures (x + y) + z == x + (y + z)
  {}

  lemma StepsSplit(h: string, rest: string)
    requires h == "" || EndsObject(h)
    ensures StepsIn(h + rest) == StepsIn(h) + StepsIn(rest)
  {
    ScanSplit(h, rest);
    JvmStepsSplit(Scan(h), Scan(rest));
  }

  lemma StepsSkipGap(text: string, gap: string, rest: string)
    requires text == gap + rest && Without(gap, '{')
    ensures StepsIn(text) == StepsIn(rest)
  {
    ScanSkipsGap(gap, rest);
  }

  // ---------- Text without an application step ----------

  const JVM_LAYER := "\"layer\":\"jvm\""

  lemma SliceLacks(s: string, i: nat, j: nat, pat: string)
    requires i <= j <= |s| && StrStr(s, pat) == None
    ensures StrStr(s[i..j], pat) == None
  {
    SuffixLacks(s, i, pat);
    assert s[i..j] == s[i..][..j - i];
    PrefixLacks(s[i..j], s[i..], pat);
  }

  lemma LackingIsNoStep(obj: string)
    requires StrStr(obj, JVM_LAYER) == None
    ensures StepIn(obj) == []
  {
    if |obj| > OBJECT_BUFFER - 1 {
      SliceLacks(obj, 0, OBJECT_BUFFER - 1, JVM_LAYER);
      assert obj[0..OBJECT_BUFFER - 1] == Clipped(obj);
    }
  }

  lemma LackingPiece(text: string, k: nat, e: nat)
    requires k <= e < |text| && StrStr(text, JVM_LAYER) == None
    ensures StepIn(text[k..e + 1]) == [] && StrStr(text[e + 1..], JVM_LAYER) == None
  {
    SliceLacks(text, k, e + 1, JVM_LAYER);
    LackingIsNoStep(text[k..e + 1]);
    SuffixLacks(text, e + 1, JVM_LAYER);
  }

  /** No piece of a text yields a step if the text does not name the application layer. */
  lemma {:induction false} LackingHasNoSteps(text: string)
    requires StrStr(text, JVM_LAYER) == None
    ensures StepsIn(text) == []
    decreases |text|
  {
    var k := IndexFrom(text, '{', 0);
    var e := IndexFrom(text, '}', k);
    ScanNext(text, k, e);
    if e < |text| {
      LackingPiece(text, k, e);
      LackingHasNoSteps(text[e + 1..]);
    }
  }

  // ---------- Lists of objects ----------

  function StepsInAll(objects: seq<string>): seq<JvmStep> {
    if objects == [] then [] else StepsIn(objects[0]) + StepsInAll(objects[1..])
  }

  lemma JoinOpens(objects: seq<string>, tail: string)
    requires |objects| > 1
    ensures Join(objects, ',') + tail == objects[0] + ("," + (Join(objects[1..], ',') + tail))
  {}

  lemma {:induction false} StepsInJoin(objects: seq<string>, tail: string)
    requires objects != [] && forall i | 0 <= i < |objects| :: EndsObject(objects[i])
    ensures StepsIn(Join(objects, ',') + tail) == StepsInAll(objects) + StepsIn(tail)
    decreases |objects|
  {
    var first := StepsIn(objects[0]);
    if |objects| == 1 {
      StepsSplit(objects[0], tail);
      assert StepsInAll(objects[1..]) == [] && first + [] == first;
    } else {
      var rest := Join(objects[1..], ',') + tail;
      JoinOpens(objects, tail);
      StepsSplit(objects[0], "," + rest);
      ScanSkipsGap(",", rest);
      StepsInJoin(objects[1..], tail);
      Associate(first, StepsInAll(objects[1..]), StepsIn(tail));
    }
  }

  lemma {:induction false} NothingInAny(objects: seq<string>)
    requires forall i | 0 <= i < |objects| :: StepsIn(objects[i]) == []
    ensures StepsInAll(objects) == []
  {
    if objects != [] {
      NothingInAny(objects[1..]);
    }
  }

  // ---------- When the reading starts inside a list ----------

  /** It ends with a brace, and starting anywhere behind its first character the reader finds no step in it. */
  ghost predicate Scannable(obj: string) {
    EndsObject(obj) && forall c | 0 < c <= |obj| :: StepsIn(obj[c..]) == []
  }

  lemma LackingObjectIsPassed(obj: string)
    requires EndsObject(obj) && StrStr(obj, JVM_LAYER) == None
    ensures Scannable(obj)
  {
    forall c | 0 < c <= |obj| ensures StepsIn(obj[c..]) == [] {
      SuffixLacks(obj, c, JVM_LAYER);
      LackingHasNoSteps(obj[c..]);
    }
  }

  /** How many objects of a list start before index `c` of its text. */
  function StartedBefore(objects: seq<string>, c: nat): (k: nat)
    ensures k <= |objects|
    decreases |objects|
  {
    if c == 0 || objects == [] then 0
    else if c <= |objects[0]| then 1
    else 1 + StartedBefore(objects[1..], c - |objects[0]| - 1)
  }

  /** The others. */
  function StartingFrom(objects: seq<string>, c: nat): seq<string>
    decreases |objects|
  {
    if c == 0 || objects == [] then objects
    else if c <= |objects[0]| then objects[1..]
    else StartingFrom(objects[1..], c - |objects[0]| - 1)
  }

  lemma {:induction false} StartingFromIs(objects: seq<string>, c: nat)
    ensures StartingFrom(objects, c) == objects[StartedBefore(objects, c)..]
    decreases |objects|
  {
    if c > 0 && objects != [] && c > |objects[0]| {
      StartingFromIs(objects[1..], c - |objects[0]| - 1);
    }
  }

  /** Where object `k` of a list starts. */
  function StartOf(objects: seq<string>, k: nat): nat
    requires k < |objects|
    decreases k
  {
    if k == 0 then 0 else |objects[0]| + 1 + StartOf(objects[1..], k - 1)
  }

  lemma {:induction false} StartedBeforeMeaning(objects: seq<string>, c: nat, k: nat)
    requires k < |objects|
    ensures k < StartedBefore(objects, c) <==> StartOf(objects, k) < c
    decreases |objects|
  {
    if c > |objects[0]| && k > 0 {
      StartedBeforeMeaning(objects[1..], c - |objects[0]| - 1, k - 1);
    }
  }

  lemma JoinHead(objects: seq<string>)
    requires |objects| > 1
    ensures Join(objects, ',') == objects[0] + "," + Join(objects[1..], ',')
  {}

  lemma {:induction false} ObjectIsAtItsStart(objects: seq<string>, k: nat)
    requires k < |objects|
    ensures OccursAt(Join(objects, ','), objects[k], StartOf(objects, k))
    decreases k
  {
    var o := objects[0];
    if |objects| == 1 {
      assert o[0..|o|] == o;
    } else {
      JoinHead(objects);
      if k == 0 {
        assert o[0..|o|] == o;
        OccursInLonger(o, "," + Join(objects[1..], ','), o, 0);
        assert o + "," + Join(objects[1..], ',') == o + ("," + Join(objects[1..], ','));
      } else {
        ObjectIsAtItsStart(objects[1..], k - 1);
        OccursShifted(o + ",", Join(objects[1..], ','), objects[k], StartOf(objects[1..], k - 1));
      }
    }
  }

  lemma {:induction false} AllStarted(objects: seq<string>, c: nat)
    requires objects != [] && c > |Join(objects, ',')|
    ensures StartedBefore(objects, c) == |objects|
    decreases |objects|
  {
    if |objects| > 1 {
      JoinHead(objects);
      AllStarted(objects[1..], c - |objects[0]| - 1);
    }
  }

  lemma ScannableSuffix(obj: string, c: nat)
    requires Scannable(obj) && 0 < c <= |obj|
    ensures StepsIn(obj[c..]) == [] && (obj[c..] == "" || EndsObject(obj[c..]))
  {}

  lemma NoStepsFirst(front: string, rest: string, text: string)
    requires text == front + rest && StepsIn(front) == [] && (front == "" || EndsObject(front))
    ensures StepsIn(text) == StepsIn(rest)
  {
    StepsSplit(front, rest);
    assert [] + StepsIn(rest) == StepsIn(rest);
  }

  lemma SuffixOfFirst(obj: string, rest: string, c: nat)
    requires Scannable(obj) && 0 < c <= |obj|
    ensures StepsIn((obj + rest)[c..]) == StepsIn(rest)
  {
    ScannableSuffix(obj, c);
    assert (obj + rest)[c..] == obj[c..] + rest;
    NoStepsFirst(obj[c..], rest, (obj + rest)[c..]);
  }

  lemma SuffixBehindFirst(obj: string, rest: string, c: nat)
    requires |obj| < c <= |obj| + 1 + |rest|
    ensures (obj + ("," + rest))[c..] == rest[c - |obj| - 1..]
  {}

  ghost predicate AllScannable(objects: seq<string>) {
    forall i | 0 <= i < |objects| :: Scannable(objects[i])
  }

  lemma ScannableObjectsEnd(objects: seq<string>)
    requires AllScannable(objects)
    ensures forall i | 0 <= i < |objects| :: EndsObject(objects[i])
  {
    forall i | 0 <= i < |objects| ensures EndsObject(objects[i]) {
      assert Scannable(objects[i]);
    }
  }

  /** From index `c` on, the reader finds the steps of the objects that start there or later, and those of the tail. */
  ghost predicate ReadsFrom(objects: seq<string>, tail: string, text: string, c: nat) {
    c <= |text| && StepsIn(text[c..]) == StepsInAll(StartingFrom(objects, c)) + StepsIn(tail)
  }

  lemma SuffixFromStart(objects: seq<string>, tail: string, text: string)
    requires objects != [] && AllScannable(objects) && text == Join(objects, ',') + tail
    ensures ReadsFrom(objects, tail, text, 0)
  {
    assert text[0..] == text;
    ScannableObjectsEnd(objects);
    StepsInJoin(objects, tail);
  }

  lemma SuffixInFirst(objects: seq<string>, tail: string, text: string, c: nat)
    requires objects != [] && AllScannable(objects) && text == Join(objects, ',') + tail && 0 < c <= |objects[0]|
    requires c <= |text|
    ensures ReadsFrom(objects, tail, text, c)
  {
    if |objects| == 1 {
      SuffixOfFirst(objects[0], tail, c);
      assert objects[1..] == [] && [] + StepsIn(tail) == StepsIn(tail);
    } else {
      var rest := Join(objects[1..], ',') + tail;
      JoinOpens(objects, tail);
      SuffixOfFirst(objects[0], "," + rest, c);
      ScannableObjectsEnd(objects);
      StepsSkipGap("," + rest, ",", rest);
      StepsInJoin(objects[1..], tail);
    }
  }

  lemma MoreThanOne(objects: seq<string>, c: nat)
    requires objects != [] && |objects[0]| < c <= |Join(objects, ',')|
    ensures |objects| > 1
  {}

  lemma SuffixUpToFirst(objects: seq<string>, tail: string, text: string, c: nat)
    requires objects != [] && AllScannable(objects) && text == Join(objects, ',') + tail && c <= |objects[0]|
    requires c <= |text|
    ensures ReadsFrom(objects, tail, text, c)
  {
    if c == 0 {
      SuffixFromStart(objects, tail, text);
    } else {
      SuffixInFirst(objects, tail, text, c);
    }
  }

  lemma ScannableTail(objects: seq<string>)
    requires objects != [] && AllScannable(objects)
    ensures AllScannable(objects[1..])
  {
    forall i | 0 <= i < |objects| - 1 ensures Scannable(objects[1..][i]) {
      assert objects[1..][i] == objects[i + 1];
    }
  }

  lemma LaterStart(objects: seq<string>, c: nat)
    requires objects != [] && c > |objects[0]|
    ensures StartingFrom(objects, c) == StartingFrom(objects[1..], c - |objects[0]| - 1)
  {}

  lemma SuffixBehindObject(objects: seq<string>, tail: string, text: string, c: nat) returns (rest: string, d: nat)
    requires objects != [] && text == Join(objects, ',') + tail && |objects[0]| < c <= |Join(objects, ',')|
    ensures |objects| > 1 && rest == Join(objects[1..], ',') + tail
    ensures c == |objects[0]| + 1 + d && d <= |Join(objects[1..], ',')| && d <= |rest| && text[c..] == rest[d..]
  {
    MoreThanOne(objects, c);
    rest, d := Join(objects[1..], ',') + tail, c - |objects[0]| - 1;
    JoinOpens(objects, tail);
    JoinHead(objects);
    SuffixBehindFirst(objects[0], rest, c);
  }

  lemma ReadsLater(objects: seq<string>, tail: string, text: string, c: nat, rest: string, d: nat)
    requires objects != [] && c == |objects[0]| + 1 + d && c <= |text| && d <= |rest| && text[c..] == rest[d..]
    requires ReadsFrom(objects[1..], tail, rest, d)
    ensures ReadsFrom(objects, tail, text, c)
  {
    LaterStart(objects, c);
  }

  /** Starting inside a list of objects, the reader finds the steps of those that start from there on. */
  lemma {:induction false} SuffixOfJoin(objects: seq<string>, tail: string, text: string, c: nat)
    requires objects != [] && AllScannable(objects) && text == Join(objects, ',') + tail && c <= |Join(objects, ',')|
    requires c <= |text|
    ensures ReadsFrom(objects, tail, text, c)
    decreases |objects|
  {
    if c <= |objects[0]| {
      SuffixUpToFirst(objects, tail, text, c);
    } else {
      var rest, d := SuffixBehindObject(objects, tail, text, c);
      ScannableTail(objects);
      SuffixOfJoin(objects[1..], tail, rest, d);
      ReadsLater(objects, tail, text, c, rest, d);
    }
  }
}
