/** Why a plain substring search finds the right field: no escaped value can contain a key. */
module JsonFields {
  import opened JsonText
  import opened Text
  import opened Wrappers

  /** A member of an object; numbers, and opening brackets of nested lists, are written bare. */
  datatype Field = Str(key: string, value: string) | Bare(key: string, text: string)

  function FieldText(f: Field): string {
    "\"" + f.key + "\":" + match f case Str(_, v) => "\"" + Esc(v) + "\"" case Bare(_, t) => t
  }

  /** A field and the character that follows it. */
  datatype Item = Item(field: Field, next: char)

  function ItemText(it: Item): string {
    FieldText(it.field) + [it.next]
  }

  function ItemsText(items: seq<Item>): string {
    if items == [] then "" else ItemText(items[0]) + ItemsText(items[1..])
  }

  /** The substring that the C reader searches for. */
  function KeyPattern(key: string): string {
    "\"" + key + "\":"
  }

  predicate PlainKey(key: string) {
    key != "" && forall i | 0 <= i < |key| :: key[i] !in {'"', '\\', ':', ',', '}', '{'}
  }

  predicate WellFormedItem(it: Item) {
    && PlainKey(it.field.key)
    && it.next in {',', '}', '{'}
    && (it.field.Bare? ==> Without(it.field.text, '"'))
  }

  lemma KeyChars(it: Item)
    ensures var t, q := ItemText(it), |it.field.key| + 3;
      && |t| > q && t[0] == '"' && t[q - 2] == '"' && t[q - 1] == ':'
      && forall j | 0 <= j < |it.field.key| :: t[j + 1] == it.field.key[j]
  {
  }

  /** The pieces of a string field around its escaped value. */
  lemma StrFieldChars(f: Field, next: char)
    requires f.Str?
    ensures var t, q, n := ItemText(Item(f, next)), |f.key| + 3, |Esc(f.value)|;
      && |t| == q + n + 3
      && t[0] == '"' && t[q - 2] == '"' && t[q - 1] == ':' && t[q] == '"' && t[q + n + 1] == '"' && t[q + n + 2] == next
      && (forall j | 0 <= j < |f.key| :: t[j + 1] == f.key[j])
      && (forall j | 0 <= j < n :: t[q + 1 + j] == Esc(f.value)[j])
  {
  }

  lemma BareFieldChars(f: Field, next: char)
    requires f.Bare?
    ensures var t, q, n := ItemText(Item(f, next)), |f.key| + 3, |f.text|;
      && |t| == q + n + 1
      && t[0] == '"' && t[q - 2] == '"' && t[q - 1] == ':' && t[q + n] == next
      && (forall j | 0 <= j < |f.key| :: t[j + 1] == f.key[j])
      && (forall j | 0 <= j < n :: t[q + j] == f.text[j])
  {
  }

  lemma PatternChars(key: string)
    ensures var p := KeyPattern(key);
      && |p| == |key| + 3 && p[0] == '"' && p[1 + |key|] == '"' && p[2 + |key|] == ':'
      && forall j | 0 <= j < |key| :: p[1 + j] == key[j]
  {
  }

  lemma Mismatch(s: string, pat: string, i: nat, k: nat)
    requires k < |pat| && (i + k < |s| ==> s[i + k] != pat[k])
    ensures !OccursAt(s, pat, i)
  {
    OccursChars(s, pat, i);
  }

  /** A quoted key followed by more, and a quoted pattern, differ if the keys do. */
  lemma KeysDiffer(t: string, p: string, k: string, key: string)
    requires key != k && Without(k, '"') && Without(key, '"')
    requires |t| > |k| + 1 && t[|k| + 1] == '"' && forall j | 0 <= j < |k| :: t[j + 1] == k[j]
    requires |p| > |key| + 1 && p[|key| + 1] == '"' && forall j | 0 <= j < |key| :: p[j + 1] == key[j]
    ensures !OccursAt(t, p, 0)
  {
    if |key| < |k| {
      assert t[|key| + 1] == k[|key|];
      Mismatch(t, p, 0, |key| + 1);
    } else if |key| > |k| {
      assert p[|k| + 1] == key[|k|];
      Mismatch(t, p, 0, |k| + 1);
    } else {
      var j :| 0 <= j < |k| && key[j] != k[j];
      assert t[j + 1] == k[j] && p[j + 1] == key[j];
      Mismatch(t, p, 0, j + 1);
    }
  }

  /** A pattern at the very start of a field is that field's own key. */
  lemma KeyAtStart(it: Item, rest: string, key: string)
    requires WellFormedItem(it) && PlainKey(key) && key != it.field.key
    ensures !OccursAt(ItemText(it) + rest, KeyPattern(key), 0)
  {
    var t, k := ItemText(it), it.field.key;
    PatternChars(key);
    KeyChars(it);
    assert forall j | 0 <= j <= |k| + 1 :: (t + rest)[j] == t[j];
    KeysDiffer(t + rest, KeyPattern(key), k, key);
  }

  lemma NoPatternInKey(it: Item, rest: string, key: string, i: nat)
    requires WellFormedItem(it) && PlainKey(key)
    requires 0 < i < |it.field.key| + 3 <= |ItemText(it)|
    ensures !OccursAt(ItemText(it) + rest, KeyPattern(key), i)
  {
    var t, p, q := ItemText(it) + rest, KeyPattern(key), |it.field.key| + 3;
    PatternChars(key);
    KeyChars(it);
    if i < q - 2 {
      assert t[i] == ItemText(it)[(i - 1) + 1] == it.field.key[i - 1];
      Mismatch(t, p, i, 0);
    } else if i == q - 2 {
      assert t[i + 1] == ':' && p[1] == key[0];
      Mismatch(t, p, i, 1);
    } else {
      assert t[i] == ':';
      Mismatch(t, p, i, 0);
    }
  }

  lemma NoPatternInBare(it: Item, rest: string, key: string, i: nat)
    requires WellFormedItem(it) && it.field.Bare? && PlainKey(key)
    requires |it.field.key| + 3 <= i < |ItemText(it)|
    ensures !OccursAt(ItemText(it) + rest, KeyPattern(key), i)
  {
    var t, q := ItemText(it), |it.field.key| + 3;
    PatternChars(key);
    BareFieldChars(it.field, it.next);
    assert (t + rest)[i] == t[q + (i - q)];
    Mismatch(t + rest, KeyPattern(key), i, 0);
  }

  /** No pattern starts inside a field: not in its key, not in its value, not at its closing quote. */
  lemma NoPatternInside(it: Item, rest: string, key: string, i: nat)
    requires WellFormedItem(it) && PlainKey(key)
    requires 0 < i < |ItemText(it)|
    ensures !OccursAt(ItemText(it) + rest, KeyPattern(key), i)
  {
    KeyChars(it);
    if i < |it.field.key| + 3 {
      NoPatternInKey(it, rest, key, i);
    } else if it.field.Bare? {
      NoPatternInBare(it, rest, key, i);
    } else {
      NoPatternInValue(it, rest, key, i);
    }
  }

  /** The pattern's second quote would have to be a quote of the value without a backslash before it. */
  lemma NoPatternInValue(it: Item, rest: string, key: string, i: nat)
    requires WellFormedItem(it) && it.field.Str? && PlainKey(key)
    requires |it.field.key| + 3 <= i < |ItemText(it)|
    ensures !OccursAt(ItemText(it) + rest, KeyPattern(key), i)
  {
    var t, p, close := ItemText(it) + rest, KeyPattern(key), |ItemText(it)| - 2;
    PatternChars(key);
    StrFieldChars(it.field, it.next);
    if i + 1 + |key| < close {
      SecondQuoteInValue(it, rest, key, i);
    } else if i + 1 + |key| == close {
      Mismatch(t, p, i, 2 + |key|);
    } else if i < close {
      assert p[close - i] == key[close - i - 1];
      Mismatch(t, p, i, close - i);
    } else if i == close {
      assert p[1] == key[0];
      Mismatch(t, p, i, 1);
    } else {
      Mismatch(t, p, i, 0);
    }
  }

  lemma ValueChars(it: Item, rest: string, at: nat)
    requires it.field.Str? && 0 < at < |Esc(it.field.value)|
    ensures var t, o := ItemText(it) + rest, |it.field.key| + 4;
      o + at < |t| && t[o + at] == Esc(it.field.value)[at] && t[o + at - 1] == Esc(it.field.value)[at - 1]
  {
    StrFieldChars(it.field, it.next);
  }

  lemma SecondQuoteInValue(it: Item, rest: string, key: string, i: nat)
    requires WellFormedItem(it) && it.field.Str? && PlainKey(key)
    requires |it.field.key| + 3 <= i && i + 1 + |key| < |ItemText(it)| - 2
    ensures !OccursAt(ItemText(it) + rest, KeyPattern(key), i)
  {
    var t, p, e := ItemText(it) + rest, KeyPattern(key), Esc(it.field.value);
    var at := i + 1 + |key| - |it.field.key| - 4;
    StrItemSize(it);
    ValueChars(it, rest, at);
    PatternChars(key);
    assert p[|key|] == p[1 + (|key| - 1)] == key[|key| - 1];
    if e[at] == '"' {
      EscapedQuotes(it.field.value, at);
    }
    QuoteMismatch(t, p, i, 1 + |key|);
  }

  lemma StrItemSize(it: Item)
    requires it.field.Str?
    ensures |ItemText(it)| == |it.field.key| + 6 + |Esc(it.field.value)|
  {
    StrFieldChars(it.field, it.next);
  }

  /** A bare quote of the pattern does not match an escaped one. */
  lemma QuoteMismatch(t: string, p: string, i: nat, k: nat)
    requires 0 < k < |p| && i + k < |t| && p[k] == '"' && p[k - 1] != '\\'
    requires t[i + k] == '"' ==> t[i + k - 1] == '\\'
    ensures !OccursAt(t, p, i)
  {
    if t[i + k] == '"' {
      Mismatch(t, p, i, k - 1);
    } else {
      Mismatch(t, p, i, k);
    }
  }

  // ---------- Searching a list of fields ----------

  /** Where the first field with this key starts. */
  function KeyOffset(items: seq<Item>, key: string): Option<nat> {
    if items == [] then None
    else if items[0].field.key == key then Some(0)
    else
      match KeyOffset(items[1..], key)
      case None => None
      case Some(o) => Some(|ItemText(items[0])| + o)
  }

  /** The search finds the first field with that key, and nothing else ever. */
  lemma {:induction false} SearchFindsTheField(items: seq<Item>, key: string)
    requires PlainKey(key) && forall k | 0 <= k < |items| :: WellFormedItem(items[k])
    ensures StrStr(ItemsText(items), KeyPattern(key)) == KeyOffset(items, key)
    decreases |items|
  {
    if items == [] {
      PatternChars(key);
      NothingInEmpty(KeyPattern(key));
    } else {
      assert WellFormedItem(items[0]);
      SearchFindsTheField(items[1..], key);
      if items[0].field.key == key {
        FieldStartsWithKey(items[0], ItemsText(items[1..]));
      } else {
        SearchSkips(items[0], ItemsText(items[1..]), key);
      }
    }
  }

  lemma NothingInEmpty(pat: string)
    requires pat != ""
    ensures StrStr("", pat) == None
  {}

  lemma FieldStartsWithKey(it: Item, rest: string)
    ensures StrStr(ItemText(it) + rest, KeyPattern(it.field.key)) == Some(0)
  {
    var p := KeyPattern(it.field.key);
    assert FieldText(it.field)[..|p|] == p;
    assert (ItemText(it) + rest)[0..|p|] == p;
  }

  lemma SearchSkips(it: Item, rest: string, key: string)
    requires WellFormedItem(it) && PlainKey(key) && key != it.field.key
    ensures var p := KeyPattern(key);
      StrStr(ItemText(it) + rest, p) ==
        match StrStr(rest, p)
        case None => None
        case Some(o) => Some(|ItemText(it)| + o)
  {
    var a, p := ItemText(it), KeyPattern(key);
    forall i | 0 <= i < |a| ensures !OccursAt(a + rest, p, i) {
      if i == 0 {
        KeyAtStart(it, rest, key);
      } else {
        NoPatternInside(it, rest, key, i);
      }
    }
    SkipPrefix(a, rest, p);
  }

  lemma SkipToFirst(a: string, b: string, pat: string, o: nat)
    requires (forall i | 0 <= i < |a| :: !OccursAt(a + b, pat, i)) && StrStr(b, pat) == Some(o)
    ensures StrStr(a + b, pat) == Some(|a| + o)
  {
    StrStrMeaning(b, pat);
    OccursShifted(a, b, pat, o);
    forall j | 0 <= j < |a| + o ensures !OccursAt(a + b, pat, j) {
      if j >= |a| {
        OccursShifted(a, b, pat, j - |a|);
      }
    }
    StrStrIs(a + b, pat, |a| + o);
  }

  lemma SkipToNothing(a: string, b: string, pat: string)
    requires (forall i | 0 <= i < |a| :: !OccursAt(a + b, pat, i)) && StrStr(b, pat) == None
    ensures StrStr(a + b, pat) == None
  {
    StrStrMeaning(b, pat);
    forall j: nat ensures !OccursAt(a + b, pat, j) {
      if j >= |a| {
        OccursShifted(a, b, pat, j - |a|);
      }
    }
    StrStrIsNone(a + b, pat);
  }

  lemma SkipPrefix(a: string, b: string, pat: string)
    requires forall i | 0 <= i < |a| :: !OccursAt(a + b, pat, i)
    ensures StrStr(a + b, pat) ==
      match StrStr(b, pat)
      case None => None
      case Some(o) => Some(|a| + o)
  {
    match StrStr(b, pat)
    case Some(o) => SkipToFirst(a, b, pat, o);
    case None => SkipToNothing(a, b, pat);
  }

  // ---------- Reading a field of an object ----------

  function Object(items: seq<Item>): string {
    "{" + ItemsText(items)
  }

  ghost predicate WellFormedItems(items: seq<Item>) {
    forall k | 0 <= k < |items| :: WellFormedItem(items[k])
  }

  lemma {:induction false} ItemsTextSplit(a: seq<Item>, b: seq<Item>)
    ensures ItemsText(a + b) == ItemsText(a) + ItemsText(b)
  {
    if a == [] {
      assert a + b == b;
    } else {
      assert (a + b)[1..] == a[1..] + b;
      ItemsTextSplit(a[1..], b);
    }
  }

  lemma {:induction false} AbsentKey(items: seq<Item>, key: string)
    requires forall k | 0 <= k < |items| :: items[k].field.key != key
    ensures KeyOffset(items, key) == None
  {
    if items != [] {
      AbsentKey(items[1..], key);
    }
  }

  lemma {:induction false} FirstKey(a: seq<Item>, it: Item, b: seq<Item>)
    requires forall k | 0 <= k < |a| :: a[k].field.key != it.field.key
    ensures KeyOffset(a + [it] + b, it.field.key) == Some(|ItemsText(a)|)
  {
    if a == [] {
      assert a + [it] + b == [it] + b;
    } else {
      assert (a + [it] + b)[1..] == a[1..] + [it] + b;
      FirstKey(a[1..], it, b);
    }
  }

  lemma SearchInObject(items: seq<Item>, key: string)
    requires PlainKey(key) && WellFormedItems(items)
    ensures StrStr(Object(items), KeyPattern(key)) ==
      match KeyOffset(items, key)
      case None => None
      case Some(o) => Some(1 + o)
  {
    SearchFindsTheField(items, key);
    PatternChars(key);
    Mismatch("{" + ItemsText(items), KeyPattern(key), 0, 0);
    SkipPrefix("{", ItemsText(items), KeyPattern(key));
  }

  /** A longer pattern is found where its beginning is, or not at all. */
  lemma LongerPattern(s: string, p: string, more: string)
    ensures StrStr(s, p).None? ==> StrStr(s, p + more).None?
    ensures StrStr(s, p).Some? && OccursAt(s, p + more, StrStr(s, p).value) ==> StrStr(s, p + more) == StrStr(s, p)
  {
    StrStrMeaning(s, p);
    StrStrMeaning(s, p + more);
    forall i: nat | OccursAt(s, p + more, i) ensures OccursAt(s, p, i) {
      assert s[i..i + |p + more|][..|p|] == s[i..i + |p|];
      assert (p + more)[..|p|] == p;
    }
  }

  lemma Regroup(w: string, x: string, y: string, z: string)
    ensures w + (x + y + z) == w + x + y + z == (w + x) + (y + z)
  {}

  /** The text of an object around one of its fields. */
  lemma ObjectAround(a: seq<Item>, it: Item, b: seq<Item>)
    ensures Object(a + [it] + b) == ("{" + ItemsText(a)) + (ItemText(it) + ItemsText(b))
  {
    ItemsTextSplit(a + [it], b);
    ItemsTextSplit(a, [it]);
    ItemsTextOne(it);
    Regroup("{", ItemsText(a), ItemText(it), ItemsText(b));
  }

  lemma ItemsTextOne(it: Item)
    ensures ItemsText([it]) == ItemText(it)
  {
    assert [it][1..] == [] && ItemsText([it][1..]) == "";
    assert ItemText(it) + "" == ItemText(it);
  }

  lemma FoundInMiddle(before: string, p: string, more: string, after: string)
    requires StrStr(before + ((p + more) + after), p) == Some(|before|)
    ensures StrStr(before + ((p + more) + after), p + more) == Some(|before|)
    ensures (before + ((p + more) + after))[|before| + |p + more|..] == after
  {
    var s := before + ((p + more) + after);
    assert s[|before|..|before| + |p + more|] == p + more;
    LongerPattern(s, p, more);
  }

  lemma KeyIsFound(a: seq<Item>, it: Item, b: seq<Item>)
    requires WellFormedItems(a + [it] + b)
    requires forall k | 0 <= k < |a| :: a[k].field.key != it.field.key
    ensures StrStr(Object(a + [it] + b), KeyPattern(it.field.key)) == Some(1 + |ItemsText(a)|)
  {
    assert (a + [it] + b)[|a|] == it && WellFormedItem(it);
    SearchInObject(a + [it] + b, it.field.key);
    FirstKey(a, it, b);
  }

  /** A field's pattern, with whatever follows it there, is found at the field. */
  lemma FieldIsFound(a: seq<Item>, it: Item, b: seq<Item>, more: string, after: string)
    requires WellFormedItems(a + [it] + b)
    requires forall k | 0 <= k < |a| :: a[k].field.key != it.field.key
    requires ItemText(it) == KeyPattern(it.field.key) + more + after
    ensures StrStr(Object(a + [it] + b), KeyPattern(it.field.key) + more) == Some(1 + |ItemsText(a)|)
    ensures Object(a + [it] + b)[1 + |ItemsText(a)| + |KeyPattern(it.field.key) + more|..] == after + ItemsText(b)
  {
    var p, rest := KeyPattern(it.field.key), ItemsText(b);
    KeyIsFound(a, it, b);
    ObjectAround(a, it, b);
    MiddleIsFound(Object(a + [it] + b), "{" + ItemsText(a), ItemText(it), rest, p, more, after);
  }

  lemma MiddleIsFound(s: string, before: string, t: string, rest: string, p: string, more: string, after: string)
    requires s == before + (t + rest) && t == p + more + after && StrStr(s, p) == Some(|before|)
    ensures StrStr(s, p + more) == Some(|before|) && s[|before| + |p + more|..] == after + rest
  {
    assert t + rest == (p + more) + (after + rest);
    FoundInMiddle(before, p, more, after + rest);
  }

  lemma StrItemText(it: Item)
    requires it.field.Str?
    ensures ItemText(it) == KeyPattern(it.field.key) + "\"" + (Esc(it.field.value) + "\"" + [it.next])
  {}

  lemma Regroup2(w: string, x: string, y: string, z: string)
    ensures (w + x + y) + z == w + x + (y + z)
  {}

  /** A string field comes back unescaped, cut to the reader's buffer. */
  lemma StrFieldReadsBack(a: seq<Item>, it: Item, b: seq<Item>, outLen: nat)
    requires WellFormedItems(a + [it] + b) && it.field.Str? && outLen > 0
    requires forall k | 0 <= k < |a| :: a[k].field.key != it.field.key
    ensures ExtractString(Object(a + [it] + b), KeyPattern(it.field.key) + "\"", outLen)
      == Some(Cut(it.field.value, outLen - 1))
  {
    var value, rest := Esc(it.field.value) + "\"" + [it.next], ItemsText(b);
    StrItemText(it);
    FieldIsFound(a, it, b, "\"", value);
    Regroup2(Esc(it.field.value), "\"", [it.next], rest);
    UnescapedEsc(it.field.value, [it.next] + rest, value + rest, outLen - 1);
    ExtractFound(Object(a + [it] + b), KeyPattern(it.field.key) + "\"", 1 + |ItemsText(a)|, value + rest, outLen);
  }

  lemma ExtractFound(obj: string, key: string, i: nat, text: string, outLen: nat)
    requires outLen > 0 && StrStr(obj, key) == Some(i) && obj[i + |key|..] == text
    ensures ExtractString(obj, key, outLen) == Some(Unescaped(text, outLen - 1))
  {}

  /** A field that is not there is not found, whatever the values hold. */
  lemma AbsentFieldIsNotFound(items: seq<Item>, key: string, more: string)
    requires PlainKey(key) && WellFormedItems(items)
    requires forall k | 0 <= k < |items| :: items[k].field.key != key
    ensures StrStr(Object(items), KeyPattern(key) + more) == None
  {
    AbsentKey(items, key);
    SearchInObject(items, key);
    LongerPattern(Object(items), KeyPattern(key), more);
  }

  lemma PartsAreWellFormed(a: seq<Item>, it: Item, b: seq<Item>)
    requires WellFormedItems(a + [it] + b)
    ensures WellFormedItem(it) && WellFormedItems(b)
  {
    assert (a + [it] + b)[|a|] == it;
    assert forall k | 0 <= k < |b| :: (a + [it] + b)[|a| + 1 + k] == b[k];
  }

  lemma NoneAmong(items: seq<Item>, key: string)
    requires PlainKey(key) && WellFormedItems(items)
    requires forall k | 0 <= k < |items| :: items[k].field.key != key
    ensures StrStr(ItemsText(items), KeyPattern(key)) == None
  {
    AbsentKey(items, key);
    SearchFindsTheField(items, key);
  }

  lemma NoneInside(it: Item, rest: string)
    requires WellFormedItem(it)
    ensures forall d | 0 < d < |ItemText(it)| :: !OccursAt(ItemText(it) + rest, KeyPattern(it.field.key), d)
  {
    forall d | 0 < d < |ItemText(it)| ensures !OccursAt(ItemText(it) + rest, KeyPattern(it.field.key), d) {
      NoPatternInside(it, rest, it.field.key, d);
    }
  }

  lemma LongerOccurs(s: string, p: string, more: string, i: nat)
    requires OccursAt(s, p + more, i)
    ensures OccursAt(s, p, i)
  {
    assert s[i..i + |p + more|][..|p|] == s[i..i + |p|];
    assert (p + more)[..|p|] == p;
  }

  lemma OnceInTheMiddle(before: string, t: string, rest: string, p: string, i: nat)
    requires StrStr(before + (t + rest), p) == Some(|before|) && StrStr(rest, p) == None
    requires forall d | 0 < d < |t| :: !OccursAt(t + rest, p, d)
    requires t != "" && OccursAt(before + (t + rest), p, i)
    ensures i == |before|
  {
    StrStrMeaning(before + (t + rest), p);
    StrStrMeaning(rest, p);
    var d := i - |before|;
    OccursShifted(before, t + rest, p, d);
    if d >= |t| {
      OccursShifted(t, rest, p, d - |t|);
    }
  }

  /** A key with only one field occurs nowhere else in the object. */
  lemma KeyOccursOnce(a: seq<Item>, it: Item, b: seq<Item>, i: nat)
    requires WellFormedItems(a + [it] + b)
    requires forall k | 0 <= k < |a| :: a[k].field.key != it.field.key
    requires forall k | 0 <= k < |b| :: b[k].field.key != it.field.key
    requires OccursAt(Object(a + [it] + b), KeyPattern(it.field.key), i)
    ensures i == |Object(a)|
  {
    PartsAreWellFormed(a, it, b);
    KeyIsFound(a, it, b);
    ObjectAround(a, it, b);
    NoneAmong(b, it.field.key);
    NoneInside(it, ItemsText(b));
    KeyChars(it);
    OnceInTheMiddle("{" + ItemsText(a), ItemText(it), ItemsText(b), KeyPattern(it.field.key), i);
  }

  ghost predicate OnlyAt(s: string, p: string, o: nat) {
    forall i: nat :: OccursAt(s, p, i) ==> i == o
  }

  lemma KeyOnlyThere(a: seq<Item>, it: Item, b: seq<Item>)
    requires WellFormedItems(a + [it] + b)
    requires forall k | 0 <= k < |a| :: a[k].field.key != it.field.key
    requires forall k | 0 <= k < |b| :: b[k].field.key != it.field.key
    ensures OnlyAt(Object(a + [it] + b), KeyPattern(it.field.key), |Object(a)|)
  {
    forall i: nat | OccursAt(Object(a + [it] + b), KeyPattern(it.field.key), i) ensures i == |Object(a)| {
      KeyOccursOnce(a, it, b, i);
    }
  }

  lemma LongerOnlyThere(s: string, p: string, more: string, o: nat)
    requires OnlyAt(s, p, o)
    ensures OnlyAt(s, p + more, o)
  {
    forall i: nat | OccursAt(s, p + more, i) ensures i == o {
      LongerOccurs(s, p, more, i);
    }
  }

  lemma NotEvenThere(s: string, p: string, o: nat)
    requires OnlyAt(s, p, o) && !OccursAt(s, p, o)
    ensures StrStr(s, p) == None
  {
    StrStrIsNone(s, p);
  }

  /** So a longer pattern depends on that field alone. */
  lemma OtherValueIsNotFound(a: seq<Item>, it: Item, b: seq<Item>, more: string)
    requires WellFormedItems(a + [it] + b)
    requires forall k | 0 <= k < |a| :: a[k].field.key != it.field.key
    requires forall k | 0 <= k < |b| :: b[k].field.key != it.field.key
    requires !OccursAt(ItemText(it) + ItemsText(b), KeyPattern(it.field.key) + more, 0)
    ensures StrStr(Object(a + [it] + b), KeyPattern(it.field.key) + more) == None
  {
    var p := KeyPattern(it.field.key);
    KeyOnlyThere(a, it, b);
    LongerOnlyThere(Object(a + [it] + b), p, more, |Object(a)|);
    ObjectAround(a, it, b);
    OccursShifted(Object(a), ItemText(it) + ItemsText(b), p + more, 0);
    NotEvenThere(Object(a + [it] + b), p + more, |Object(a)|);
  }

  // ---------- Searching the front of an object ----------

  lemma FrontLacks(s: string, m: nat, p: string, o: nat)
    requires m <= |s| && o + |p| > m
    requires OnlyAt(s, p, o)
    ensures StrStr(s[..m], p) == None
  {
    var head, tail := s[..m], s[m..];
    assert s == head + tail;
    StrStrMeaning(head, p);
    if StrStr(head, p).Some? {
      OccursInLonger(head, tail, p, StrStr(head, p).value);
    }
  }

  lemma FrontSearch(s: string, m: nat, p: string, o: nat)
    requires m <= |s| && StrStr(s, p) == Some(o) && o + |p| <= m
    ensures StrStr(s[..m], p) == Some(o)
  {
    var head, tail := s[..m], s[m..];
    assert s == head + tail;
    StrStrMeaning(s, p);
    OccursInShorter(head, tail, p, o);
    forall j | 0 <= j < o ensures !OccursAt(head, p, j) {
      if OccursAt(head, p, j) {
        OccursInLonger(head, tail, p, j);
      }
    }
    StrStrIs(head, p, o);
  }

  lemma FrontOnly(s: string, m: nat, p: string, o: nat)
    requires m <= |s| && StrStr(s, p) == Some(o) && OnlyAt(s, p, o)
    ensures StrStr(s[..m], p) == (if o + |p| <= m then Some(o) else None)
  {
    if o + |p| <= m {
      FrontSearch(s, m, p, o);
    } else {
      FrontLacks(s, m, p, o);
    }
  }

  lemma MoreOnlyThere(a: seq<Item>, it: Item, b: seq<Item>, more: string, after: string)
    requires WellFormedItems(a + [it] + b)
    requires forall k | 0 <= k < |a| :: a[k].field.key != it.field.key
    requires forall k | 0 <= k < |b| :: b[k].field.key != it.field.key
    requires ItemText(it) == KeyPattern(it.field.key) + more + after
    ensures var obj, p := Object(a + [it] + b), KeyPattern(it.field.key) + more;
      && StrStr(obj, p) == Some(|Object(a)|) && OnlyAt(obj, p, |Object(a)|)
      && |Object(a)| + |p| <= |obj| && obj[|Object(a)| + |p|..] == after + ItemsText(b)
  {
    FieldIsFound(a, it, b, more, after);
    KeyOnlyThere(a, it, b);
    LongerOnlyThere(Object(a + [it] + b), KeyPattern(it.field.key), more, |Object(a)|);
  }
}
