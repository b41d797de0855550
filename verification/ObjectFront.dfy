/** What the C reader gets out of an object that it cuts at the first closing brace, wherever that is. */
module ObjectFront {
  import opened CutFields
  import opened JsonFields
  import opened JsonText
  import opened MergedFile
  import opened MergedNumbers
  import opened Text
  import opened Wrappers

  // ---------- The items that the agent writes ----------

  /** Nothing that ends a line or a C string. */
  predicate OneLineText(s: string) {
    Without(s, '\n') && Without(s, '\0')
  }

  ghost predicate IsName(key: string) {
    key != "" && forall i | 0 <= i < |key| :: 'a' <= key[i] <= 'z' || key[i] == '_'
  }

  ghost predicate GoodField(f: Field) {
    match f
    case Str(_, v) => OneLineText(v)
    case Bare(_, t) => OneLineText(t) && Without(t, '"') && Without(t, '}')
  }

  ghost predicate GoodItem(it: Item) {
    IsName(it.field.key) && GoodField(it.field) && it.next in {',', '}', '{'}
  }

  /** The items of one object, which ends with its last item. */
  ghost predicate GoodItems(items: seq<Item>) {
    && items != [] && (forall k | 0 <= k < |items| :: GoodItem(items[k]))
    && (forall k | 0 <= k < |items| :: items[k].next == '}' <==> k == |items| - 1)
  }

  lemma NamesAreKeys(key: string)
    requires IsName(key)
    ensures PlainKey(key) && Without(key, '}') && OneLineText(key)
  {}

  lemma GoodItemsAreWellFormed(items: seq<Item>)
    requires forall k | 0 <= k < |items| :: GoodItem(items[k])
    ensures WellFormedItems(items)
  {
    forall k | 0 <= k < |items| ensures WellFormedItem(items[k]) {
      NamesAreKeys(items[k].field.key);
    }
  }

  lemma {:induction false} EscWithout(v: string, c: char)
    requires Without(v, c) && c != '\\'
    ensures Without(Esc(v), c)
  {
    if v != "" {
      EscWithout(v[1..], c);
    }
  }

  lemma FieldTextWithout(f: Field, c: char)
    requires c !in {'"', '\\', ':'} && Without(f.key, c)
    requires f.Str? ==> Without(f.value, c)
    requires f.Bare? ==> Without(f.text, c)
    ensures Without(FieldText(f), c)
  {
    if f.Str? {
      EscWithout(f.value, c);
    }
  }

  lemma {:induction false} ItemsTextWithout(items: seq<Item>, c: char)
    requires forall k | 0 <= k < |items| :: Without(FieldText(items[k].field), c) && items[k].next != c
    ensures Without(ItemsText(items), c)
  {
    if items != [] {
      assert Without(FieldText(items[0].field), c);
      ItemsTextWithout(items[1..], c);
    }
  }

  lemma GoodItemsAreOneLine(items: seq<Item>)
    requires forall k | 0 <= k < |items| :: GoodItem(items[k])
    ensures OneLineText(Object(items))
  {
    forall k | 0 <= k < |items|
      ensures Without(FieldText(items[k].field), '\n') && Without(FieldText(items[k].field), '\0')
    {
      assert GoodItem(items[k]);
      NamesAreKeys(items[k].field.key);
      FieldTextWithout(items[k].field, '\n');
      FieldTextWithout(items[k].field, '\0');
    }
    ItemsTextWithout(items, '\n');
    ItemsTextWithout(items, '\0');
  }

  lemma Grouped(a: string, b: string, c: string)
    ensures a + (b + c) == (a + b) + c
  {}

  lemma ObjectSnoc(items: seq<Item>, it: Item)
    ensures Object(items + [it]) == Object(items) + ItemText(it)
  {
    ItemsTextSplit(items, [it]);
    ItemsTextOne(it);
    Grouped("{", ItemsText(items), ItemText(it));
  }

  lemma ObjectEnds(items: seq<Item>)
    requires items != []
    ensures Object(items)[|Object(items)| - 1] == items[|items| - 1].next
  {
    var n := |items| - 1;
    assert items == items[..n] + [items[n]];
    ObjectSnoc(items[..n], items[n]);
  }

  // ---------- Offsets ----------

  lemma StrItemLength(it: Item)
    requires it.field.Str?
    ensures |ItemText(it)| == |it.field.key| + 6 + |Esc(it.field.value)|
  {
    StrFieldChars(it.field, it.next);
  }

  lemma BareItemLength(it: Item)
    requires it.field.Bare?
    ensures |ItemText(it)| == |it.field.key| + 4 + |it.field.text|
  {
    BareFieldChars(it.field, it.next);
  }

  lemma OffsetNext(items: seq<Item>, j: nat)
    requires j < |items|
    ensures |Object(items[..j + 1])| == |Object(items[..j])| + |ItemText(items[j])|
  {
    assert items[..j + 1] == items[..j] + [items[j]];
    ObjectSnoc(items[..j], items[j]);
  }

  lemma LengthNext(items: seq<Item>, j: nat)
    requires j < |items|
    ensures |Object(items[..j + 1])| == |Object(items[..j])| + |ItemText(items[j])|
    ensures items[j].field.Str? ==> |ItemText(items[j])| == |items[j].field.key| + 6 + |Esc(items[j].field.value)|
    ensures items[j].field.Bare? ==> |ItemText(items[j])| == |items[j].field.key| + 4 + |items[j].field.text|
  {
    OffsetNext(items, j);
    if items[j].field.Str? {
      StrItemLength(items[j]);
    } else {
      BareItemLength(items[j]);
    }
  }

  lemma {:induction false} OffsetsGrow(items: seq<Item>, i: nat, j: nat)
    requires i <= j <= |items|
    ensures |Object(items[..i])| <= |Object(items[..j])|
  {
    if i < j {
      OffsetsGrow(items, i, j - 1);
      OffsetNext(items, j - 1);
    }
  }

  // ---------- The first closing brace ----------

  predicate Braced(it: Item) {
    it.field.Str? && !Without(it.field.value, '}')
  }

  /** The first item whose value holds a closing brace. */
  function FirstBraced(items: seq<Item>): (f: nat)
    ensures f <= |items|
    ensures f < |items| ==> Braced(items[f])
    ensures forall k | 0 <= k < f :: !Braced(items[k])
  {
    if items == [] || Braced(items[0]) then 0 else 1 + FirstBraced(items[1..])
  }

  /** A value through its first closing brace. */
  function ThroughBrace(v: string): string {
    if IndexOf(v, '}') < |v| then v[..IndexOf(v, '}') + 1] else v
  }

  /** How much of the object the reader cuts out. */
  function FrontLength(items: seq<Item>): nat {
    IndexOf(Object(items), '}') + 1
  }

  lemma BraceFree(items: seq<Item>, f: nat)
    requires GoodItems(items) && f <= |items| && f <= FirstBraced(items)
    requires f < |items| || FirstBraced(items) == |items|
    ensures f < |items| ==> Without(Object(items[..f]), '}')
    ensures forall k | 0 <= k < f :: Without(FieldText(items[k].field), '}')
  {
    forall k | 0 <= k < f ensures Without(FieldText(items[k].field), '}') {
      assert GoodItem(items[k]);
      NamesAreKeys(items[k].field.key);
      FieldTextWithout(items[k].field, '}');
    }
    if f < |items| {
      ItemsTextWithout(items[..f], '}');
    }
  }

  lemma {:induction false} EscSplit(a: string, b: string)
    ensures Esc(a + b) == Esc(a) + Esc(b)
  {
    if a == "" {
      assert a + b == b;
    } else {
      assert (a + b)[1..] == a[1..] + b;
      EscSplit(a[1..], b);
    }
  }

  /** An escaped value around its first closing brace. */
  lemma EscAtBrace(v: string) returns (before: string, after: string)
    requires !Without(v, '}')
    ensures Esc(v) == before + ['}'] + after && Esc(ThroughBrace(v)) == before + ['}'] && Without(before, '}')
  {
    var q := IndexOf(v, '}');
    before, after := Esc(v[..q]), Esc(v[q + 1..]);
    EscWithout(v[..q], '}');
    EscSplit(v[..q], ['}']);
    EscSplit(v[..q + 1], v[q + 1..]);
    assert v == v[..q + 1] + v[q + 1..] && v[..q + 1] == v[..q] + ['}'];
    assert Esc(['}']) == ['}'] by { assert ['}'][1..] == ""; }
  }

  lemma PatternWithout(key: string)
    requires IsName(key)
    ensures Without(KeyPattern(key) + "\"", '}')
  {
    NamesAreKeys(key);
  }

  lemma Regrouped(f: string, p: string, b: string, c: string, a: string, r: string)
    ensures f + (p + ((b + c + a) + r)) == (f + p + b) + c + (a + r)
  {}

  lemma ThreeLack(f: string, p: string, b: string, c: char)
    requires Without(f, c) && Without(p, c) && Without(b, c)
    ensures Without(f + p + b, c)
  {}

  lemma BraceInValue(front: string, pattern: string, before: string, after: string, rest: string)
    requires Without(front, '}') && Without(pattern, '}') && Without(before, '}')
    ensures IndexOf(front + (pattern + ((before + ['}'] + after) + rest)), '}') == |front| + |pattern| + |before|
  {
    Regrouped(front, pattern, before, ['}'], after, rest);
    ThreeLack(front, pattern, before, '}');
    IndexOfAfter(front + pattern + before, '}', after + rest);
  }

  lemma StrItemParts(it: Item, rest: string)
    requires it.field.Str?
    ensures ItemText(it) + rest == (KeyPattern(it.field.key) + "\"") + (Esc(it.field.value) + ("\"" + [it.next] + rest))
  {
    StrItemText(it);
    var p, v := KeyPattern(it.field.key) + "\"", Esc(it.field.value);
    assert p + (v + "\"" + [it.next]) + rest == p + (v + ("\"" + [it.next] + rest));
  }

  /** The front ends inside the first value with a brace, or is the whole object. */
  lemma FrontEnds(items: seq<Item>)
    requires GoodItems(items)
    ensures var f := FirstBraced(items);
      FrontLength(items) ==
        if f == |items| then |Object(items)|
        else |Object(items[..f])| + |items[f].field.key| + 4 + |Esc(ThroughBrace(items[f].field.value))|
    ensures FrontLength(items) <= |Object(items)|
  {
    var f := FirstBraced(items);
    BraceFree(items, f);
    if f == |items| {
      OnlyLastBrace(items);
    } else {
      var it := items[f];
      assert items == items[..f] + [it] + items[f + 1..] && GoodItem(it);
      ObjectAround(items[..f], it, items[f + 1..]);
      StrItemParts(it, ItemsText(items[f + 1..]));
      PatternWithout(it.field.key);
      var before, after := EscAtBrace(it.field.value);
      BraceInValue(Object(items[..f]), KeyPattern(it.field.key) + "\"", before, after,
                   "\"" + [it.next] + ItemsText(items[f + 1..]));
    }
  }

  lemma LastCharIsFirst(x: string, c: char)
    requires Without(x, c)
    ensures IndexOf(x + [c], c) == |x|
  {
    IndexOfIs(x + [c], c, |x|);
  }

  lemma TwoLack(a: string, b: string, c: char)
    requires Without(a, c) && Without(b, c)
    ensures Without(a + b, c)
  {}

  lemma OnlyLastBrace(items: seq<Item>)
    requires GoodItems(items) && FirstBraced(items) == |items|
    ensures FrontLength(items) == |Object(items)|
  {
    var n := |items| - 1;
    BraceFree(items, |items|);
    BraceFree(items, n);
    assert items == items[..n] + [items[n]];
    ObjectSnoc(items[..n], items[n]);
    var front, last := Object(items[..n]), FieldText(items[n].field);
    Grouped(front, last, ['}']);
    TwoLack(front, last, '}');
    LastCharIsFirst(front + last, '}');
  }

  // ---------- Where the front ends ----------

  lemma ThroughBraceIsShorter(v: string)
    requires !Without(v, '}')
    ensures |Esc(ThroughBrace(v))| <= |Esc(v)|
  {
    var before, after := EscAtBrace(v);
  }

  lemma WholeSlice(items: seq<Item>)
    ensures items[..|items|] == items
  {}

  lemma FrontPassesBraceFree(items: seq<Item>)
    requires GoodItems(items)
    ensures |Object(items[..FirstBraced(items)])| <= FrontLength(items)
  {
    FrontEnds(items);
    WholeSlice(items);
  }

  lemma FrontBehind(items: seq<Item>, j: nat)
    requires GoodItems(items) && j < FirstBraced(items)
    ensures |Object(items[..j])| + |ItemText(items[j])| <= FrontLength(items)
  {
    FrontPassesBraceFree(items);
    OffsetNext(items, j);
    OffsetsGrow(items, j + 1, FirstBraced(items));
  }

  lemma FrontBefore(items: seq<Item>, j: nat)
    requires GoodItems(items) && FirstBraced(items) < j < |items|
    ensures FrontLength(items) <= |Object(items[..j])|
  {
    var f := FirstBraced(items);
    FrontEnds(items);
    OffsetNext(items, f);
    OffsetsGrow(items, f + 1, j);
    ThroughBraceIsShorter(items[f].field.value);
    StrItemLength(items[f]);
  }

  /** Where the front ends, seen from item `j`. */
  lemma FrontAgainst(items: seq<Item>, j: nat)
    requires GoodItems(items) && j < |items|
    ensures var f, o, m := FirstBraced(items), |Object(items[..j])|, FrontLength(items);
      && (j < f ==> o + |ItemText(items[j])| <= m)
      && (j == f ==> m == o + |items[j].field.key| + 4 + |Esc(ThroughBrace(items[j].field.value))|)
      && (j > f ==> m <= o)
  {
    var f := FirstBraced(items);
    if j < f {
      FrontBehind(items, j);
    } else if j > f {
      FrontBefore(items, j);
    } else {
      FrontEnds(items);
    }
  }

  // ---------- Reading from the first characters ----------

  ghost predicate DistinctKeys(items: seq<Item>) {
    forall j, k | 0 <= j < k < |items| :: items[j].field.key != items[k].field.key
  }

  lemma Around(items: seq<Item>, j: nat)
    requires j < |items| && DistinctKeys(items)
    ensures items == items[..j] + [items[j]] + items[j + 1..]
    ensures forall k | 0 <= k < j :: items[..j][k].field.key != items[j].field.key
    ensures var b := items[j + 1..]; forall k | 0 <= k < |b| :: b[k].field.key != items[j].field.key
  {}

  /** Where the value of an item starts. */
  function ValueAt(items: seq<Item>, j: nat): nat
    requires j < |items|
  {
    |Object(items[..j])| + |items[j].field.key| + if items[j].field.Str? then 4 else 3
  }

  lemma BareItemText(it: Item, after: string)
    requires it.field.Bare? && after == it.field.text + [it.next]
    ensures ItemText(it) == KeyPattern(it.field.key) + "" + after
  {}

  lemma Pieces(obj: string, o: nat, m: nat, text: string)
    requires o <= m <= |obj| && obj[o..] == text
    ensures m - o <= |text| && obj[..m][o..] == text[..m - o]
  {
    assert obj[..m][o..] == obj[o..m] == obj[o..][..m - o];
  }

  lemma PatternLength(key: string)
    ensures |KeyPattern(key)| == |key| + 3 && |KeyPattern(key) + "\""| == |key| + 4
  {}

  lemma NothingMore(s: string)
    ensures s + "" == s
  {}

  /** Where a field's pattern is in the first `m` characters, and what follows it in the object. */
  lemma FieldWithin(items: seq<Item>, j: nat, m: nat, more: string, after: string)
    requires GoodItems(items) && DistinctKeys(items) && j < |items| && m <= |Object(items)|
    requires ItemText(items[j]) == KeyPattern(items[j].field.key) + more + after
    ensures var p, o := KeyPattern(items[j].field.key) + more, |Object(items[..j])|;
      && StrStr(Object(items)[..m], p) == (if o + |p| <= m then Some(o) else None)
      && o + |p| <= |Object(items)| && Object(items)[o + |p|..] == after + ItemsText(items[j + 1..])
  {
    Around(items, j);
    GoodItemsAreWellFormed(items);
    MoreOnlyThere(items[..j], items[j], items[j + 1..], more, after);
    FrontOnly(Object(items), m, KeyPattern(items[j].field.key) + more, |Object(items[..j])|);
  }

  lemma TextWithin(obj: string, m: nat, p: string, o: nat, v: string, rest: string, outLen: nat)
    requires m <= |obj| && outLen > 0 && o + |p| <= |obj| && obj[o + |p|..] == Esc(v) + "\"" + rest
    requires StrStr(obj[..m], p) == if o + |p| <= m then Some(o) else None
    ensures ExtractString(obj[..m], p, outLen) == TextRead(v, m - o - |p|, outLen - 1)
  {
    if o + |p| <= m {
      Pieces(obj, o + |p|, m, Esc(v) + "\"" + rest);
      ShownIsRead(v, rest, Esc(v) + "\"" + rest, m - o - |p|, outLen - 1);
    }
  }

  /** How a string field reads back from the first `m` characters of the object. */
  lemma ReadsText(items: seq<Item>, j: nat, m: nat, outLen: nat)
    requires GoodItems(items) && DistinctKeys(items) && j < |items| && items[j].field.Str?
    requires m <= |Object(items)| && outLen > 0
    ensures ExtractString(Object(items)[..m], KeyPattern(items[j].field.key) + "\"", outLen)
      == TextRead(items[j].field.value, m - ValueAt(items, j), outLen - 1)
  {
    var it, v, more := items[j], items[j].field.value, ItemsText(items[j + 1..]);
    StrItemText(it);
    FieldWithin(items, j, m, "\"", Esc(v) + "\"" + [it.next]);
    PatternLength(it.field.key);
    Regroup2(Esc(v), "\"", [it.next], more);
    TextWithin(Object(items), m, KeyPattern(it.field.key) + "\"", |Object(items[..j])|, v, [it.next] + more, outLen);
  }

  lemma CutBehind(number: string, rest: string, c: nat)
    requires |number| < c <= |number + rest|
    ensures (number + rest)[..c] == number + rest[..c - |number|] && rest[..c - |number|] != ""
  {}

  lemma CutWithin(number: string, rest: string, c: nat)
    requires c <= |number|
    ensures (number + rest)[..c] == Cut(number, c)
  {}

  lemma SameNumber(number: string, rest: string, v: real)
    requires StrToD(number) == Some(v) && StrToD(rest) == Some(v)
    ensures NumberIn(number) == NumberIn(rest)
  {}

  lemma TimeSeenWhole(ns: nat, rest: string)
    requires rest == "" || rest[0] in {',', '}', '{'}
    ensures NumberIn(Fixed3(ns) + rest) == NumberIn(Fixed3(ns))
  {
    Fixed3ReadsBack(ns, rest);
    Fixed3ReadsBack(ns, "");
    NothingMore(Fixed3(ns));
    SameNumber(Fixed3(ns) + rest, Fixed3(ns), ns as real / 1000.0);
  }

  lemma TimeReadIsNumber(ns: nat, c: nat, number: string)
    requires number == Cut(Fixed3(ns), c)
    ensures TimeRead(ns, c) == NumberIn(number)
  {}

  lemma TimeSeen(ns: nat, rest: string, c: nat)
    requires rest != "" && rest[0] in {',', '}', '{'} && c <= |Fixed3(ns) + rest|
    ensures TimeRead(ns, c) == NumberIn((Fixed3(ns) + rest)[..c])
  {
    var number := Fixed3(ns);
    if c <= |number| {
      CutWithin(number, rest, c);
      TimeReadIsNumber(ns, c, (number + rest)[..c]);
    } else {
      CutBehind(number, rest, c);
      TimeReadIsNumber(ns, c, number);
      TimeSeenWhole(ns, rest[..c - |number|]);
    }
  }

  lemma NumberFound(obj: string, key: string, i: nat, text: string)
    requires StrStr(obj, key) == Some(i) && obj[i + |key|..] == text
    ensures ExtractNumber(obj, key) == NumberIn(text)
  {}

  lemma NumberWithin(obj: string, m: nat, p: string, o: nat, ns: nat, text: string, rest: string)
    requires m <= |obj| && o + |p| <= |obj| && obj[o + |p|..] == text && text == Fixed3(ns) + rest
    requires rest != "" && rest[0] in {',', '}', '{'}
    requires StrStr(obj[..m], p) == if o + |p| <= m then Some(o) else None
    ensures ExtractNumber(obj[..m], p) == TimeRead(ns, m - o - |p|)
  {
    if o + |p| <= m {
      var c := m - o - |p|;
      Pieces(obj, o + |p|, m, text);
      NumberFound(obj[..m], p, o, text[..c]);
      TimeSeen(ns, rest, c);
    }
  }

  lemma Regroup3(a: string, b: string, c: string)
    ensures a + b + c == a + (b + c)
  {}

  /** How a duration reads back from there. */
  lemma ReadsNumber(items: seq<Item>, j: nat, m: nat, ns: nat)
    requires GoodItems(items) && DistinctKeys(items) && j < |items| && m <= |Object(items)|
    requires items[j].field.Bare? && items[j].field.text == Fixed3(ns)
    ensures ExtractNumber(Object(items)[..m], KeyPattern(items[j].field.key)) == TimeRead(ns, m - ValueAt(items, j))
  {
    var it, p, more := items[j], KeyPattern(items[j].field.key), ItemsText(items[j + 1..]);
    assert GoodItem(it);
    BareItemText(it, Fixed3(ns) + [it.next]);
    FieldWithin(items, j, m, "", Fixed3(ns) + [it.next]);
    NothingMore(p);
    PatternLength(it.field.key);
    Regroup3(Fixed3(ns), [it.next], more);
    NumberWithin(Object(items), m, p, |Object(items[..j])|, ns, (Fixed3(ns) + [it.next]) + more, [it.next] + more);
  }

  /** A key that the object does not have is not found. */
  lemma ReadsNothing(items: seq<Item>, key: string, m: nat, outLen: nat)
    requires GoodItems(items) && IsName(key) && outLen > 0 && m <= |Object(items)|
    requires forall k | 0 <= k < |items| :: items[k].field.key != key
    ensures ExtractString(Object(items)[..m], KeyPattern(key) + "\"", outLen) == None
  {
    NamesAreKeys(key);
    GoodItemsAreWellFormed(items);
    AbsentFieldIsNotFound(items, key, "\"");
    PrefixLacks(Object(items)[..m], Object(items), KeyPattern(key) + "\"");
  }
}
