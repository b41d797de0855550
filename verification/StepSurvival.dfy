/** When a step comes back from the merged file as it was. */
module StepSurvival {
  import opened CutFields
  import opened JsonText
  import opened MergedFile
  import opened MergedSteps
  import opened ObjectFront
  import opened SqlText
  import opened StepFront
  import opened Text
  import opened Wrappers

  /** Each text cut to its buffer, the duration exact. */
  function Kept(s: MergedStep): JvmStep {
    JvmStep(s.section, Cut(s.desc, 95), Cut(s.stage, 47), Cut(s.process, 47),
            match s.sql case None => None case Some(sql) => Some(TrimTo(sql, 120)), s.timeNs as real / 1000.0)
  }

  /** Enough is seen of the text, or there is none to see. */
  predicate TextSurvives(v: string, c: int, room: nat) {
    if c < 0 then v == "" else Suffices(v, c, room)
  }

  /** Enough is seen of every field. */
  predicate Survives(s: MergedStep) {
    && TextSurvives(s.stage, SeenOf(s, 3), 47) && TextSurvives(s.desc, SeenOf(s, 4), 95)
    && TextSurvives(s.process, SeenOf(s, 5), 47) && TimeSuffices(s.timeNs, SeenOf(s, 6))
    && match s.sql
       case None => true
       case Some(sql) => SeenOf(s, 7) >= 0 && Suffices(TrimTo(sql, 120), SeenOf(s, 7), 179)
  }

  lemma TextSurvivesExactlyWhen(v: string, c: int, room: nat)
    requires room > 0
    ensures StringOr(TextRead(v, c, room), "") == Cut(v, room) <==> TextSurvives(v, c, room)
  {
    if c >= 0 {
      ShownSufficesExactlyWhen(v, c, room);
    }
  }

  lemma SqlSurvivesExactlyWhen(v: string, c: int)
    requires |v| <= 179
    ensures TextRead(v, c, 179) == Some(v) <==> c >= 0 && Suffices(v, c, 179)
  {
    if c >= 0 {
      ShownSufficesExactlyWhen(v, c, 179);
    }
  }

  /** A step comes back unchanged exactly when enough is seen of every field of its object. */
  lemma ReadBackIsKeptExactlyWhen(s: MergedStep)
    requires s.timeNs >= 0
    ensures ReadBack(s) == Kept(s) <==> Survives(s)
  {
    TextSurvivesExactlyWhen(s.stage, SeenOf(s, 3), 47);
    TextSurvivesExactlyWhen(s.desc, SeenOf(s, 4), 95);
    TextSurvivesExactlyWhen(s.process, SeenOf(s, 5), 47);
    TimeReadExactlyWhen(s.timeNs, SeenOf(s, 6));
    if s.sql.Some? {
      SqlSurvivesExactlyWhen(TrimTo(s.sql.value, 120), SeenOf(s, 7));
    }
  }

  // ---------- Objects that fit the reader's buffer ----------

  /** The first closing brace is the last character that the reader would keep anyway. */
  predicate EndsAtBrace(v: string, room: nat) {
    IndexOf(v, '}') + 1 == |v| || room <= IndexOf(v, '}') + 1
  }

  /** Nothing that matters follows the first closing brace in the texts of the step. */
  predicate NothingBehindBrace(s: MergedStep) {
    if !Without(s.stage, '}') then
      EndsAtBrace(s.stage, 47) && s.desc == "" && s.process == "" && s.timeNs == 0 && s.sql.None?
    else if !Without(s.desc, '}') then
      EndsAtBrace(s.desc, 95) && s.process == "" && s.timeNs == 0 && s.sql.None?
    else if !Without(s.process, '}') then
      EndsAtBrace(s.process, 47) && s.timeNs == 0 && s.sql.None?
    else
      match s.sql
      case None => true
      case Some(sql) => Without(TrimTo(sql, 120), '}') || EndsAtBrace(TrimTo(sql, 120), 179)
  }

  lemma ThroughBraceSuffices(v: string, room: nat)
    requires !Without(v, '}')
    ensures Suffices(v, |Esc(ThroughBrace(v))|, room) <==> EndsAtBrace(v, room)
    ensures Shown(v, |Esc(ThroughBrace(v))|) == ThroughBrace(v)
  {
    var q := IndexOf(v, '}') + 1;
    assert v == v[..q] + v[q..];
    PrefixIsShown(v[..q], v[q..]);
  }

  /** What the first brace leaves of a text of the step. */
  lemma TextAgainstBrace(s: MergedStep, j: nat, room: nat)
    requires Writable(s) && j < |StepItems(s)| && StepItems(s)[j].field.Str?
    requires FrontLength(StepItems(s)) < OBJECT_BUFFER
    ensures var v, c := StepItems(s)[j].field.value, SeenOf(s, j);
      && (j < BraceAt(s) ==> c >= 0 && Suffices(v, c, room))
      && (j == BraceAt(s) ==> !Without(v, '}') && c == |Esc(ThroughBrace(v))|)
      && (j > BraceAt(s) ==> c < 0)
  {
    var items := StepItems(s);
    StepItemsAreGood(s);
    StepBraceAt(s);
    FrontAgainst(items, j);
    StrItemLength(items[j]);
    if j < BraceAt(s) {
      AllIsShown(items[j].field.value, SeenOf(s, j));
    }
  }

  lemma TextSurvivesBrace(s: MergedStep, j: nat, room: nat)
    requires Writable(s) && 3 <= j < 6 && FrontLength(StepItems(s)) < OBJECT_BUFFER
    ensures var v := StepItems(s)[j].field.value;
      TextSurvives(v, SeenOf(s, j), room)
      <==> j < BraceAt(s) || (j == BraceAt(s) && EndsAtBrace(v, room)) || (j > BraceAt(s) && v == "")
  {
    TextAgainstBrace(s, j, room);
    if j == BraceAt(s) {
      ThroughBraceSuffices(StepItems(s)[j].field.value, room);
    }
  }

  lemma TimeSurvivesBrace(s: MergedStep)
    requires Writable(s) && s.timeNs >= 0 && FrontLength(StepItems(s)) < OBJECT_BUFFER
    ensures TimeSuffices(s.timeNs, SeenOf(s, 6)) <==> BraceAt(s) > 6 || s.timeNs == 0
  {
    var items := StepItems(s);
    StepItemsAreGood(s);
    StepBraceAt(s);
    FrontAgainst(items, 6);
    BareItemLength(items[6]);
    Fixed3Parts(s.timeNs);
  }

  lemma SqlSurvivesBrace(s: MergedStep)
    requires Writable(s) && s.sql.Some? && FrontLength(StepItems(s)) < OBJECT_BUFFER
    ensures var v := TrimTo(s.sql.value, 120);
      SeenOf(s, 7) >= 0 && Suffices(v, SeenOf(s, 7), 179)
      <==> 7 < BraceAt(s) || (7 == BraceAt(s) && EndsAtBrace(v, 179))
  {
    TextAgainstBrace(s, 7, 179);
    if 7 == BraceAt(s) {
      ThroughBraceSuffices(TrimTo(s.sql.value, 120), 179);
    }
  }

  /** If the reader's buffer holds the object through its first brace, only what follows that brace is lost. */
  lemma SurvivesExactlyWhenNothingBehindBrace(s: MergedStep)
    requires Writable(s) && s.timeNs >= 0 && FrontLength(StepItems(s)) < OBJECT_BUFFER
    ensures Survives(s) <==> NothingBehindBrace(s)
  {
    TextSurvivesBrace(s, 3, 47);
    TextSurvivesBrace(s, 4, 95);
    TextSurvivesBrace(s, 5, 47);
    TimeSurvivesBrace(s);
    if s.sql.Some? {
      SqlSurvivesBrace(s);
    }
  }

  /** A statement is then read through its first brace. */
  lemma StatementThroughBrace(s: MergedStep)
    requires Writable(s) && s.sql.Some? && BraceAt(s) == 7 && FrontLength(StepItems(s)) < OBJECT_BUFFER
    ensures ReadBack(s).sql == Some(Cut(ThroughBrace(TrimTo(s.sql.value, 120)), 179))
  {
    TextAgainstBrace(s, 7, 179);
    ThroughBraceSuffices(TrimTo(s.sql.value, 120), 179);
  }
}
