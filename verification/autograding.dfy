/** The autograding transforms of the exam JSON utilities:
    `removeCorrectAnswersAndScores`, which strips the answer key out of any
    JSON tree, and the two generators that project the answer key out of an
    exam and then validate it. */
module Autograding {
  import opened Wrappers
  import opened Text
  import opened Json
  import opened ExamTypes
  import opened Validator

  // ---------------------------------------------------------------------------
  // removeCorrectAnswersAndScores
  // ---------------------------------------------------------------------------

  /** `removeCorrectAnswersAndScores`: arrays are mapped, objects are rebuilt
      without `correct` and `score` and with `correctAnswers` emptied, and
      every other value (including `null`) is returned as it is. */
  function RemoveCorrectAnswersAndScores(j: Json): (r: Json)
    decreases j
    ensures !j.JArr? && !j.JObj? ==> r == j
    ensures j.JArr? <==> r.JArr?
    ensures j.JObj? <==> r.JObj?
    ensures j.JArr? ==> |r.items| == |j.items|
    ensures j.JObj? ==> Keys(r.fields) == KeptKeys(Keys(j.fields))
  {
    match j
    case JArr(items) => JArr(StripItems(items))
    case JObj(fs) => JObj(StripFields(fs))
    case _ => j
  }

  /** `obj.map(removeCorrectAnswersAndScores)`. */
  function StripItems(items: seq<Json>): (r: seq<Json>)
    decreases items
    ensures |r| == |items|
    ensures forall i | 0 <= i < |items| :: r[i] == RemoveCorrectAnswersAndScores(items[i])
  {
    if items == [] then []
    else [RemoveCorrectAnswersAndScores(items[0])] + StripItems(items[1..])
  }

  /** The `for … in` loop over an object's own properties, in order. */
  function StripFields(fs: seq<Field>): (r: seq<Field>)
    decreases fs
    ensures Keys(r) == KeptKeys(Keys(fs))
  {
    if fs == [] then []
    else
      var rest := StripFields(fs[1..]);
      var f := fs[0];
      assert fs == [f] + fs[1..];
      KeysCons(f, fs[1..]);
      if f.key == "correct" || f.key == "score" then rest
      else
        var g := if f.key == "correctAnswers" then Field(f.key, JArr([])) else Field(f.key, RemoveCorrectAnswersAndScores(f.value));
        KeysCons(g, rest);
        [g] + rest
  }

  /** The keys that survive, in their original order. */
  function KeptKeys(ks: seq<string>): (r: seq<string>)
    ensures forall k | k in r :: k in ks && k != "correct" && k != "score"
    ensures forall k | k in ks && k != "correct" && k != "score" :: k in r
  {
    if ks == [] then []
    else if ks[0] == "correct" || ks[0] == "score" then KeptKeys(ks[1..])
    else [ks[0]] + KeptKeys(ks[1..])
  }

  /** A tree with no `correct` or `score` property anywhere and only empty
      `correctAnswers`. */
  predicate Clean(j: Json)
    decreases j
  {
    match j
    case JArr(items) => forall i | 0 <= i < |items| :: Clean(items[i])
    case JObj(fs) => forall i | 0 <= i < |fs| :: CleanField(fs[i])
    case _ => true
  }

  predicate CleanField(f: Field)
    decreases f
  {
    && f.key != "correct" && f.key != "score"
    && (f.key == "correctAnswers" ==> f.value == JArr([]))
    && Clean(f.value)
  }

  /** Whether some object anywhere in the tree has a property `k`. */
  predicate KeyAnywhere(j: Json, k: string)
    decreases j
  {
    match j
    case JArr(items) => exists i | 0 <= i < |items| :: KeyAnywhere(items[i], k)
    case JObj(fs) => exists i | 0 <= i < |fs| :: FieldHasKey(fs[i], k)
    case _ => false
  }

  predicate FieldHasKey(f: Field, k: string)
    decreases f
  {
    f.key == k || KeyAnywhere(f.value, k)
  }

  /** Stripping leaves a clean tree. */
  lemma {:induction false} StripIsClean(j: Json)
    ensures Clean(RemoveCorrectAnswersAndScores(j))
    decreases j
  {
    match j
    case JArr(items) =>
      var r := StripItems(items);
      forall i | 0 <= i < |r| ensures Clean(r[i]) { StripIsClean(items[i]); }
    case JObj(fs) =>
      StripFieldsClean(fs);
    case _ =>
  }

  lemma {:induction false} StripFieldsClean(fs: seq<Field>)
    ensures forall i | 0 <= i < |StripFields(fs)| :: CleanField(StripFields(fs)[i])
    decreases fs
  {
    if fs != [] {
      StripFieldsClean(fs[1..]);
      var f := fs[0];
      if f.key != "correct" && f.key != "score" && f.key != "correctAnswers" {
        StripIsClean(f.value);
      }
    }
  }

  /** A clean tree is left exactly as it is. */
  lemma {:induction false} CleanIsFixed(j: Json)
    requires Clean(j)
    ensures RemoveCorrectAnswersAndScores(j) == j
    decreases j
  {
    match j
    case JArr(items) =>
      var r := StripItems(items);
      forall i | 0 <= i < |r| ensures r[i] == items[i] { CleanIsFixed(items[i]); }
    case JObj(fs) =>
      CleanFieldsFixed(fs);
    case _ =>
  }

  lemma {:induction false} CleanFieldsFixed(fs: seq<Field>)
    requires forall i | 0 <= i < |fs| :: CleanField(fs[i])
    ensures StripFields(fs) == fs
    decreases fs
  {
    if fs != [] {
      CleanFieldsFixed(fs[1..]);
      var f := fs[0];
      assert CleanField(f);
      if f.key != "correctAnswers" {
        CleanIsFixed(f.value);
      }
      assert fs == [f] + fs[1..];
    }
  }

  /** The trees stripping leaves alone are exactly the clean ones. */
  lemma FixedIffClean(j: Json)
    ensures RemoveCorrectAnswersAndScores(j) == j <==> Clean(j)
  {
    StripIsClean(j);
    if Clean(j) {
      CleanIsFixed(j);
    }
  }

  /** Stripping twice is stripping once. */
  lemma StripIdempotent(j: Json)
    ensures RemoveCorrectAnswersAndScores(RemoveCorrectAnswersAndScores(j)) == RemoveCorrectAnswersAndScores(j)
  {
    StripIsClean(j);
    CleanIsFixed(RemoveCorrectAnswersAndScores(j));
  }

  /** A clean tree has no `correct` and no `score` property at any depth. */
  lemma {:induction false} CleanHasNoKeys(j: Json)
    requires Clean(j)
    ensures !KeyAnywhere(j, "correct") && !KeyAnywhere(j, "score")
    decreases j
  {
    match j
    case JArr(items) =>
      forall i | 0 <= i < |items| ensures !KeyAnywhere(items[i], "correct") && !KeyAnywhere(items[i], "score") {
        CleanHasNoKeys(items[i]);
      }
    case JObj(fs) =>
      forall i | 0 <= i < |fs| ensures !FieldHasKey(fs[i], "correct") && !FieldHasKey(fs[i], "score") {
        assert CleanField(fs[i]);
        CleanHasNoKeys(fs[i].value);
      }
    case _ =>
  }

  /** After stripping, no `correct` or `score` property is left anywhere. */
  lemma NoAnswerKeyLeft(j: Json)
    ensures !KeyAnywhere(RemoveCorrectAnswersAndScores(j), "correct")
    ensures !KeyAnywhere(RemoveCorrectAnswersAndScores(j), "score")
  {
    StripIsClean(j);
    CleanHasNoKeys(RemoveCorrectAnswersAndScores(j));
  }

  /** What each property of a stripped object reads: `correct` and `score`
      are gone, `correctAnswers` is `[]` when it was there at all, and every
      other property holds its own value, stripped. */
  lemma {:induction false} StripLookup(fs: seq<Field>, k: string)
    ensures Lookup(StripFields(fs), k) ==
      if k == "correct" || k == "score" then None
      else if Lookup(fs, k).None? then None
      else if k == "correctAnswers" then Some(JArr([]))
      else Some(RemoveCorrectAnswersAndScores(Lookup(fs, k).value))
    decreases fs
  {
    if fs != [] {
      StripLookup(fs[1..], k);
      var f := fs[0];
      var rest := StripFields(fs[1..]);
      if f.key == "correctAnswers" {
        LookupCons(Field(f.key, JArr([])), rest, k);
      } else if f.key != "correct" && f.key != "score" {
        LookupCons(Field(f.key, RemoveCorrectAnswersAndScores(f.value)), rest, k);
      }
    }
  }

  // ---------------------------------------------------------------------------
  // generateAutogradingJson
  // ---------------------------------------------------------------------------

  /** JavaScript truthiness of an optional number (0 and `undefined` are
      falsy; NaN does not arise from JSON). */
  predicate Truthy(m: Option<real>) { m.Some? && m.value != 0.0 }

  function OptionFields(o: ExamOption, withScore: bool): seq<Field> {
    [Field("id", JNum(o.id))] + (BoolProp("correct", o.correct) + (if withScore then NumProp("score", o.score) else []))
  }

  lemma OptionFieldsLookup(o: ExamOption, withScore: bool, key: string)
    ensures Lookup(OptionFields(o, withScore), key) ==
      if key == "id" then Some(JNum(o.id))
      else if key == "correct" then BoolValue(o.correct)
      else if key == "score" && withScore then NumValue(o.score)
      else None
  {
    var scorePart := if withScore then NumProp("score", o.score) else [];
    LookupCons(Field("id", JNum(o.id)), BoolProp("correct", o.correct) + scorePart, key);
    LookupProp("correct", BoolValue(o.correct), scorePart, key);
    if withScore {
      LookupPropOnly("score", NumValue(o.score), key);
    }
  }

  /** An option projected for grading: `{ id, correct }`, and with `score`
      too in the custom-score form. */
  function OptionJson(o: ExamOption, withScore: bool): (r: Json)
    ensures r.JObj?
    ensures Get(r, "id") == Some(JNum(o.id))
    ensures Get(r, "correct") == BoolValue(o.correct)
    ensures Get(r, "score") == if withScore then NumValue(o.score) else None
  {
    OptionFieldsLookup(o, withScore, "id");
    OptionFieldsLookup(o, withScore, "correct");
    OptionFieldsLookup(o, withScore, "score");
    JObj(OptionFields(o, withScore))
  }

  /** A gap option projected for grading: `{ correct, id }`. */
  function GapOptionJson(o: ExamOption): (r: Json)
    ensures r.JObj?
    ensures Get(r, "id") == Some(JNum(o.id))
    ensures Get(r, "correct") == BoolValue(o.correct)
  {
    var idField := Field("id", JNum(o.id));
    LookupProp("correct", BoolValue(o.correct), [idField], "id");
    LookupProp("correct", BoolValue(o.correct), [idField], "correct");
    LookupSingle(idField, "id");
    LookupSingle(idField, "correct");
    JObj(BoolProp("correct", o.correct) + [idField])
  }

  function OptionsJson(os: seq<ExamOption>, withScore: bool): (r: seq<Json>)
    ensures |r| == |os|
    ensures forall i | 0 <= i < |os| :: r[i] == OptionJson(os[i], withScore)
  {
    seq(|os|, i requires 0 <= i < |os| => OptionJson(os[i], withScore))
  }

  function GapOptionsJson(os: seq<ExamOption>): (r: seq<Json>)
    ensures |r| == |os|
    ensures forall i | 0 <= i < |os| :: r[i] == GapOptionJson(os[i])
  {
    seq(|os|, i requires 0 <= i < |os| => GapOptionJson(os[i]))
  }

  /** `{ options: [...] }` for one choice or gap. */
  function OptionsEntry(options: seq<Json>): (r: Json)
    ensures r.JObj?
    ensures Get(r, "options") == Some(JArr(options))
  {
    LookupSingle(Field("options", JArr(options)), "options");
    JObj([Field("options", JArr(options))])
  }

  function ChoicesJson(cs: seq<ExamChoice>, withScore: bool): (r: seq<Json>)
    ensures |r| == |cs|
    ensures forall i | 0 <= i < |cs| :: r[i] == OptionsEntry(OptionsJson(cs[i].options, withScore))
  {
    seq(|cs|, i requires 0 <= i < |cs| => OptionsEntry(OptionsJson(cs[i].options, withScore)))
  }

  /** `content.filter(x => x.type === 'gap')`, as the gaps' options. */
  function Gaps(content: seq<GapContent>): (r: seq<seq<ExamOption>>)
    ensures |r| <= |content|
  {
    if content == [] then []
    else (if content[0].Gap? then [content[0].options] else []) + Gaps(content[1..])
  }

  /** Text items add no choice; each gap adds exactly one, in order. */
  lemma {:induction false} GapsAppend(a: seq<GapContent>, b: seq<GapContent>)
    ensures Gaps(a + b) == Gaps(a) + Gaps(b)
  {
    if a == [] {
      assert a + b == b;
    } else {
      var head := if a[0].Gap? then [a[0].options] else [];
      assert (a + b)[0] == a[0];
      assert (a + b)[1..] == a[1..] + b;
      GapsAppend(a[1..], b);
      var x, y := Gaps(a[1..]), Gaps(b);
      assert Gaps(a + b) == head + (x + y);
      assert head + (x + y) == (head + x) + y;
    }
  }

  lemma GapsOfItem(c: GapContent)
    ensures Gaps([c]) == if c.Gap? then [c.options] else []
  {
    assert [c][1..] == [];
  }

  /** Every gap of the content has sound options. */
  predicate GapContentSound(content: seq<GapContent>) {
    forall j | 0 <= j < |content| && content[j].Gap? :: OptionsSound(content[j].options, false)
  }

  /** Every selected gap has sound options. */
  predicate GapsSound(gs: seq<seq<ExamOption>>) {
    forall i | 0 <= i < |gs| :: OptionsSound(gs[i], false)
  }

  lemma GapsSoundAppend(a: seq<seq<ExamOption>>, b: seq<seq<ExamOption>>)
    ensures GapsSound(a + b) <==> GapsSound(a) && GapsSound(b)
  {
    if GapsSound(a) && GapsSound(b) {
      forall i | 0 <= i < |a + b| ensures OptionsSound((a + b)[i], false) {
        if i >= |a| { assert (a + b)[i] == b[i - |a|]; }
      }
    }
    if GapsSound(a + b) {
      forall i | 0 <= i < |b| ensures OptionsSound(b[i], false) {
        assert (a + b)[|a| + i] == b[i];
      }
      forall i | 0 <= i < |a| ensures OptionsSound(a[i], false) {
        assert (a + b)[i] == a[i];
      }
    }
  }

  lemma GapContentSoundCons(content: seq<GapContent>)
    requires content != []
    ensures GapContentSound(content) <==>
      (content[0].Gap? ==> OptionsSound(content[0].options, false)) && GapContentSound(content[1..])
  {
    if GapContentSound(content) {
      forall j | 0 <= j < |content[1..]| && content[1..][j].Gap? ensures OptionsSound(content[1..][j].options, false) {
        assert content[1..][j] == content[j + 1];
      }
    }
    if (content[0].Gap? ==> OptionsSound(content[0].options, false)) && GapContentSound(content[1..]) {
      forall j | 0 <= j < |content| && content[j].Gap? ensures OptionsSound(content[j].options, false) {
        if j > 0 { assert content[j] == content[1..][j - 1]; }
      }
    }
  }

  /** The selected gaps are sound exactly when every gap of the content is. */
  lemma {:induction false} GapsSoundIff(content: seq<GapContent>)
    ensures GapsSound(Gaps(content)) <==> GapContentSound(content)
  {
    if content != [] {
      GapsSoundIff(content[1..]);
      GapContentSoundCons(content);
      var head := if content[0].Gap? then [content[0].options] else [];
      assert Gaps(content) == head + Gaps(content[1..]);
      GapsSoundAppend(head, Gaps(content[1..]));
    }
  }

  function GapChoicesJson(gs: seq<seq<ExamOption>>): (r: seq<Json>)
    ensures |r| == |gs|
    ensures forall i | 0 <= i < |gs| :: r[i] == OptionsEntry(GapOptionsJson(gs[i]))
  {
    seq(|gs|, i requires 0 <= i < |gs| => OptionsEntry(GapOptionsJson(gs[i])))
  }

  /** `getMaxScoreChoiceGroupCorrectAnswers`: `{ maxScore, id, choices }`. */
  function MaxScoreChoiceGroupJson(q: Question): (r: Json)
    requires q.ChoiceGroup? && Truthy(q.groupMaxScore)
    ensures r.JObj? && Has(r, "maxScore")
    ensures Get(r, "maxScore") == Some(JNum(q.groupMaxScore.value))
    ensures Get(r, "id") == NumValue(q.id)
    ensures Get(r, "choices") == Some(JArr(ChoicesJson(q.choices, false)))
  {
    var tail := [Field("choices", JArr(ChoicesJson(q.choices, false)))];
    var fs := NumProp("maxScore", q.groupMaxScore) + (NumProp("id", q.id) + tail);
    LookupProp("maxScore", NumValue(q.groupMaxScore), NumProp("id", q.id) + tail, "maxScore");
    LookupProp("maxScore", NumValue(q.groupMaxScore), NumProp("id", q.id) + tail, "id");
    LookupProp("maxScore", NumValue(q.groupMaxScore), NumProp("id", q.id) + tail, "choices");
    LookupProp("id", NumValue(q.id), tail, "id");
    LookupProp("id", NumValue(q.id), tail, "choices");
    LookupSingle(tail[0], "choices");
    JObj(fs)
  }

  /** `getCustomScoreChoiceGroupCorrectAnswers`: `{ id, choices }`, with
      scores on the options. */
  function CustomScoreChoiceGroupJson(q: Question): (r: Json)
    requires q.ChoiceGroup?
    ensures r.JObj? && !Has(r, "maxScore")
    ensures Get(r, "id") == NumValue(q.id)
    ensures Get(r, "choices") == Some(JArr(ChoicesJson(q.choices, true)))
  {
    var tail := [Field("choices", JArr(ChoicesJson(q.choices, true)))];
    LookupProp("id", NumValue(q.id), tail, "id");
    LookupProp("id", NumValue(q.id), tail, "choices");
    LookupProp("id", NumValue(q.id), tail, "maxScore");
    LookupSingle(tail[0], "id");
    LookupSingle(tail[0], "choices");
    LookupSingle(tail[0], "maxScore");
    JObj(NumProp("id", q.id) + tail)
  }

  /** `getMultiChoiceGapCorrectAnswers`: `{ id, maxScore, choices }`, one
      choice per gap. */
  function MultiChoiceGapJson(q: Question): (r: Json)
    requires q.MultiChoiceGap?
    ensures r.JObj? && Has(r, "maxScore")
    ensures Get(r, "maxScore") == Some(JNum(q.maxScore))
    ensures Get(r, "id") == NumValue(q.id)
    ensures Get(r, "choices") == Some(JArr(GapChoicesJson(Gaps(q.content))))
  {
    var m := Field("maxScore", JNum(q.maxScore));
    var c := Field("choices", JArr(GapChoicesJson(Gaps(q.content))));
    var tail := [m] + [c];
    LookupProp("id", NumValue(q.id), tail, "id");
    LookupProp("id", NumValue(q.id), tail, "maxScore");
    LookupProp("id", NumValue(q.id), tail, "choices");
    LookupCons(m, [c], "maxScore");
    LookupCons(m, [c], "choices");
    LookupSingle(c, "choices");
    JObj(NumProp("id", q.id) + tail)
  }

  /** The questions that have a multiple-choice answer key. */
  predicate IsChoiceQuestion(q: Question) { q.ChoiceGroup? || q.MultiChoiceGap? }

  /** `getMultiChoiceCorrectAnswers`: the max-score form for a choice group
      with a truthy `maxScore`, the custom-score form for any other choice
      group (including `maxScore` 0), the gap form for a multichoicegap, and
      `undefined` for every other question. */
  function MultiChoiceCorrectAnswers(q: Question): (r: Option<Json>)
    ensures r.Some? <==> IsChoiceQuestion(q)
    ensures r.Some? ==> r.value.JObj? && Get(r.value, "id") == NumValue(q.id)
    ensures r.Some? ==> (Has(r.value, "maxScore") <==> q.MultiChoiceGap? || Truthy(q.groupMaxScore))
  {
    if q.ChoiceGroup? && Truthy(q.groupMaxScore) then Some(MaxScoreChoiceGroupJson(q))
    else if q.ChoiceGroup? then Some(CustomScoreChoiceGroupJson(q))
    else if q.MultiChoiceGap? then Some(MultiChoiceGapJson(q))
    else None
  }

  /** `questions.map(getMultiChoiceCorrectAnswers).filter(v => v !== undefined)`. */
  function MultiChoiceEntries(qs: seq<Question>): (r: seq<Json>)
    ensures |r| <= |qs|
  {
    if qs == [] then []
    else
      var e := MultiChoiceCorrectAnswers(qs[0]);
      (if e.Some? then [e.value] else []) + MultiChoiceEntries(qs[1..])
  }

  /** The selection the generator makes: the choice questions, in order. */
  function ChoiceQuestions(qs: seq<Question>): (r: seq<Question>)
    ensures forall q | q in r :: q in qs && IsChoiceQuestion(q)
    ensures forall q | q in qs && IsChoiceQuestion(q) :: q in r
  {
    if qs == [] then []
    else (if IsChoiceQuestion(qs[0]) then [qs[0]] else []) + ChoiceQuestions(qs[1..])
  }

  /** The entries of a list of choice questions, question by question. */
  function AnswerKeys(sel: seq<Question>): (r: seq<Json>)
    requires forall q | q in sel :: IsChoiceQuestion(q)
    ensures |r| == |sel|
  {
    if sel == [] then [] else [MultiChoiceCorrectAnswers(sel[0]).value] + AnswerKeys(sel[1..])
  }

  /** Mapping and then dropping `undefined` is selecting the choice
      questions and then mapping: one entry per choice question, in order. */
  lemma {:induction false} EntriesOfChoiceQuestions(qs: seq<Question>)
    ensures MultiChoiceEntries(qs) == AnswerKeys(ChoiceQuestions(qs))
    ensures |MultiChoiceEntries(qs)| == |ChoiceQuestions(qs)|
  {
    if qs != [] {
      EntriesOfChoiceQuestions(qs[1..]);
      var q := qs[0];
      var restSel := ChoiceQuestions(qs[1..]);
      if IsChoiceQuestion(q) {
        assert ChoiceQuestions(qs) == [q] + restSel;
        assert ([q] + restSel)[1..] == restSel;
      } else {
        assert ChoiceQuestions(qs) == restSel;
      }
    }
  }

  /** Entries follow the question order across a concatenation, so across
      sections too. */
  lemma {:induction false} EntriesAppend(a: seq<Question>, b: seq<Question>)
    ensures MultiChoiceEntries(a + b) == MultiChoiceEntries(a) + MultiChoiceEntries(b)
  {
    if a == [] {
      assert a + b == b;
    } else {
      assert (a + b)[1..] == a[1..] + b;
      assert (a + b)[0] == a[0];
      EntriesAppend(a[1..], b);
      var e := MultiChoiceCorrectAnswers(a[0]);
      var head := if e.Some? then [e.value] else [];
      var x, y := MultiChoiceEntries(a[1..]), MultiChoiceEntries(b);
      assert MultiChoiceEntries(a + b) == head + (x + y);
      assert head + (x + y) == (head + x) + y;
    }
  }

  /** `generateAutogradingJson`: the entries, or an error when the validator
      reports any. */
  function GenerateAutogradingJson(exam: ExamContent): (r: Result<Json, string>)
    ensures r.Success? ==> r.value.JArr? && ValidAutograding(r.value)
    ensures r.Success? ==> |r.value.items| == |ChoiceQuestions(AllQuestions(exam.sections))|
  {
    var result := JArr(MultiChoiceEntries(AllQuestions(exam.sections)));
    EntriesOfChoiceQuestions(AllQuestions(exam.sections));
    if ValidAutograding(result) then Success(result)
    else Failure("Autograding.json was not generated correctly")
  }

  // ---------------------------------------------------------------------------
  // When the autograding generator succeeds
  // ---------------------------------------------------------------------------

  /** A question id that is present and a non-negative integer. */
  predicate IdSound(id: Option<real>) { id.Some? && IsNatNumber(id.value) }

  /** An option the rules accept: integral id, a `correct` flag, and a score
      when the custom-score rule applies. */
  predicate OptionSound(o: ExamOption, withScore: bool) {
    IsNatNumber(o.id) && o.correct.Some? && (withScore ==> o.score.Some?)
  }

  predicate OptionsSound(os: seq<ExamOption>, withScore: bool) {
    forall i | 0 <= i < |os| :: OptionSound(os[i], withScore)
  }

  /** What a choice question must hold for its entry to pass, stated on the
      question itself. */
  predicate ChoiceQuestionSound(q: Question)
    requires IsChoiceQuestion(q)
  {
    if q.ChoiceGroup? then
      && IdSound(q.id)
      && (Truthy(q.groupMaxScore) ==> IsNatNumber(q.groupMaxScore.value))
      && forall i | 0 <= i < |q.choices| :: OptionsSound(q.choices[i].options, !Truthy(q.groupMaxScore))
    else
      && IsNatNumber(q.maxScore)
      && IdSound(q.id)
      && GapContentSound(q.content)
  }

  lemma IdPassesIff(id: Option<real>)
    ensures IsPositiveInteger(NumValue(id)) <==> IdSound(id)
  {
  }

  lemma OptionPassesIff(o: ExamOption, withScore: bool)
    ensures OptionPasses(OptionJson(o, withScore), withScore) <==> OptionSound(o, withScore)
  {
  }

  lemma GapOptionPassesIff(o: ExamOption)
    ensures OptionPasses(GapOptionJson(o), false) <==> OptionSound(o, false)
  {
  }

  lemma OptionsPassIff(os: seq<ExamOption>, withScore: bool)
    ensures ChoicePasses(OptionsEntry(OptionsJson(os, withScore)), withScore) <==> OptionsSound(os, withScore)
  {
    forall i | 0 <= i < |os| ensures OptionPasses(OptionsJson(os, withScore)[i], withScore) <==> OptionSound(os[i], withScore) {
      OptionPassesIff(os[i], withScore);
    }
  }

  lemma GapOptionsPassIff(os: seq<ExamOption>)
    ensures ChoicePasses(OptionsEntry(GapOptionsJson(os)), false) <==> OptionsSound(os, false)
  {
    forall i | 0 <= i < |os| ensures OptionPasses(GapOptionsJson(os)[i], false) <==> OptionSound(os[i], false) {
      GapOptionPassesIff(os[i]);
    }
  }

  lemma ChoicesPassIff(cs: seq<ExamChoice>, withScore: bool)
    ensures ChoicesPass(Some(JArr(ChoicesJson(cs, withScore))), withScore) <==>
      forall i | 0 <= i < |cs| :: OptionsSound(cs[i].options, withScore)
  {
    forall i | 0 <= i < |cs| ensures ChoicePasses(ChoicesJson(cs, withScore)[i], withScore) <==> OptionsSound(cs[i].options, withScore) {
      OptionsPassIff(cs[i].options, withScore);
    }
  }

  lemma GapChoicesPassIff(gs: seq<seq<ExamOption>>)
    ensures ChoicesPass(Some(JArr(GapChoicesJson(gs))), false) <==> GapsSound(gs)
  {
    forall i | 0 <= i < |gs| ensures ChoicePasses(GapChoicesJson(gs)[i], false) <==> OptionsSound(gs[i], false) {
      GapOptionsPassIff(gs[i]);
    }
  }

  /** One entry passes its rule exactly when its question is sound. */
  lemma EntryPassesIff(q: Question)
    requires IsChoiceQuestion(q)
    ensures ChoiceEntryPasses(MultiChoiceCorrectAnswers(q).value) <==> ChoiceQuestionSound(q)
  {
    IdPassesIff(q.id);
    if q.ChoiceGroup? && Truthy(q.groupMaxScore) {
      ChoicesPassIff(q.choices, false);
    } else if q.ChoiceGroup? {
      ChoicesPassIff(q.choices, true);
    } else {
      GapChoicesPassIff(Gaps(q.content));
      GapsSoundIff(q.content);
    }
  }

  /** The list rule splits over a leading entry. */
  lemma ValidCons(e: Json, rest: seq<Json>)
    ensures ValidAutograding(JArr([e] + rest)) <==> ChoiceEntryPasses(e) && ValidAutograding(JArr(rest))
  {
    var s := [e] + rest;
    assert s[0] == e;
    assert forall i | 0 <= i < |rest| :: s[i + 1] == rest[i];
    if ChoiceEntryPasses(e) && ValidAutograding(JArr(rest)) {
      forall i | 0 <= i < |s| ensures ChoiceEntryPasses(s[i]) {
        if i > 0 { assert s[i] == rest[i - 1]; }
      }
    }
  }

  /** A property of every element splits over the head. */
  lemma AllSplit(qs: seq<Question>)
    requires qs != []
    ensures (forall q | q in qs && IsChoiceQuestion(q) :: ChoiceQuestionSound(q)) <==>
      (IsChoiceQuestion(qs[0]) ==> ChoiceQuestionSound(qs[0])) &&
      forall q | q in qs[1..] && IsChoiceQuestion(q) :: ChoiceQuestionSound(q)
  {
    assert qs == [qs[0]] + qs[1..];
  }

  /** The validator accepts the entries of a question list exactly when
      every choice question in it is sound. */
  lemma {:induction false} EntriesValidIff(qs: seq<Question>)
    ensures ValidAutograding(JArr(MultiChoiceEntries(qs))) <==>
      forall q | q in qs && IsChoiceQuestion(q) :: ChoiceQuestionSound(q)
  {
    if qs != [] {
      EntriesValidIff(qs[1..]);
      AllSplit(qs);
      var q := qs[0];
      var rest := MultiChoiceEntries(qs[1..]);
      if IsChoiceQuestion(q) {
        EntryPassesIff(q);
        var e := MultiChoiceCorrectAnswers(q).value;
        assert MultiChoiceEntries(qs) == [e] + rest;
        ValidCons(e, rest);
      } else {
        assert MultiChoiceEntries(qs) == rest;
      }
    }
  }

  /** `generateAutogradingJson` succeeds exactly when every choice group and
      multichoicegap question of the exam is sound. */
  lemma AutogradingSucceedsIff(exam: ExamContent)
    ensures GenerateAutogradingJson(exam).Success? <==>
      forall q | q in AllQuestions(exam.sections) && IsChoiceQuestion(q) :: ChoiceQuestionSound(q)
  {
    EntriesValidIff(AllQuestions(exam.sections));
  }

  // ---------------------------------------------------------------------------
  // generateProductiveAutogradingJson
  // ---------------------------------------------------------------------------

  /** The questions with a productive answer key: text or subtext with a
      `correctAnswers` list, even an empty one. */
  predicate IsProductiveQuestion(q: Question) {
    (q.TextQuestion? || q.SubtextQuestion?) && q.correctAnswers.Some?
  }

  /** One accepted answer as `{ text, score }`. */
  function AnswerJson(text: string, score: real): (r: Json)
    ensures r.JObj?
    ensures Get(r, "text") == Some(JStr(text))
    ensures Get(r, "score") == Some(JNum(score))
  {
    var t, s := Field("text", JStr(text)), Field("score", JNum(score));
    LookupCons(t, [s], "text");
    LookupCons(t, [s], "score");
    LookupSingle(s, "score");
    JObj([t] + [s])
  }

  function AnswersJson(answers: seq<string>, score: real): (r: seq<Json>)
    ensures |r| == |answers|
    ensures forall i | 0 <= i < |answers| :: r[i] == AnswerJson(answers[i], score)
  {
    seq(|answers|, i requires 0 <= i < |answers| => AnswerJson(answers[i], score))
  }

  /** `getTextCorrectAnswers`: `{ id, correctAnswers }`, every answer scored
      with the question's `maxScore`. */
  function TextCorrectAnswersJson(q: Question): (r: Json)
    requires IsProductiveQuestion(q)
    ensures r.JObj?
    ensures Get(r, "id") == NumValue(q.id)
    ensures Get(r, "correctAnswers") == Some(JArr(AnswersJson(q.correctAnswers.value, q.maxScore)))
  {
    var c := Field("correctAnswers", JArr(AnswersJson(q.correctAnswers.value, q.maxScore)));
    LookupProp("id", NumValue(q.id), [c], "id");
    LookupProp("id", NumValue(q.id), [c], "correctAnswers");
    LookupSingle(c, "id");
    LookupSingle(c, "correctAnswers");
    JObj(NumProp("id", q.id) + [c])
  }

  /** `getProductiveCorrectAnswers`. */
  function ProductiveCorrectAnswers(q: Question): (r: Option<Json>)
    ensures r.Some? <==> IsProductiveQuestion(q)
  {
    if IsProductiveQuestion(q) then Some(TextCorrectAnswersJson(q)) else None
  }

  function ProductiveEntries(qs: seq<Question>): (r: seq<Json>)
    ensures |r| <= |qs|
  {
    if qs == [] then []
    else
      var e := ProductiveCorrectAnswers(qs[0]);
      (if e.Some? then [e.value] else []) + ProductiveEntries(qs[1..])
  }

  /** The `{ examUuid, questions }` object of the productive generator. */
  function ProductiveResult(examUuid: string, entries: seq<Json>): (r: Json)
    ensures r.JObj?
    ensures Get(r, "examUuid") == Some(JStr(examUuid))
    ensures Get(r, "questions") == Some(JArr(entries))
  {
    var u, q := Field("examUuid", JStr(examUuid)), Field("questions", JArr(entries));
    LookupCons(u, [q], "examUuid");
    LookupCons(u, [q], "questions");
    LookupSingle(q, "questions");
    JObj([u] + [q])
  }

  /** `generateProductiveAutogradingJson`: `{ examUuid, questions }`,
      validated as a one-element list. */
  function GenerateProductiveAutogradingJson(exam: ExamContent, examUuid: string): (r: Result<Json, string>)
    ensures r.Success? ==> ValidProductiveAutograding(JArr([r.value]))
    ensures r.Success? ==> Get(r.value, "examUuid") == Some(JStr(examUuid))
  {
    var result := ProductiveResult(examUuid, ProductiveEntries(AllQuestions(exam.sections)));
    if ValidProductiveAutograding(JArr([result])) then Success(result)
    else Failure("Productive autograding.json was not generated correctly")
  }

  /** What a productive question must hold for its entry to pass: an
      integral id, and, when it lists any answer, an integral `maxScore` and
      answers that `trim` leaves unchanged. */
  predicate ProductiveQuestionSound(q: Question)
    requires IsProductiveQuestion(q)
  {
    IdSound(q.id) && AnswersSound(q.correctAnswers.value, q.maxScore)
  }

  /** The answers pass exactly when each is trimmed and the score they
      all carry is integral (vacuous when there are none). */
  lemma AnswersPassIff(answers: seq<string>, score: real)
    ensures AnswersPass(Some(JArr(AnswersJson(answers, score)))) <==> AnswersSound(answers, score)
  {
    if AnswersPass(Some(JArr(AnswersJson(answers, score)))) {
      SoundFromPassing(answers, score);
    }
    if AnswersSound(answers, score) {
      PassingFromSound(answers, score);
    }
  }

  /** Every answer trimmed, under an integral score. */
  predicate AnswersSound(answers: seq<string>, score: real) {
    && (|answers| > 0 ==> IsNatNumber(score))
    && forall i | 0 <= i < |answers| :: Trim(answers[i]) == answers[i]
  }

  lemma AnswerPassesIff(text: string, score: real)
    ensures AnswerPasses(AnswerJson(text, score)) <==> IsNatNumber(score) && Trim(text) == text
  {
    TrimmedTextIff(text);
  }

  lemma SoundFromPassing(answers: seq<string>, score: real)
    requires AnswersPass(Some(JArr(AnswersJson(answers, score))))
    ensures AnswersSound(answers, score)
  {
    var js := AnswersJson(answers, score);
    forall i | 0 <= i < |answers| ensures Trim(answers[i]) == answers[i] {
      assert js[i] == AnswerJson(answers[i], score);
      AnswerPassesIff(answers[i], score);
    }
    if |answers| > 0 {
      assert js[0] == AnswerJson(answers[0], score);
      AnswerPassesIff(answers[0], score);
    }
  }

  lemma PassingFromSound(answers: seq<string>, score: real)
    requires AnswersSound(answers, score)
    ensures AnswersPass(Some(JArr(AnswersJson(answers, score))))
  {
    var js := AnswersJson(answers, score);
    forall i | 0 <= i < |js| ensures AnswerPasses(js[i]) {
      AnswerPassesIff(answers[i], score);
    }
  }

  lemma ProductiveEntryIff(q: Question)
    requires IsProductiveQuestion(q)
    ensures ProductiveQuestionPasses(ProductiveCorrectAnswers(q).value) <==> ProductiveQuestionSound(q)
  {
    IdPassesIff(q.id);
    AnswersPassIff(q.correctAnswers.value, q.maxScore);
    assert ProductiveCorrectAnswers(q).value == TextCorrectAnswersJson(q);
  }

  /** Every productive entry passes. */
  predicate AllQuestionsPass(entries: seq<Json>) {
    forall i | 0 <= i < |entries| :: ProductiveQuestionPasses(entries[i])
  }

  lemma AllPassCons(e: Json, rest: seq<Json>)
    ensures AllQuestionsPass([e] + rest) <==> ProductiveQuestionPasses(e) && AllQuestionsPass(rest)
  {
    var s := [e] + rest;
    assert s[0] == e;
    assert forall i | 0 <= i < |rest| :: s[i + 1] == rest[i];
    if ProductiveQuestionPasses(e) && AllQuestionsPass(rest) {
      forall i | 0 <= i < |s| ensures ProductiveQuestionPasses(s[i]) {
        if i > 0 { assert s[i] == rest[i - 1]; }
      }
    }
  }

  lemma ProductiveSplit(qs: seq<Question>)
    requires qs != []
    ensures (forall q | q in qs && IsProductiveQuestion(q) :: ProductiveQuestionSound(q)) <==>
      (IsProductiveQuestion(qs[0]) ==> ProductiveQuestionSound(qs[0])) &&
      forall q | q in qs[1..] && IsProductiveQuestion(q) :: ProductiveQuestionSound(q)
  {
    assert qs == [qs[0]] + qs[1..];
  }

  lemma {:induction false} ProductiveEntriesIff(qs: seq<Question>)
    ensures AllQuestionsPass(ProductiveEntries(qs)) <==>
      forall q | q in qs && IsProductiveQuestion(q) :: ProductiveQuestionSound(q)
  {
    if qs != [] {
      ProductiveEntriesIff(qs[1..]);
      ProductiveSplit(qs);
      var q := qs[0];
      var rest := ProductiveEntries(qs[1..]);
      if IsProductiveQuestion(q) {
        ProductiveEntryIff(q);
        var e := ProductiveCorrectAnswers(q).value;
        assert ProductiveEntries(qs) == [e] + rest;
        AllPassCons(e, rest);
      } else {
        assert ProductiveEntries(qs) == rest;
      }
    }
  }

  /** `generateProductiveAutogradingJson` succeeds exactly when the uuid has
      the 8-4-4-4-12 shape and every productive question is sound. */
  lemma ProductiveSucceedsIff(exam: ExamContent, examUuid: string)
    ensures GenerateProductiveAutogradingJson(exam, examUuid).Success? <==>
      UuidShape(examUuid) &&
      forall q | q in AllQuestions(exam.sections) && IsProductiveQuestion(q) :: ProductiveQuestionSound(q)
  {
    var entries := ProductiveEntries(AllQuestions(exam.sections));
    ProductiveEntriesIff(AllQuestions(exam.sections));
    var result := ProductiveResult(examUuid, entries);
    assert [result][0] == result;
    assert ValidProductiveAutograding(JArr([result])) <==> ProductiveEntryPasses(result);
    assert ProductiveEntryPasses(result) <==> RendersUuid(JStr(examUuid)) && QuestionsPass(Some(JArr(entries)));
  }
}
